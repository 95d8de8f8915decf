/**
  The finite-state-machine engine of fsm/fsm.go: a current state, the declared
  list of states and a two-level transition table keyed by source state and
  event. Actions are opaque callbacks; each is identified by an `ActionId` and
  every invocation is recorded, with the state the machine is in at that moment,
  in a ghost trace.
*/
module Fsm {
  import opened Wrappers

  type State = string
  type Event = string

  /** An opaque `Action` (a `func() bool`). */
  type ActionId = nat

  /** `StateActionTuple`: the destination of a transition and its actions, in order. */
  datatype Record = Record(nextState: State, actions: seq<ActionId>)

  /** `map[State]map[Event]*StateActionTuple` */
  type Table = map<State, map<Event, Record>>

  /** One run of an action, with the state that `Current()` reports while it runs. */
  datatype Invocation = Invocation(action: ActionId, observed: State)

  /** The result of `ExecEvent`: nil, or the "invalid Transition" error. */
  datatype ExecOutcome = Done | InvalidTransition

  /** The row of `src` as Go reads `transitions[src]`: a nil (empty) map when absent. */
  function Row(t: Table, src: State): map<Event, Record>
  {
    if src in t then t[src] else map[]
  }

  /** The two-level lookup `transitions[src][ev]`. */
  function Lookup(t: Table, src: State, ev: Event): Option<Record>
  {
    if ev in Row(t, src) then Some(Row(t, src)[ev]) else None
  }

  /** The events that have a record for `src`. */
  function EventsAt(t: Table, src: State): set<Event>
  {
    Row(t, src).Keys
  }

  /** Every (source, event) key of the table. */
  ghost function Keys(t: Table): set<(State, Event)>
  {
    set s, e | s in t && e in t[s] :: (s, e)
  }

  /**
    The table after `AddTransition`: the inner map of `src` is created when it
    is missing, and the record for (src, ev) is replaced as a whole.
  */
  function Insert(t: Table, src: State, ev: Event, r: Record): (t': Table)
    ensures Lookup(t', src, ev) == Some(r)
    ensures forall s, e :: (s, e) != (src, ev) ==> Lookup(t', s, e) == Lookup(t, s, e)
    ensures Keys(t') == Keys(t) + {(src, ev)}
  {
    if src in t then t[src := t[src][ev := r]] else t[src := map[ev := r]]
  }

  /** Invariant of the table the engine builds: no source has an empty inner map. */
  ghost predicate NoEmptyRows(t: Table)
  {
    forall s :: s in t ==> t[s] != map[]
  }

  lemma InsertKeepsRowsNonEmpty(t: Table, src: State, ev: Event, r: Record)
    requires NoEmptyRows(t)
    ensures NoEmptyRows(Insert(t, src, ev, r))
  {
    var t' := Insert(t, src, ev, r);
    forall s | s in t'
      ensures t'[s] != map[]
    {
      if s == src {
        assert ev in t'[s];
      }
    }
  }

  /** Registering a key twice keeps only the second record, actions included. */
  lemma OverwriteNotMerge(t: Table, src: State, ev: Event, r1: Record, r2: Record)
    ensures Insert(Insert(t, src, ev, r1), src, ev, r2) == Insert(t, src, ev, r2)
  {
    var row := if src in t then t[src] else map[];
    assert row[ev := r1][ev := r2] == row[ev := r2];
  }

  /** The invocations of `actions`, in order, each observing `s`. */
  function Invocations(actions: seq<ActionId>, s: State): seq<Invocation>
  {
    seq(|actions|, i requires 0 <= i < |actions| => Invocation(actions[i], s))
  }

  /** Running `a` and then `b` records the invocations of `a`, then those of `b`. */
  lemma InvocationsAppend(a: seq<ActionId>, b: seq<ActionId>, s: State)
    ensures Invocations(a + b, s) == Invocations(a, s) + Invocations(b, s)
  {
    var l, r := Invocations(a + b, s), Invocations(a, s) + Invocations(b, s);
    forall i | 0 <= i < |l|
      ensures l[i] == r[i]
    {
      if i >= |a| {
        assert (a + b)[i] == b[i - |a|];
      }
    }
  }

  class Machine {
    var state: State
    var states: seq<State>
    var transitions: Table
    /** The actions run so far, oldest first. */
    ghost var trace: seq<Invocation>

    ghost predicate Valid()
      reads this
    {
      NoEmptyRows(transitions)
    }

    /** `New`: copies the declared states, in order, into a fresh slice. */
    constructor (initial: string, declared: seq<string>)
      ensures Valid()
      ensures state == initial && states == declared
      ensures transitions == map[] && trace == []
    {
      var stateSlice := new State[|declared|];
      for i := 0 to |declared|
        invariant forall k :: 0 <= k < i ==> stateSlice[k] == declared[k]
      {
        stateSlice[i] := declared[i];
      }
      state := initial;
      transitions := map[];
      states := stateSlice[..];
      trace := [];
    }

    /**
      Registers (source, trigger) -> (dest, actions), replacing any earlier
      record for that key. Neither state is checked against `states`.
    */
    method AddTransition(trigger: string, source: string, dest: string, actions: seq<ActionId>)
      requires Valid()
      modifies this
      ensures Valid()
      ensures transitions == Insert(old(transitions), source, trigger, Record(dest, actions))
      ensures state == old(state) && states == old(states) && trace == old(trace)
    {
      InsertKeepsRowsNonEmpty(transitions, source, trigger, Record(dest, actions));
      ghost var target := Insert(transitions, source, trigger, Record(dest, actions));
      if source !in transitions {
        transitions := transitions[source := map[]];
      }
      transitions := transitions[source := transitions[source][trigger := Record(dest, actions)]];
      assert transitions == target;
    }

    /** Runs one action: it sees the current state; its boolean result is arbitrary. */
    method RunAction(a: ActionId) returns (result: bool)
      modifies this`trace
      ensures trace == old(trace) + [Invocation(a, state)]
    {
      trace := trace + [Invocation(a, state)];
      result := *;
    }

    /**
      Applies `event`: with no record for (current, event) it fails and changes
      nothing; otherwise it commits the destination, then runs each action once,
      in order, and succeeds whatever the actions return.
    */
    method ExecEvent(event: string) returns (outcome: ExecOutcome)
      requires Valid()
      modifies this
      ensures Valid()
      ensures transitions == old(transitions) && states == old(states)
      ensures outcome == Done <==> old(Can(event))
      ensures old(Lookup(transitions, state, event)).None? ==>
                outcome == InvalidTransition && state == old(state) && trace == old(trace)
      ensures old(Lookup(transitions, state, event)).Some? ==>
                var rec := old(Lookup(transitions, state, event)).value;
                state == rec.nextState && trace == old(trace) + Invocations(rec.actions, rec.nextState)
    {
      var found := Lookup(transitions, state, event);
      if found.None? {
        return InvalidTransition;
      }
      var rec := found.value;
      state := rec.nextState;
      for i := 0 to |rec.actions|
        invariant state == rec.nextState
        invariant transitions == old(transitions) && states == old(states)
        invariant trace == old(trace) + Invocations(rec.actions[..i], rec.nextState)
      {
        var ignored := RunAction(rec.actions[i]);
        assert rec.actions[..i + 1] == rec.actions[..i] + [rec.actions[i]];
        InvocationsAppend(rec.actions[..i], [rec.actions[i]], rec.nextState);
      }
      assert rec.actions[..|rec.actions|] == rec.actions;
      return Done;
    }

    /**
      The events registered for the current state, each once, in whatever order
      the map yields them.
    */
    method AvailableTransitions() returns (events: seq<string>)
      requires Valid()
      ensures forall e :: e in events <==> Lookup(transitions, state, e).Some?
      ensures forall i, j :: 0 <= i < j < |events| ==> events[i] != events[j]
      ensures events != [] <==> state in transitions
    {
      events := [];
      var rest := EventsAt(transitions, state);
      while rest != {}
        invariant rest <= EventsAt(transitions, state)
        invariant forall e :: e in events <==> e in EventsAt(transitions, state) && e !in rest
        invariant forall i, j :: 0 <= i < j < |events| ==> events[i] != events[j]
        decreases rest
      {
        var k :| k in rest;
        events := events + [k];
        rest := rest - {k};
      }
      if state in transitions {
        assert transitions[state] != map[];
        assert transitions[state].Keys != {};
        var k :| k in transitions[state];
        assert k in events;
      }
      if events != [] {
        assert Lookup(transitions, state, events[0]).Some?;
      }
    }

    /** Whether `ExecEvent(event)` would succeed now; reads only. */
    function Can(event: string): (ok: bool)
      reads this
      ensures ok <==> event in EventsAt(transitions, state)
    {
      Lookup(transitions, state, event).Some?
    }

    function Current(): (s: string)
      reads this
      ensures s == state
    {
      state
    }

    /** `getStates`: the declared states, copied in declared order. */
    method GetStates() returns (r: seq<string>)
      ensures r == states
    {
      r := [];
      for i := 0 to |states|
        invariant r == states[..i]
      {
        r := r + [states[i]];
      }
      assert states[..|states|] == states;
    }
  }

  /**
    The transitions of fsm/fsm_test.go: from RECEIVED with only VALIDATED
    registered, VALIDATED succeeds and PROCESSED fails.
  */
  method OrderScenario() returns (valid: ExecOutcome, invalid: ExecOutcome)
    ensures valid == Done && invalid == InvalidTransition
  {
    var states := ["RECEIVED", "PROCESSING", "FINISHED"];
    var m := new Machine(states[0], states);
    m.AddTransition("VALIDATED", "RECEIVED", "PROCESSING", [0]);
    valid := m.ExecEvent("VALIDATED");
    assert m.Current() == "PROCESSING";
    var n := new Machine(states[0], states);
    n.AddTransition("VALIDATED", "RECEIVED", "PROCESSING", [0]);
    invalid := n.ExecEvent("PROCESSED");
    assert n.Current() == "RECEIVED";
  }
}
