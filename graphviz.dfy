/**
  The Graphviz exporter of fsm/graphviz.go. `Dot` states the whole output as a
  function of the machine: a header, one edge line per record ordered by source
  state and then by event, a blank line, one line per declared state (the
  current one coloured red) and a footer. `Visualize` builds the same text
  imperatively through a byte buffer and the `write*` helpers.
*/
module Graphviz {
  import opened Fsm
  import opened StringOrder

  const Header: string := "digraph fsm {\n"
  const Footer: string := "}\n"

  /** One edge of the drawing: a record of the table. */
  datatype Edge = Edge(src: State, event: Event, dst: State)

  function EdgeLine(e: Edge): string
  {
    "    \"" + e.src + "\" -> \"" + e.dst + "\" [ label = \"" + e.event + "\" ];"
  }

  function RedLine(s: State): string
  {
    "    \"" + s + "\" [color = \"red\"];"
  }

  function PlainLine(s: State): string
  {
    "    \"" + s + "\";"
  }

  function StateLine(s: State, current: State): string
  {
    if s == current then RedLine(s) else PlainLine(s)
  }

  /** The edges of one source state, in the order of `events`. */
  function RowEdges(src: State, row: map<Event, Record>, events: seq<Event>): seq<Edge>
    requires forall e :: e in events ==> e in row
  {
    seq(|events|, i requires 0 <= i < |events| => Edge(src, events[i], row[events[i]].nextState))
  }

  /** The edges of the sources `srcs`, in that order, each source's events sorted. */
  ghost function EdgesOf(t: Table, srcs: seq<State>): seq<Edge>
  {
    if srcs == [] then []
    else
      var s := srcs[|srcs| - 1];
      EdgesOf(t, srcs[..|srcs| - 1]) + RowEdges(s, Row(t, s), SortedSeq(Row(t, s).Keys))
  }

  /** All edges of the table, sorted by source state and then by event. */
  ghost function Edges(t: Table): seq<Edge>
  {
    EdgesOf(t, SortedSeq(t.Keys))
  }

  /** Each edge on its own line. */
  function EdgeText(es: seq<Edge>): string
  {
    if es == [] then []
    else EdgeText(es[..|es| - 1]) + EdgeLine(es[|es| - 1]) + "\n"
  }

  /** Each declared state on its own line, the current one in red. */
  function StatesText(states: seq<State>, current: State): string
  {
    if states == [] then []
    else StatesText(states[..|states| - 1], current) + StateLine(states[|states| - 1], current) + "\n"
  }

  /** The state block with no state marked. */
  function PlainStatesText(states: seq<State>): string
  {
    if states == [] then []
    else PlainStatesText(states[..|states| - 1]) + PlainLine(states[|states| - 1]) + "\n"
  }

  /** The text `Visualize` returns for a machine with this table, state and state list. */
  ghost function Dot(t: Table, current: State, states: seq<State>): string
  {
    Header + EdgeText(Edges(t)) + "\n" + StatesText(states, current) + Footer
  }

  /** The order of the edge lines: by source state, then by event. */
  predicate EdgeBefore(a: Edge, b: Edge)
  {
    Less(a.src, b.src) || (a.src == b.src && Less(a.event, b.event))
  }

  // ---------------------------------------------------------------------------
  // Properties of the output

  lemma RowEdgesMembers(src: State, row: map<Event, Record>)
    ensures forall e: Edge :: e in RowEdges(src, row, SortedSeq(row.Keys)) <==>
                        e.src == src && e.event in row && e.dst == row[e.event].nextState
  {
    var evs := SortedSeq(row.Keys);
    var es := RowEdges(src, row, evs);
    forall e: Edge | e.src == src && e.event in row && e.dst == row[e.event].nextState
      ensures e in es
    {
      var i :| 0 <= i < |evs| && evs[i] == e.event;
      assert es[i] == e;
    }
  }

  lemma {:induction false} EdgesOfMembers(t: Table, srcs: seq<State>)
    ensures forall e: Edge :: e in EdgesOf(t, srcs) <==>
                        e.src in srcs && Lookup(t, e.src, e.event).Some? && Lookup(t, e.src, e.event).value.nextState == e.dst
  {
    if srcs != [] {
      var init := srcs[..|srcs| - 1];
      var s := srcs[|srcs| - 1];
      EdgesOfMembers(t, init);
      RowEdgesMembers(s, Row(t, s));
      assert srcs == init + [s];
    }
  }

  /** An edge is drawn exactly when the table holds its record. */
  lemma EdgesExact(t: Table, e: Edge)
    ensures e in Edges(t) <==> Lookup(t, e.src, e.event).Some? && Lookup(t, e.src, e.event).value.nextState == e.dst
  {
    EdgesOfMembers(t, SortedSeq(t.Keys));
  }

  lemma RowEdgesOrdered(src: State, row: map<Event, Record>)
    ensures forall i, j :: 0 <= i < j < |RowEdges(src, row, SortedSeq(row.Keys))| ==>
              EdgeBefore(RowEdges(src, row, SortedSeq(row.Keys))[i], RowEdges(src, row, SortedSeq(row.Keys))[j])
  {
  }

  /** Every edge drawn before source `s` comes from a smaller source. */
  lemma EarlierSourcesSmaller(t: Table, srcs: seq<State>)
    requires StrictlySorted(srcs) && srcs != []
    ensures forall e :: e in EdgesOf(t, srcs[..|srcs| - 1]) ==> Less(e.src, srcs[|srcs| - 1])
  {
    var init := srcs[..|srcs| - 1];
    EdgesOfMembers(t, init);
    forall e | e in EdgesOf(t, init)
      ensures Less(e.src, srcs[|srcs| - 1])
    {
      var k :| 0 <= k < |init| && init[k] == e.src;
      assert srcs[k] == init[k];
    }
  }

  lemma {:induction false} EdgesOfOrdered(t: Table, srcs: seq<State>)
    requires StrictlySorted(srcs)
    ensures forall i, j :: 0 <= i < j < |EdgesOf(t, srcs)| ==> EdgeBefore(EdgesOf(t, srcs)[i], EdgesOf(t, srcs)[j])
  {
    if srcs != [] {
      var init := srcs[..|srcs| - 1];
      var s := srcs[|srcs| - 1];
      var a := EdgesOf(t, init);
      var b := RowEdges(s, Row(t, s), SortedSeq(Row(t, s).Keys));
      var es := EdgesOf(t, srcs);
      assert es == a + b;
      assert StrictlySorted(init);
      EdgesOfOrdered(t, init);
      RowEdgesOrdered(s, Row(t, s));
      EarlierSourcesSmaller(t, srcs);
      forall i, j | 0 <= i < j < |es|
        ensures EdgeBefore(es[i], es[j])
      {
        if j < |a| {
          assert es[i] == a[i] && es[j] == a[j];
        } else if i >= |a| {
          assert es[i] == b[i - |a|] && es[j] == b[j - |a|];
        } else {
          assert es[i] == a[i] && a[i] in a;
          assert es[j] == b[j - |a|];
        }
      }
    }
  }

  /**
    Edge lines are strictly ordered by (source, event): each record is drawn
    once, in ascending order.
  */
  lemma EdgesOrdered(t: Table)
    ensures forall i, j :: 0 <= i < j < |Edges(t)| ==> EdgeBefore(Edges(t)[i], Edges(t)[j])
  {
    EdgesOfOrdered(t, SortedSeq(t.Keys));
  }

  lemma EmptyTableLayout(current: State, states: seq<State>)
    ensures Dot(map[], current, states) == Header + "\n" + StatesText(states, current) + Footer
  {
    assert SortedSeq({}) == [];
  }

  lemma DotFraming(t: Table, current: State, states: seq<State>)
    ensures |Dot(t, current, states)| >= |Header| + 1 + |Footer|
    ensures Dot(t, current, states)[..|Header|] == Header
    ensures Dot(t, current, states)[|Header| + |EdgeText(Edges(t))|] == '\n'
    ensures Dot(t, current, states)[|Dot(t, current, states)| - |Footer|..] == Footer
  {
    var d := Dot(t, current, states);
    var edges := EdgeText(Edges(t));
    var middle := edges + "\n" + StatesText(states, current);
    AppendAssoc(Header, edges, "\n");
    AppendAssoc(Header, edges + "\n", StatesText(states, current));
    assert d == (Header + middle) + Footer;
    assert (Header + middle)[..|Header|] == Header;
    assert (Header + middle)[|Header| + |edges|] == middle[|edges|] == '\n';
  }

  /** When the current state is not declared, no state line is red. */
  lemma {:induction false} UndeclaredCurrentUnmarked(states: seq<State>, current: State)
    requires current !in states
    ensures StatesText(states, current) == PlainStatesText(states)
  {
    if states != [] {
      UndeclaredCurrentUnmarked(states[..|states| - 1], current);
    }
  }

  // ---------------------------------------------------------------------------
  // The imperative exporter

  /** The `bytes.Buffer` the helpers append to. */
  class Buffer {
    var contents: string

    constructor ()
      ensures contents == []
    {
      contents := [];
    }

    method WriteString(s: string)
      modifies this
      ensures contents == old(contents) + s
    {
      contents := contents + s;
    }
  }

  lemma AppendAssoc(a: string, b: string, c: string)
    ensures a + b + c == a + (b + c)
  {
  }

  lemma EdgeTextSnoc(es: seq<Edge>, e: Edge)
    ensures EdgeText(es + [e]) == EdgeText(es) + (EdgeLine(e) + "\n")
  {
    assert (es + [e])[..|es|] == es;
  }

  lemma {:induction false} EdgeTextAppend(a: seq<Edge>, b: seq<Edge>)
    ensures EdgeText(a + b) == EdgeText(a) + EdgeText(b)
  {
    if b != [] {
      var b' := b[..|b| - 1];
      var e := b[|b| - 1];
      assert a + b == (a + b') + [e] && b == b' + [e];
      EdgeTextAppend(a, b');
      EdgeTextSnoc(a + b', e);
      EdgeTextSnoc(b', e);
      AppendAssoc(EdgeText(a), EdgeText(b'), EdgeLine(e) + "\n");
    } else {
      assert a + b == a;
    }
  }

  lemma RowEdgesSnoc(src: State, row: map<Event, Record>, events: seq<Event>, j: nat)
    requires j < |events| && forall e :: e in events ==> e in row
    ensures RowEdges(src, row, events[..j + 1])
         == RowEdges(src, row, events[..j]) + [Edge(src, events[j], row[events[j]].nextState)]
  {
  }

  lemma StatesTextSnoc(states: seq<State>, i: nat, current: State)
    requires i < |states|
    ensures StatesText(states[..i + 1], current) == StatesText(states[..i], current) + (StateLine(states[i], current) + "\n")
  {
    assert states[..i + 1][..i] == states[..i];
  }

  lemma EdgesOfSnoc(t: Table, srcs: seq<State>, i: nat)
    requires i < |srcs|
    ensures EdgesOf(t, srcs[..i + 1]) == EdgesOf(t, srcs[..i]) + RowEdges(srcs[i], Row(t, srcs[i]), SortedSeq(Row(t, srcs[i]).Keys))
  {
    assert srcs[..i + 1][..i] == srcs[..i];
  }

  lemma MultisetRemove(s: set<string>, k: string)
    requires k in s
    ensures multiset(s) == multiset(s - {k}) + multiset{k}
  {
  }

  /** The `for ... range` loop that appends the keys of a map to a fresh slice, in the map's order. */
  method CollectKeys<V>(m: map<string, V>) returns (a: array<string>)
    ensures fresh(a) && multiset(a[..]) == multiset(m.Keys)
  {
    a := new string[|m.Keys|];
    var rest := m.Keys;
    var n := 0;
    while rest != {}
      invariant n + |rest| == a.Length
      invariant multiset(a[..n]) + multiset(rest) == multiset(m.Keys)
      decreases rest
    {
      var k :| k in rest;
      MultisetRemove(rest, k);
      a[n] := k;
      assert a[..n + 1] == a[..n] + [k];
      rest := rest - {k};
      n := n + 1;
    }
    assert a[..] == a[..n];
  }

  /**
    `getSortedStateKeys` and `getSortedEventKeys`: the keys of a map, collected
    and then sorted in place, each key once.
  */
  method SortedKeys<V>(m: map<string, V>) returns (keys: seq<string>)
    ensures keys == SortedSeq(m.Keys)
  {
    var a := CollectKeys(m);
    SortInPlace(a);
    SortedIsSortedSeq(a[..], m.Keys);
    keys := a[..];
  }

  method WriteHeaderLine(buf: Buffer)
    modifies buf
    ensures buf.contents == old(buf.contents) + Header
  {
    buf.WriteString("digraph fsm {");
    buf.WriteString("\n");
  }

  /** The inner loop of `writeTransitions`: one edge line per event of `sortedEvents`. */
  method WriteRow(buf: Buffer, state: State, eventMap: map<Event, Record>, sortedEvents: seq<Event>)
    requires forall e :: e in sortedEvents ==> e in eventMap
    modifies buf
    ensures buf.contents == old(buf.contents) + EdgeText(RowEdges(state, eventMap, sortedEvents))
  {
    for j := 0 to |sortedEvents|
      invariant buf.contents == old(buf.contents) + EdgeText(RowEdges(state, eventMap, sortedEvents[..j]))
    {
      var event := sortedEvents[j];
      var stateActionTuple := eventMap[event];
      var edge := Edge(state, event, stateActionTuple.nextState);
      ghost var done := RowEdges(state, eventMap, sortedEvents[..j]);
      ghost var line := EdgeLine(edge);
      buf.WriteString(EdgeLine(edge));
      buf.WriteString("\n");
      RowEdgesSnoc(state, eventMap, sortedEvents, j);
      EdgeTextSnoc(done, edge);
      AppendAssoc(old(buf.contents), EdgeText(done), line);
      AppendAssoc(old(buf.contents), EdgeText(done) + line, "\n");
      AppendAssoc(EdgeText(done), line, "\n");
    }
    assert sortedEvents[..|sortedEvents|] == sortedEvents;
  }

  /** `writeTransitions`: the edge lines of every source in `sortedSrcStates`, then a blank line. */
  method WriteTransitions(buf: Buffer, t: Table, sortedSrcStates: seq<State>)
    modifies buf
    ensures buf.contents == old(buf.contents) + EdgeText(EdgesOf(t, sortedSrcStates)) + "\n"
  {
    for i := 0 to |sortedSrcStates|
      invariant buf.contents == old(buf.contents) + EdgeText(EdgesOf(t, sortedSrcStates[..i]))
    {
      var state := sortedSrcStates[i];
      var eventMap := Row(t, state);
      var sortedEvents := SortedKeys(eventMap);
      ghost var prefix := EdgesOf(t, sortedSrcStates[..i]);
      ghost var row := RowEdges(state, eventMap, sortedEvents);
      WriteRow(buf, state, eventMap, sortedEvents);
      EdgesOfSnoc(t, sortedSrcStates, i);
      EdgeTextAppend(prefix, row);
      AppendAssoc(old(buf.contents), EdgeText(prefix), EdgeText(row));
    }
    assert sortedSrcStates[..|sortedSrcStates|] == sortedSrcStates;
    buf.WriteString("\n");
  }

  method WriteStates(buf: Buffer, current: State, sortedStateKeys: seq<State>)
    modifies buf
    ensures buf.contents == old(buf.contents) + StatesText(sortedStateKeys, current)
  {
    for i := 0 to |sortedStateKeys|
      invariant buf.contents == old(buf.contents) + StatesText(sortedStateKeys[..i], current)
    {
      var k := sortedStateKeys[i];
      ghost var before := buf.contents;
      if k == current {
        buf.WriteString(RedLine(k));
      } else {
        buf.WriteString(PlainLine(k));
      }
      buf.WriteString("\n");
      StatesTextSnoc(sortedStateKeys, i, current);
      AppendAssoc(before, StateLine(k, current), "\n");
      AppendAssoc(old(buf.contents), StatesText(sortedStateKeys[..i], current), StateLine(k, current) + "\n");
    }
    assert sortedStateKeys[..|sortedStateKeys|] == sortedStateKeys;
  }

  method WriteFooter(buf: Buffer)
    modifies buf
    ensures buf.contents == old(buf.contents) + Footer
  {
    buf.WriteString("}\n");
  }

  /** Renders the machine as Graphviz text; changes nothing in the machine. */
  method Visualize(fsm: Machine) returns (out: string)
    ensures out == Dot(fsm.transitions, fsm.state, fsm.states)
  {
    var buf := new Buffer();
    var sortedSrcStates := SortedKeys(fsm.transitions);
    assert sortedSrcStates == SortedSeq(fsm.transitions.Keys);
    WriteHeaderLine(buf);
    assert buf.contents == Header;
    WriteTransitions(buf, fsm.transitions, sortedSrcStates);
    assert buf.contents == Header + EdgeText(Edges(fsm.transitions)) + "\n";
    var states := fsm.GetStates();
    assert states == fsm.states;
    WriteStates(buf, fsm.state, states);
    WriteFooter(buf);
    out := buf.contents;
    assert out == Header + EdgeText(Edges(fsm.transitions)) + "\n" + StatesText(fsm.states, fsm.state) + Footer;
  }
}
