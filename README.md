# fsm and retry, modelled in Dafny

This project models the Go kit's two small sequential components and proves the behaviour their code promises.

- **The finite-state machine** (`fsm/fsm.go`). A machine has a current state, a declared list of states and a two-level transition table keyed by source state and then event. `AddTransition` inserts or replaces the record for a key. `ExecEvent` looks up the record for the current state, commits its destination and then runs its actions in order. `Can`, `Current`, `AvailableTransitions` and `getStates` are read-only queries. The machine is the class `Fsm.Machine`. Actions are opaque identifiers. Each run of an action is appended to a ghost trace, together with the state the machine is in while it runs.
- **The Graphviz exporter** (`fsm/graphviz.go`). `Visualize` writes a DOT drawing of the machine into a byte buffer. The drawing is a header, then one edge line per record (sorted by source state, then by event), then a blank line, then one line per declared state with the current one in red, then a footer. The exporter is modelled as imperative methods over a `Buffer` class, and the key lists are sorted in place in an array. The ghost function `Graphviz.Dot` states the whole output as a function of the machine, and `Graphviz.Visualize` is proved to return exactly that text. Go's string order, which `slices.Sort` uses, is modelled in `StringOrder`.
- **The retry loop** (`retry/retry.go`, `Execute`). `Execute` calls `fn` up to `1 + retries` times and returns the first output whose error is nil. It waits between failed attempts and stops early when the context is done. The function is given as the outcome of each numbered call. The context is an oracle: it says whether the context is done on entry, and whether the context wins each backoff wait. `Retry.Retry` is the functional specification. `Retry.Execute` is the loop itself, proved equal to it. `Retry.Verdict` with `Retry.Stops` is an independent description, "the run ends at the first attempt that stops it", and a lemma connects it to `Retry.Retry`.

Where the code and the design notes disagree, the model follows the code:

- `AddTransition` does not check that the source or destination is a declared state.
- `AvailableTransitions` returns events in map order, not sorted.
- The state lines of the drawing follow the declared list of states, not a sorted list.
- There is no batch insertion of transitions.
- Success in `Execute` is judged only by a nil error, whatever the doc comment at `retry/retry.go:21` says about the output.

## Model

| member | source | states |
|---|---|---|
| Fsm.Insert | fsm/fsm.go:43-47 | after insertion the key maps to exactly the new record; every other (source, event) lookup is unchanged; the key set grows by exactly that key |
| Fsm.OverwriteNotMerge | fsm/fsm.go:47 | inserting a key twice equals inserting only the second record: records, actions included, are replaced, not merged |
| Fsm.InsertKeepsRowsNonEmpty | fsm/fsm.go:43-47 | inner maps are created lazily and so are never empty; insertion keeps that invariant |
| Fsm.InvocationsAppend | fsm/fsm.go:56-58 | running one list of actions and then another records the first list's invocations followed by the second's, which is how the action loop extends the trace one action at a time |
| Fsm.Machine.constructor | fsm/fsm.go:30-36 | current state is `initial`, the table is empty, the state list equals the input in order, no action has run |
| Fsm.Machine.AddTransition | fsm/fsm.go:38-48 | the table becomes `Insert(old table, source, trigger, (dest, actions))`; current state, state list and trace unchanged; no membership check on source or dest |
| Fsm.Machine.RunAction | fsm/fsm.go:57 | an action run appends itself to the trace with the state current at that moment; its boolean result is arbitrary |
| Fsm.Machine.ExecEvent | fsm/fsm.go:50-60 | succeeds iff `Can(event)` held before; with no record it reports the invalid-transition error and changes neither state nor trace; with a record the state becomes its destination and the trace grows by exactly its actions, in order, each observing the destination state; the table and state list never change |
| Fsm.Machine.AvailableTransitions | fsm/fsm.go:62-68 | returns an event iff the current state has a record for it, each at most once; the result is non-empty exactly when the current state has a row in the table, because `AddTransition` never leaves a row empty |
| Fsm.Machine.Can | fsm/fsm.go:70-73 | true iff the current state has a record for the event, which is the lookup `ExecEvent` succeeds on; reads only |
| Fsm.Machine.Current | fsm/fsm.go:75-77 | returns the current state; reads only |
| Fsm.Machine.GetStates | fsm/fsm.go:79-85 | returns the declared states in declared order |
| Fsm.OrderScenario | fsm/fsm_test.go:15-24 | the test machine: from RECEIVED with only VALIDATED registered, "VALIDATED" succeeds and "PROCESSED" fails |
| StringOrder.LessTransitive | fsm/graphviz.go:28 | Go's string order is transitive |
| StringOrder.LessTotal | fsm/graphviz.go:28 | Go's string order is total on distinct strings |
| StringOrder.LessIrreflexive | fsm/graphviz.go:28 | no string is below itself |
| StringOrder.Minimum | fsm/graphviz.go:28 | every non-empty set of strings has a least element, which is in the set |
| StringOrder.SortedTail | fsm/graphviz.go:28 | dropping the first element of a sorted list leaves it sorted |
| StringOrder.SortedSeq | fsm/graphviz.go:23-39 | the sorted key list of a set is strictly ascending, has each element exactly once and nothing else |
| StringOrder.SortedUnique | fsm/graphviz.go:28 | two sorted lists with the same elements are equal, so any correct sort yields the same key list |
| StringOrder.SortedIsSortedSeq | fsm/graphviz.go:24-29 | a sorted arrangement of the keys of a map is exactly `SortedSeq` of its key set |
| StringOrder.SortInPlace | fsm/graphviz.go:28 | `slices.Sort` leaves the array sorted and a permutation of its old contents |
| StringOrder.InsertLast | fsm/graphviz.go:28 | one insertion step extends the sorted prefix by one element and permutes the array |
| Graphviz.RowEdgesMembers | fsm/graphviz.go:44-52 | the edges of one source are exactly its (event, destination) records |
| Graphviz.EdgesOfMembers | fsm/graphviz.go:43-53 | an edge is drawn for the listed sources iff its source is listed and the table maps (source, event) to its destination |
| Graphviz.EdgesExact | fsm/graphviz.go:41-53 | an edge line appears iff the table holds that record, with DST the record's next state |
| Graphviz.EarlierSourcesSmaller | fsm/graphviz.go:43 | all edges drawn before a source's block come from smaller sources |
| Graphviz.EdgesOfOrdered | fsm/graphviz.go:43-47 | for strictly sorted sources, edge lines are strictly ascending by (source, event) |
| Graphviz.EdgesOrdered | fsm/graphviz.go:23-47 | the drawn edge lines are strictly ascending by source, then event, so each record appears exactly once |
| Graphviz.EmptyTableLayout | fsm/graphviz.go:55 | with no transitions the output is the header, one blank line, the state lines and the footer |
| Graphviz.DotFraming | fsm/graphviz.go:58-61 | the output starts with `digraph fsm {\n`, ends with `}\n`, and the character right after the edge lines is the newline of the separating blank line |
| Graphviz.UndeclaredCurrentUnmarked | fsm/graphviz.go:63-72 | if the current state is not declared, no state line is red |
| Graphviz.CollectKeys | fsm/graphviz.go:24-27 | the fresh slice holds every key of the map exactly once |
| Graphviz.SortedKeys | fsm/graphviz.go:23-39 | `getSortedStateKeys`/`getSortedEventKeys` return the map's keys ascending, each once |
| Graphviz.WriteHeaderLine | fsm/graphviz.go:58-61 | appends `digraph fsm {\n` |
| Graphviz.WriteRow | fsm/graphviz.go:47-52 | appends one edge line and newline per event, in the given order |
| Graphviz.WriteTransitions | fsm/graphviz.go:41-56 | appends the edge lines of the listed sources, each source's events sorted, then one blank line |
| Graphviz.WriteStates | fsm/graphviz.go:63-72 | appends one line per listed state in list order: red for an entry equal to the current state, plain otherwise |
| Graphviz.WriteFooter | fsm/graphviz.go:74-76 | appends `}\n` |
| Graphviz.Visualize | fsm/graphviz.go:10-21 | returns exactly `Dot(table, current, declared states)`: deterministic, and it modifies nothing in the machine |
| Retry.AttemptsStopAtFirst | retry/retry.go:44-57 | from any attempt on, the loop makes calls until the first attempt that succeeds, is the last, or has its wait cut short, and reports according to that attempt |
| Retry.RetryStopsAtFirst | retry/retry.go:41-61 | with a live context and non-negative retries, 1 to 1 + retries calls are made, the last call stops the run, no earlier one does, and the result is that attempt's verdict |
| Retry.DoneOnEntry | retry/retry.go:33-35 | a context done on entry returns its error with no call and no wait, before the negative-retries check |
| Retry.NegativeRetriesRejected | retry/retry.go:37-39 | negative retries return `ErrNegativeRetries` with no call |
| Retry.CallsBounded | retry/retry.go:41-56 | at most 1 + retries calls, at most retries waits, never more waits than calls |
| Retry.SuccessIsFirstNilError | retry/retry.go:45-48 | a success returns the output of the last call, whose error was nil, and every earlier call failed |
| Retry.NilErrorSucceeds | retry/retry.go:45-48 | a nil-error call reached before any wait is cut short makes the run succeed by that call |
| Retry.CancelledDuringWait | retry/retry.go:50-55 | a context firing during a wait follows a failed, non-last call; no further call is made |
| Retry.ExhaustedIff | retry/retry.go:49-60 | exhaustion happens iff the context stays live, all 1 + retries calls fail and no wait is cut short; the error then carries 1 + retries and the last call's error |
| Retry.Execute | retry/retry.go:30-61 | the loop returns exactly the result, call count and wait count of `Retry` |
| Retry.ThirdTryScenario | retry/retry_test.go:56-81 | a function that works on its third call succeeds with retries 2 and is exhausted after 2 attempts with retries 1 |
| Retry.AlwaysAndNeverScenario | retry/retry_test.go:37-72 | always-working succeeds after one call; never-working is exhausted after 2 calls; retries -1 is rejected |
| Retry.AlreadyTimedOutScenario | retry/retry_test.go:82-93 | an already expired context reports the deadline and calls nothing |
| Retry.TimeoutMidRetryScenario | retry/retry_test.go:94-105 | a deadline passing during the first wait stops the run after one call |

## Left out

- Action bodies: an `Action` is an opaque `func() bool`, modelled as an identifier whose run is recorded in a ghost trace. An action that re-enters the machine is not modelled.
- The actions slice passed to `AddTransition` is stored by reference in Go; the model stores a value, so later changes by the caller to that slice are not modelled.
- Go's map iteration order: `AvailableTransitions` and the key collection in `getSorted*Keys` pick keys in an arbitrary order, and only membership and uniqueness are stated.
- Fsm.Machine.AvailableTransitions: states no order, because Go's map iteration order is unspecified.
- Fsm.Machine.ExecEvent: assumes every action returns. In Go, an action that panics, or a nil `Action`, which `AddTransition` accepts, panics at `fsm/fsm.go:57`. By then `fsm/fsm.go:55` has already moved the machine to the destination, and the remaining actions never run. The model always records every action and reports success.
- Retry.Execute: assumes `fn` returns. A panic in `fn` at `retry/retry.go:45` propagates out of `Execute`, and the model has no such outcome.
- Formatting through `fmt.Fprintf`/`fmt.Fprintln` is written out as string concatenation; `%s` of a string is the string itself.
- Strings are Dafny strings of Unicode scalar values, not UTF-8 bytes. Go's byte order on valid UTF-8 agrees with code-point order. Invalid UTF-8 in state or event names is not modelled.
- The unused `Transition` struct (`fsm/fsm.go:23-28`) has no behaviour and is not modelled.
- Retry timing: `time.After`, real durations and the backoff value are not modelled. Neither is Go's random choice when both `select` cases are ready at `retry/retry.go:51-56`: the context oracle decides each wait.
- Retry.Execute: does not model 64-bit overflow of `1 + retries` at `retry/retry.go:41`; retries is an unbounded integer.
- Error strings built by `fmt.Errorf` are modelled as the `RetryError` datatype. `errors.Is` wrapping is represented by the `MaxAttemptsExceeded` constructor, which carries the attempt count and the last error.
- The output value `zeroT` on failure is not modelled; a failed run carries no output.
- `fsm/cmd/main.go`, `fsm/example/cmd/main.go` and `fsm/example/internal/domain/disputefsm/disputefsm.go` are not part of this model: they only build machines and print, and are written against other versions of the API.
- `retry/retry_test.go` calls `Linearly` and `Exponentially`, which `retry/retry.go` does not define. Its cases are modelled as scenarios against `Execute`.
- `fsm/fsm_test.go` uses a generic `Machine` and `ExecTrigger`, which `fsm/fsm.go` does not define. Its two cases are modelled against `ExecEvent`.
