/**
  `Execute` of retry/retry.go: call `fn` up to `1 + retries` times, return the
  first successful output, wait between failed attempts and stop early when the
  context is done.

  The function `fn` is given as the outcome of each call, numbered from 0; the
  context is given as an oracle: whether it is already done on entry and, for
  each backoff wait (numbered by the failed attempt it follows), whether
  `ctx.Done()` fires before the backoff timer does.
*/
module Retry {
  import opened Wrappers

  /** What `ctx.Err()` reports once the context is done. */
  datatype CtxErr = Canceled | DeadlineExceeded

  datatype Context = Context(onEntry: Option<CtxErr>, duringWait: nat -> Option<CtxErr>)

  /** One call of `fn`: its output and its error (`None` is a nil error). */
  datatype Attempt<T, E> = Attempt(output: T, err: Option<E>)

  /**
    The errors `Execute` returns: `ctx.Err()`, `ErrNegativeRetries`, or an error
    wrapping `ErrMaxAttemptsExceeded` that carries the total number of attempts
    and the last error of `fn`.
  */
  datatype RetryError<E> = ContextDone(ctxErr: CtxErr) | NegativeRetries | MaxAttemptsExceeded(attempts: nat, last: E)

  datatype Result<T, E> = Success(value: T) | Failure(error: E)

  /** A run of `Execute`: its result, how often `fn` was called, how many backoff waits began. */
  datatype Run<T, E> = Run(result: Result<T, RetryError<E>>, calls: nat, waits: nat)

  /** The attempts from number `attempt` on, as the loop makes them. */
  function Attempts<T, E>(ctx: Context, fn: nat -> Attempt<T, E>, retries: nat, attempt: nat): Run<T, E>
    requires attempt <= retries
    decreases retries - attempt
  {
    var a := fn(attempt);
    if a.err.None? then Run(Success(a.output), attempt + 1, attempt)
    else if attempt < retries then
      match ctx.duringWait(attempt)
      case Some(c) => Run(Failure(ContextDone(c)), attempt + 1, attempt + 1)
      case None => Attempts(ctx, fn, retries, attempt + 1)
    else Run(Failure(MaxAttemptsExceeded(retries + 1, a.err.value)), attempt + 1, attempt)
  }

  /** What `Execute(ctx, fn, retries, backoff)` does. */
  function Retry<T, E>(ctx: Context, fn: nat -> Attempt<T, E>, retries: int): Run<T, E>
  {
    if ctx.onEntry.Some? then Run(Failure(ContextDone(ctx.onEntry.value)), 0, 0)
    else if retries < 0 then Run(Failure(NegativeRetries), 0, 0)
    else Attempts(ctx, fn, retries, 0)
  }

  // ---------------------------------------------------------------------------
  // A reference definition: the run ends at the first attempt that stops it.

  /** Attempt `i` ends the loop: it succeeds, it is the last one, or the wait after it is cut short. */
  predicate Stops<T, E>(ctx: Context, fn: nat -> Attempt<T, E>, retries: nat, i: nat)
  {
    fn(i).err.None? || i == retries || ctx.duringWait(i).Some?
  }

  /** The run whose last attempt is `k`, with `k` an attempt that stops it. */
  function Verdict<T, E>(ctx: Context, fn: nat -> Attempt<T, E>, retries: nat, k: nat): Run<T, E>
    requires k <= retries && Stops(ctx, fn, retries, k)
  {
    if fn(k).err.None? then Run(Success(fn(k).output), k + 1, k)
    else if k < retries then Run(Failure(ContextDone(ctx.duringWait(k).value)), k + 1, k + 1)
    else Run(Failure(MaxAttemptsExceeded(retries + 1, fn(k).err.value)), k + 1, k)
  }

  lemma {:induction false} AttemptsStopAtFirst<T, E>(ctx: Context, fn: nat -> Attempt<T, E>, retries: nat, attempt: nat)
    requires attempt <= retries
    ensures var r := Attempts(ctx, fn, retries, attempt);
            && attempt < r.calls <= retries + 1
            && Stops(ctx, fn, retries, r.calls - 1)
            && (forall i :: attempt <= i < r.calls - 1 ==> !Stops(ctx, fn, retries, i))
            && r == Verdict(ctx, fn, retries, r.calls - 1)
    decreases retries - attempt
  {
    var a := fn(attempt);
    if a.err.Some? && attempt < retries && ctx.duringWait(attempt).None? {
      AttemptsStopAtFirst(ctx, fn, retries, attempt + 1);
    }
  }

  /**
    With a live context and `retries >= 0`, `Execute` makes attempts until the
    first one that succeeds, is the last, or is followed by a cancelled wait,
    and reports according to that attempt.
  */
  lemma RetryStopsAtFirst<T, E>(ctx: Context, fn: nat -> Attempt<T, E>, retries: int)
    requires ctx.onEntry.None? && retries >= 0
    ensures var r := Retry(ctx, fn, retries);
            && 1 <= r.calls <= retries + 1
            && Stops(ctx, fn, retries, r.calls - 1)
            && (forall i :: 0 <= i < r.calls - 1 ==> !Stops(ctx, fn, retries, i))
            && r == Verdict(ctx, fn, retries, r.calls - 1)
  {
    AttemptsStopAtFirst(ctx, fn, retries, 0);
  }

  // ---------------------------------------------------------------------------
  // The promises of retry/retry.go

  /** A context already done on entry wins over everything, even negative retries. */
  lemma DoneOnEntry<T, E>(ctx: Context, fn: nat -> Attempt<T, E>, retries: int)
    requires ctx.onEntry.Some?
    ensures Retry(ctx, fn, retries) == Run(Failure(ContextDone(ctx.onEntry.value)), 0, 0)
  {
  }

  lemma NegativeRetriesRejected<T, E>(ctx: Context, fn: nat -> Attempt<T, E>, retries: int)
    requires ctx.onEntry.None? && retries < 0
    ensures Retry(ctx, fn, retries) == Run(Failure(NegativeRetries), 0, 0)
  {
  }

  /** At most `1 + retries` calls and at most `retries` waits, never a wait without a failed call. */
  lemma CallsBounded<T, E>(ctx: Context, fn: nat -> Attempt<T, E>, retries: int)
    ensures Retry(ctx, fn, retries).calls <= if retries < 0 then 0 else retries + 1
    ensures Retry(ctx, fn, retries).waits <= if retries < 0 then 0 else retries
    ensures Retry(ctx, fn, retries).waits <= Retry(ctx, fn, retries).calls
  {
    if ctx.onEntry.None? && retries >= 0 {
      RetryStopsAtFirst(ctx, fn, retries);
    }
  }

  /**
    A success is the output of the last call made, whose error was nil, and
    every earlier call failed.
  */
  lemma SuccessIsFirstNilError<T, E>(ctx: Context, fn: nat -> Attempt<T, E>, retries: int)
    requires Retry(ctx, fn, retries).result.Success?
    ensures var r := Retry(ctx, fn, retries);
            && r.calls >= 1
            && fn(r.calls - 1).err.None? && r.result.value == fn(r.calls - 1).output
            && forall i :: 0 <= i < r.calls - 1 ==> fn(i).err.Some?
  {
    RetryStopsAtFirst(ctx, fn, retries);
    var r := Retry(ctx, fn, retries);
    forall i | 0 <= i < r.calls - 1
      ensures fn(i).err.Some?
    {
      assert !Stops(ctx, fn, retries, i);
    }
  }

  /** A call with a nil error before any wait is cut short ends the run in success. */
  lemma NilErrorSucceeds<T, E>(ctx: Context, fn: nat -> Attempt<T, E>, retries: int, i: nat)
    requires ctx.onEntry.None? && i <= retries
    requires fn(i).err.None?
    requires forall j :: 0 <= j < i ==> ctx.duringWait(j).None?
    ensures Retry(ctx, fn, retries).result.Success?
    ensures Retry(ctx, fn, retries).calls <= i + 1
  {
    RetryStopsAtFirst(ctx, fn, retries);
    assert Stops(ctx, fn, retries, i);
    var k := Retry(ctx, fn, retries).calls - 1;
    assert k <= i;
    assert fn(k).err.None?;
  }

  /**
    When the context fires during a wait, that wait followed a failed call that
    was not the last one, and no further call is made.
  */
  lemma CancelledDuringWait<T, E>(ctx: Context, fn: nat -> Attempt<T, E>, retries: int)
    requires ctx.onEntry.None?
    requires Retry(ctx, fn, retries).result.Failure? && Retry(ctx, fn, retries).result.error.ContextDone?
    ensures var r := Retry(ctx, fn, retries);
            && 1 <= r.calls <= retries
            && fn(r.calls - 1).err.Some?
            && ctx.duringWait(r.calls - 1) == Some(r.result.error.ctxErr)
            && r.waits == r.calls
  {
    RetryStopsAtFirst(ctx, fn, retries);
  }

  /**
    The run is exhausted exactly when the context stays live, every one of the
    `1 + retries` calls fails and no wait is cut short; the error then reports
    `1 + retries` attempts and the error of the last call.
  */
  lemma ExhaustedIff<T, E>(ctx: Context, fn: nat -> Attempt<T, E>, retries: int)
    ensures Retry(ctx, fn, retries).result.Failure? && Retry(ctx, fn, retries).result.error.MaxAttemptsExceeded?
        <==> ctx.onEntry.None? && retries >= 0
             && (forall i :: 0 <= i <= retries ==> fn(i).err.Some?)
             && (forall k :: 0 <= k < retries ==> ctx.duringWait(k).None?)
    ensures Retry(ctx, fn, retries).result.Failure? && Retry(ctx, fn, retries).result.error.MaxAttemptsExceeded? ==>
              Retry(ctx, fn, retries) == Run(Failure(MaxAttemptsExceeded(retries + 1, fn(retries).err.value)), retries + 1, retries)
  {
    if ctx.onEntry.None? && retries >= 0 {
      RetryStopsAtFirst(ctx, fn, retries);
      var r := Retry(ctx, fn, retries);
      var k := r.calls - 1;
      if (forall i :: 0 <= i <= retries ==> fn(i).err.Some?) && (forall j :: 0 <= j < retries ==> ctx.duringWait(j).None?) {
        assert fn(k).err.Some?;
        assert k == retries;
      }
      if r.result.Failure? && r.result.error.MaxAttemptsExceeded? {
        forall i | 0 <= i < k
          ensures fn(i).err.Some? && ctx.duringWait(i).None?
        {
          assert !Stops(ctx, fn, retries, i);
        }
      }
    }
  }

  // ---------------------------------------------------------------------------
  // The imperative loop

  /**
    `Execute`. The backoff duration is not modelled; `calls` and `waits` count
    the calls of `fn` and the backoff waits that began.
  */
  method Execute<T, E>(ctx: Context, fn: nat -> Attempt<T, E>, retries: int)
    returns (result: Result<T, RetryError<E>>, calls: nat, waits: nat)
    ensures Run(result, calls, waits) == Retry(ctx, fn, retries)
  {
    calls, waits := 0, 0;
    if ctx.onEntry.Some? {
      return Failure(ContextDone(ctx.onEntry.value)), calls, waits;
    }
    if retries < 0 {
      return Failure(NegativeRetries), calls, waits;
    }
    var maxAttempts := 1 + retries;
    var lastErr: Option<E> := None;
    for attempt := 0 to maxAttempts
      invariant calls == attempt
      invariant waits == if attempt <= retries then attempt else retries
      invariant attempt <= retries ==> Retry(ctx, fn, retries) == Attempts(ctx, fn, retries, attempt)
      invariant attempt == maxAttempts ==>
        (lastErr.Some? && Retry(ctx, fn, retries) == Run(Failure(MaxAttemptsExceeded(maxAttempts, lastErr.value)), calls, waits))
    {
      var a := fn(attempt);
      calls := calls + 1;
      if a.err.None? {
        return Success(a.output), calls, waits;
      }
      lastErr := a.err;
      if attempt < retries {
        waits := waits + 1;
        var done := ctx.duringWait(attempt);
        if done.Some? {
          return Failure(ContextDone(done.value)), calls, waits;
        }
      }
    }
    return Failure(MaxAttemptsExceeded(maxAttempts, lastErr.value)), calls, waits;
  }

  // ---------------------------------------------------------------------------
  // The scenarios of retry/retry_test.go

  /** A function that fails on its first two calls and then works. */
  function WorksOnThirdTry(i: nat): Attempt<string, string>
  {
    if i < 2 then Attempt("", Some("simulated initial failure")) else Attempt("worked on third try", None)
  }

  function AlwaysWorks(i: nat): Attempt<bool, string>
  {
    Attempt(true, None)
  }

  function NeverWorks(i: nat): Attempt<bool, string>
  {
    Attempt(false, Some("error"))
  }

  function Background(): Context
  {
    Context(None, _ => None)
  }

  lemma ThirdTryScenario()
    ensures Retry(Background(), WorksOnThirdTry, 2) == Run(Success("worked on third try"), 3, 2)
    ensures Retry(Background(), WorksOnThirdTry, 1)
         == Run(Failure(MaxAttemptsExceeded(2, "simulated initial failure")), 2, 1)
  {
  }

  lemma AlwaysAndNeverScenario()
    ensures Retry(Background(), AlwaysWorks, 1) == Run(Success(true), 1, 0)
    ensures Retry(Background(), NeverWorks, 1) == Run(Failure(MaxAttemptsExceeded(2, "error")), 2, 1)
    ensures Retry(Background(), AlwaysWorks, -1) == Run(Failure(NegativeRetries), 0, 0)
  {
  }

  /** A context whose deadline has already passed: `fn` is never called. */
  lemma AlreadyTimedOutScenario()
    ensures Retry(Context(Some(DeadlineExceeded), _ => None), AlwaysWorks, 2)
         == Run(Failure(ContextDone(DeadlineExceeded)), 0, 0)
  {
  }

  /** A deadline that passes during the first backoff wait stops the run after one call. */
  lemma TimeoutMidRetryScenario()
    ensures Retry(Context(None, k => if k == 0 then Some(DeadlineExceeded) else None), WorksOnThirdTry, 2)
         == Run(Failure(ContextDone(DeadlineExceeded)), 1, 1)
  {
  }
}
