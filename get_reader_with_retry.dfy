/** `ExecuteReaderWithRetry` and `ExecuteReaderWithRetryAsync`
    (src/DbExtensions/DbCommand/GetReaderWithRetry.cs): the retry loop around
    `ExecuteReader(behavior)`. */
module GetReaderWithRetry {
  import opened Backoff
  import opened Runs
  import opened LoopRetry

  /** `System.Data.CommandBehavior`, passed through to every call. */
  datatype CommandBehavior = Default | SingleResult | SchemaOnly | KeyInfo | SingleRow | SequentialAccess | CloseConnection

  /** The wrapped call as the loop sees it: `exec(b, i)` is what the i-th
      (0-based) `ExecuteReader(b)` call yields; the loop always passes the
      caller's `behavior`. */
  function WithBehavior<R, E>(exec: (CommandBehavior, nat) -> Outcome<R, E>, behavior: CommandBehavior): nat -> Outcome<R, E>
  {
    (i: nat) => exec(behavior, i)
  }

  /** The blocking form: it returns or rethrows, never ends cancelled. */
  method ExecuteReaderWithRetry<R, E>(exec: (CommandBehavior, nat) -> Outcome<R, E>,
                                      retryAttempts: int := DefaultRetryAttempts,
                                      behavior: CommandBehavior := CommandBehavior.Default)
    returns (run: Run<R, E>)
    ensures run == Expected(WithBehavior(exec, behavior), retryAttempts, None)
    ensures run.completion.Returned? || run.completion.Thrown?
  {
    run := Retry(WithBehavior(exec, behavior), retryAttempts, None);
  }

  /** The awaitable form; `cancelAt` is the pause during which the token is
      found cancelled. */
  method ExecuteReaderWithRetryAsync<R, E>(exec: (CommandBehavior, nat) -> Outcome<R, E>,
                                           retryAttempts: int := DefaultRetryAttempts,
                                           behavior: CommandBehavior := CommandBehavior.Default,
                                           cancelAt: Option<nat> := None)
    returns (run: Run<R, E>)
    ensures run == Expected(WithBehavior(exec, behavior), retryAttempts, cancelAt)
    ensures run.completion == Cancelled ==>
      cancelAt == Some(run.invocations - 1) && |run.delays| == run.invocations
  {
    run := Retry(WithBehavior(exec, behavior), retryAttempts, cancelAt);
  }

  /** Every call the run makes is `ExecuteReader(behavior)` with the caller's
      unchanged `behavior`: the reader returned is the one that call produced,
      each earlier call with that behavior failed, and a rethrown exception is
      the one the last call with that behavior threw. */
  lemma SameBehaviorEveryCall<R, E>(exec: (CommandBehavior, nat) -> Outcome<R, E>, behavior: CommandBehavior,
                                    retryAttempts: int, cancelAt: Option<nat>)
    ensures var r := Expected(WithBehavior(exec, behavior), retryAttempts, cancelAt);
      (forall i :: 0 <= i < r.invocations ==> (exec(behavior, i).Failure? <==> i < |r.delays|)) &&
      (r.completion.Returned? ==> exec(behavior, r.invocations - 1) == Success(r.completion.value)) &&
      (r.completion.Thrown? ==> exec(behavior, r.invocations - 1) == Failure(r.completion.error))
  {
    var op := WithBehavior(exec, behavior);
    forall i: nat
      ensures op(i) == exec(behavior, i)
    {
    }
    PauseAfterEveryFailure(op, retryAttempts, cancelAt);
    ReturnsFirstSuccess(op, retryAttempts, cancelAt);
    RethrowsLastFailure(op, retryAttempts, cancelAt);
  }
}
