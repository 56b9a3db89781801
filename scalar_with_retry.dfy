/** `ExecuteScalarWithRetry` and `ExecuteScalarWithRetryAsync`
    (src/DbExtensions/DbCommand/ScalarWithRetry.cs). The two compilation
    targets of that file carry the same bodies and are modelled once.
    `scalar(i)` is what the i-th (0-based) `ExecuteScalar` call yields. */
module ScalarWithRetry {
  import opened Backoff
  import opened Runs
  import opened LoopRetry

  /** The blocking form: its `Task.Delay(...).Wait()` pauses cannot be
      cancelled, so the run returns or rethrows. */
  method ExecuteScalarWithRetry<V, E>(scalar: nat -> Outcome<V, E>, retryAttempts: int := DefaultRetryAttempts)
    returns (run: Run<V, E>)
    ensures run == Expected(scalar, retryAttempts, None)
    ensures run.completion.Returned? || run.completion.Thrown?
  {
    run := Retry(scalar, retryAttempts, None);
  }

  /** The awaitable form: the token reaches the wrapped call and every pause;
      `cancelAt` is the pause during which it is found cancelled. A cancelled
      run stops at that pause, after the call that preceded it. */
  method ExecuteScalarWithRetryAsync<V, E>(scalar: nat -> Outcome<V, E>, retryAttempts: int := DefaultRetryAttempts,
                                           cancelAt: Option<nat> := None)
    returns (run: Run<V, E>)
    ensures run == Expected(scalar, retryAttempts, cancelAt)
    ensures run.completion == Cancelled ==>
      cancelAt == Some(run.invocations - 1) && |run.delays| == run.invocations
  {
    run := Retry(scalar, retryAttempts, cancelAt);
  }

  /** A call that relies on the default budget, against a command that always
      fails: one call, one 2 s pause, then its exception is rethrown. */
  method DefaultCallOnFailingCommand<V, E>(scalar: nat -> Outcome<V, E>) returns (run: Run<V, E>)
    requires scalar(0).Failure?
    ensures run == Run(Thrown(scalar(0).error), 1, [2000])
  {
    run := ExecuteScalarWithRetry(scalar);
    AlwaysFailing(scalar, DefaultRetryAttempts);
  }
}
