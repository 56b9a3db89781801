/** `ExecuteNonQueryWithRetry` and `ExecuteNonQueryWithRetryAsync`
    (src/DbExtensions/DbCommand/NonQueryWithRetry.cs): the retry loop around
    `ExecuteNonQuery`, whose value is the number of rows affected.
    `rows(i)` is what the i-th (0-based) call yields. */
module NonQueryWithRetry {
  import opened Backoff
  import opened Runs
  import opened LoopRetry

  /** The blocking form: it returns or rethrows, never ends cancelled. */
  method ExecuteNonQueryWithRetry<E>(rows: nat -> Outcome<int, E>, retryAttempts: int := DefaultRetryAttempts)
    returns (run: Run<int, E>)
    ensures run == Expected(rows, retryAttempts, None)
    ensures run.completion.Returned? || run.completion.Thrown?
  {
    run := Retry(rows, retryAttempts, None);
  }

  /** The awaitable form; `cancelAt` is the pause during which the token is
      found cancelled. */
  method ExecuteNonQueryWithRetryAsync<E>(rows: nat -> Outcome<int, E>, retryAttempts: int := DefaultRetryAttempts,
                                          cancelAt: Option<nat> := None)
    returns (run: Run<int, E>)
    ensures run == Expected(rows, retryAttempts, cancelAt)
    ensures run.completion == Cancelled ==>
      cancelAt == Some(run.invocations - 1) && |run.delays| == run.invocations
  {
    run := Retry(rows, retryAttempts, cancelAt);
  }
}
