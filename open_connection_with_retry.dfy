/** `EnsureOpenWithRetry` and `EnsureOpenWithRetryAsync` of
    src/DbExtensions/DbConnection/OpenConnectionWithRetry.cs: the connection
    state is read once, on entry; an open connection is left alone, otherwise
    the retry loop runs around `Open()`. `stateAt(i)` is the state the
    connection would report before the i-th (0-based) `Open` call and
    `open(i)` that call's outcome. Only `stateAt(0)` is ever read: unlike the
    recursive wrappers of DbConnectionExtensions.cs, the loop never checks
    the state again between retries. */
module OpenConnectionWithRetry {
  import opened Backoff
  import opened Runs
  import opened LoopRetry

  /** The blocking form; it has no default budget. */
  method EnsureOpenWithRetry<E>(stateAt: nat -> ConnectionState, open: nat -> Outcome<(), E>, retryAttempts: int)
    returns (run: Run<(), E>)
    ensures stateAt(0) == Open ==> run == Run(Returned(()), 0, [])
    ensures stateAt(0) != Open ==> run == Expected(open, retryAttempts, None)
  {
    if stateAt(0) == Open {
      return Run(Returned(()), 0, []);
    }
    run := Retry(open, retryAttempts, None);
  }

  /** The awaitable form, with a default budget of 1; `cancelAt` is the pause
      during which the token is found cancelled. */
  method EnsureOpenWithRetryAsync<E>(stateAt: nat -> ConnectionState, open: nat -> Outcome<(), E>,
                                     retryAttempts: int := DefaultRetryAttempts, cancelAt: Option<nat> := None)
    returns (run: Run<(), E>)
    ensures stateAt(0) == Open ==> run == Run(Returned(()), 0, [])
    ensures stateAt(0) != Open ==> run == Expected(open, retryAttempts, cancelAt)
  {
    if stateAt(0) == Open {
      return Run(Returned(()), 0, []);
    }
    run := Retry(open, retryAttempts, cancelAt);
  }

  /** The default awaitable call on a closed connection whose `Open` always
      fails: one call, one 2 s pause, then the exception is rethrown. */
  method DefaultAsyncCallOnFailingOpen<E>(stateAt: nat -> ConnectionState, open: nat -> Outcome<(), E>) returns (run: Run<(), E>)
    requires stateAt(0) != Open
    requires open(0).Failure?
    ensures run == Run(Thrown(open(0).error), 1, [2000])
  {
    run := EnsureOpenWithRetryAsync(stateAt, open);
    AlwaysFailing(open, DefaultRetryAttempts);
  }
}
