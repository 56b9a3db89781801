/** src/DbExtensions/DbConnection/DbConnectionExtensions.cs: the public
    `EnsureOpen*` entry points and the private recursive
    `EnsureOpenWithRetry(connection, retryAttempts, attemptNumber)` (blocking)
    and `EnsureOpenWithRetryAsync(..., cancellationToken)` (awaitable).

    On every entry the connection state is read; an open connection ends the
    run. Otherwise `Open` is called; on failure a budget of 0 or less rethrows,
    and a positive budget pauses 2^min(attemptNumber, 8) s and calls itself
    again with `retryAttempts--, attemptNumber++`. Those postfix operators
    yield the old values, so the recursive call gets the same arguments.

    Entry k (0-based) sees state `stateAt(k)`, makes the k-th `Open` call with
    outcome `open(k)` and may take the k-th pause, during which the token is
    found cancelled when `cancelAt == Some(k)` (the blocking form passes None).
    `fuel` bounds the number of entries modelled. */
module ConnectionExtensions {
  import opened Backoff
  import opened Runs

  /** The private recursive method, as written. */
  function EnsureOpenRecursive<E>(stateAt: nat -> ConnectionState, open: nat -> Outcome<(), E>, cancelAt: Option<nat>,
                                  retryAttempts: int, attemptNumber: int, k: nat, fuel: nat): RecursiveRun<(), E>
    decreases fuel
  {
    if fuel == 0 then RecursiveRun(Unfinished, 0, [], [])
    else
      var call := Args(retryAttempts, attemptNumber);
      if stateAt(k) == Open then RecursiveRun(Returned(()), 0, [], [call])
      else match open(k)
        case Success(_) => RecursiveRun(Returned(()), 1, [], [call])
        case Failure(e) =>
          if retryAttempts <= 0 then RecursiveRun(Thrown(e), 1, [], [call])
          else
            var pause := DelayMs(attemptNumber);
            if cancelAt == Some(k) then RecursiveRun(Cancelled, 1, [pause], [call])
            else
              var rest := EnsureOpenRecursive(stateAt, open, cancelAt, PostDecrement(retryAttempts).value,
                                              PostIncrement(attemptNumber).value, k + 1, fuel - 1);
              RecursiveRun(rest.completion, 1 + rest.invocations, [pause] + rest.delays, [call] + rest.calls)
  }

  /** Every entry of a run receives the arguments of the first one, so every
      pause has the same length and the rethrow is reachable only when the
      first entry's budget is 0 or less; a run has at most one entry per unit
      of fuel, and at most one `Open` call and one pause per entry. */
  lemma {:induction false} ArgumentsNeverChange<E>(stateAt: nat -> ConnectionState, open: nat -> Outcome<(), E>,
                                                   cancelAt: Option<nat>, retryAttempts: int, attemptNumber: int,
                                                   k: nat, fuel: nat)
    ensures var r := EnsureOpenRecursive(stateAt, open, cancelAt, retryAttempts, attemptNumber, k, fuel);
      |r.delays| <= r.invocations <= |r.calls| <= fuel &&
      (r.completion.Thrown? ==> retryAttempts <= 0) &&
      (forall i :: 0 <= i < |r.calls| ==> r.calls[i] == Args(retryAttempts, attemptNumber)) &&
      (forall i :: 0 <= i < |r.delays| ==> r.delays[i] == DelayMs(attemptNumber))
    decreases fuel
  {
    if fuel > 0 && stateAt(k) != Open && open(k).Failure? && retryAttempts > 0 && cancelAt != Some(k) {
      ArgumentsNeverChange(stateAt, open, cancelAt, retryAttempts, attemptNumber, k + 1, fuel - 1);
    }
  }

  /** A budget of 0 or less never retries: at most one `Open` call, no pause,
      and the run returns or rethrows that call's exception. */
  lemma NoBudgetNoRetry<E>(stateAt: nat -> ConnectionState, open: nat -> Outcome<(), E>, cancelAt: Option<nat>,
                           retryAttempts: int, attemptNumber: int, k: nat, fuel: nat)
    requires retryAttempts <= 0 && fuel >= 1
    ensures var r := EnsureOpenRecursive(stateAt, open, cancelAt, retryAttempts, attemptNumber, k, fuel);
      r.delays == [] &&
      (stateAt(k) == Open ==> r.completion == Returned(()) && r.invocations == 0) &&
      (stateAt(k) != Open ==>
         r.invocations == 1 &&
         r.completion == match open(k) case Success(_) => Returned(()) case Failure(e) => Thrown(e))
  {
  }

  /** With a positive budget, a connection that never opens is retried for
      as long as the run is given fuel: every entry makes one failing call and
      one pause, and the rethrow is never reached. */
  lemma {:induction false} PositiveBudgetNeverGivesUp<E>(stateAt: nat -> ConnectionState, open: nat -> Outcome<(), E>,
                                                         retryAttempts: int, attemptNumber: int, k: nat, fuel: nat)
    requires retryAttempts > 0
    requires forall i :: k <= i ==> stateAt(i) != Open && open(i).Failure?
    ensures var r := EnsureOpenRecursive(stateAt, open, None, retryAttempts, attemptNumber, k, fuel);
      r.completion == Unfinished && r.invocations == fuel && |r.delays| == fuel
    decreases fuel
  {
    if fuel > 0 {
      PositiveBudgetNeverGivesUp(stateAt, open, retryAttempts, attemptNumber, k + 1, fuel - 1);
    }
  }

  /** Calls stop at the first success: with a positive budget, if entries
      k .. k+j-1 find the connection not open, their `Open` calls fail and
      their pauses are not cancelled, and entry k+j finds it not open and its
      `Open` call succeeds, the run returns there, after j + 1 calls and j
      pauses, whatever the token does later. */
  lemma {:induction false} ReturnsFirstSuccess<E>(stateAt: nat -> ConnectionState, open: nat -> Outcome<(), E>,
                                                  cancelAt: Option<nat>, retryAttempts: int, attemptNumber: int,
                                                  k: nat, j: nat, fuel: nat)
    requires retryAttempts > 0 && j < fuel
    requires forall i :: k <= i < k + j ==> stateAt(i) != Open && open(i).Failure? && cancelAt != Some(i)
    requires stateAt(k + j) != Open && open(k + j).Success?
    ensures var r := EnsureOpenRecursive(stateAt, open, cancelAt, retryAttempts, attemptNumber, k, fuel);
      r.completion == Returned(()) && r.invocations == j + 1 && |r.delays| == j
    decreases j
  {
    if j > 0 {
      ReturnsFirstSuccess(stateAt, open, cancelAt, retryAttempts, attemptNumber, k + 1, j - 1, fuel - 1);
    }
  }

  /** The state is read again on every entry: if the connection is found open
      on entry j after j failed calls whose pauses were not cancelled, the run
      returns there, after j calls and j pauses, whatever the token does
      later. */
  lemma {:induction false} StateRecheckedOnEveryEntry<E>(stateAt: nat -> ConnectionState, open: nat -> Outcome<(), E>,
                                                         cancelAt: Option<nat>, retryAttempts: int, attemptNumber: int,
                                                         k: nat, j: nat, fuel: nat)
    requires retryAttempts > 0 && j < fuel
    requires forall i :: k <= i < k + j ==> stateAt(i) != Open && open(i).Failure? && cancelAt != Some(i)
    requires stateAt(k + j) == Open
    ensures var r := EnsureOpenRecursive(stateAt, open, cancelAt, retryAttempts, attemptNumber, k, fuel);
      r.completion == Returned(()) && r.invocations == j && |r.delays| == j
    decreases j
  {
    if j > 0 {
      StateRecheckedOnEveryEntry(stateAt, open, cancelAt, retryAttempts, attemptNumber, k + 1, j - 1, fuel - 1);
    }
  }

  /** `EnsureOpen`: budget 0. An open connection is left alone; otherwise one
      `Open` call, and its exception, if any, is rethrown with no pause. */
  function EnsureOpen<E>(stateAt: nat -> ConnectionState, open: nat -> Outcome<(), E>, fuel: nat): (r: RecursiveRun<(), E>)
    requires fuel >= 1
    ensures r.delays == [] && r.invocations <= 1
    ensures r.completion.Returned? || r.completion.Thrown?
    ensures r.invocations == 0 <==> stateAt(0) == Open
    ensures r.completion.Thrown? ==> open(0) == Failure(r.completion.error)
    ensures stateAt(0) != Open ==>
      r.completion == match open(0) case Success(_) => Returned(()) case Failure(e) => Thrown(e)
  {
    NoBudgetNoRetry(stateAt, open, None, NoRetryAttempts, FirstAttempt, 0, fuel);
    EnsureOpenRecursive(stateAt, open, None, NoRetryAttempts, FirstAttempt, 0, fuel)
  }

  /** `EnsureOpenWithRetry()` (budget 1) and `EnsureOpenWithRetry(retryAttempts)`:
      every entry gets (retryAttempts, 1), so every pause is 2 s, and an
      exception is rethrown only when retryAttempts is 0 or less. */
  function EnsureOpenWithRetry<E>(stateAt: nat -> ConnectionState, open: nat -> Outcome<(), E>, fuel: nat,
                                  retryAttempts: int := DefaultRetryAttempts): (r: RecursiveRun<(), E>)
    ensures r.completion.Thrown? ==> retryAttempts <= 0
    ensures forall i :: 0 <= i < |r.calls| ==> r.calls[i] == Args(retryAttempts, FirstAttempt)
    ensures forall i :: 0 <= i < |r.delays| ==> r.delays[i] == 2000
    ensures |r.delays| <= r.invocations <= fuel
  {
    ArgumentsNeverChange(stateAt, open, None, retryAttempts, FirstAttempt, 0, fuel);
    EnsureOpenRecursive(stateAt, open, None, retryAttempts, FirstAttempt, 0, fuel)
  }

  /** The overload without a budget, on a connection that never opens, never
      rethrows: it makes one failing `Open` call and one 2 s pause per unit of
      fuel. */
  lemma DefaultOverloadNeverThrows<E>(stateAt: nat -> ConnectionState, open: nat -> Outcome<(), E>, fuel: nat)
    requires forall i :: 0 <= i ==> stateAt(i) != Open && open(i).Failure?
    ensures var r := EnsureOpenWithRetry(stateAt, open, fuel);
      r.completion == Unfinished && r.invocations == fuel && r.delays == seq(fuel, _ => 2000)
  {
    PositiveBudgetNeverGivesUp(stateAt, open, DefaultRetryAttempts, FirstAttempt, 0, fuel);
  }

  /** `EnsureOpenAsync`: `EnsureOpenWithRetryAsync(0)` with no token. An open
      connection is left alone; otherwise one `OpenAsync` call, and its
      exception, if any, is rethrown with no pause. */
  function EnsureOpenAsync<E>(stateAt: nat -> ConnectionState, open: nat -> Outcome<(), E>, fuel: nat): (r: RecursiveRun<(), E>)
    requires fuel >= 1
    ensures r.delays == [] && r.invocations <= 1
    ensures r.completion.Returned? || r.completion.Thrown?
    ensures r.invocations == 0 <==> stateAt(0) == Open
    ensures r.completion.Thrown? ==> open(0) == Failure(r.completion.error)
    ensures stateAt(0) != Open ==>
      r.completion == match open(0) case Success(_) => Returned(()) case Failure(e) => Thrown(e)
  {
    NoBudgetNoRetry(stateAt, open, None, NoRetryAttempts, FirstAttempt, 0, fuel);
    EnsureOpenWithRetryAsync(stateAt, open, fuel, NoRetryAttempts)
  }

  /** With a positive budget, entry j is the first to find the connection
      open or to open it, and no pause before it is cancelled. */
  predicate SucceedsBeforeCancel<E>(stateAt: nat -> ConnectionState, open: nat -> Outcome<(), E>,
                                    cancelAt: Option<nat>, retryAttempts: int, j: nat)
  {
    retryAttempts > 0 &&
    (forall i :: 0 <= i < j ==> stateAt(i) != Open && open(i).Failure? && cancelAt != Some(i)) &&
    (stateAt(j) == Open || open(j).Success?)
  }

  /** `EnsureOpenWithRetryAsync()`, `(cancellationToken)`, `(retryAttempts)` and
      `(retryAttempts, cancellationToken)`: budget 1 unless given, first
      attempt 1, the token if given. A run ends Cancelled exactly when it
      reaches the pause of entry `cancelAt`, which is then its last entry; a
      run that finds the connection open, or whose `OpenAsync` succeeds,
      before that pause returns. */
  function EnsureOpenWithRetryAsync<E>(stateAt: nat -> ConnectionState, open: nat -> Outcome<(), E>, fuel: nat,
                                       retryAttempts: int := DefaultRetryAttempts, cancelAt: Option<nat> := None)
    : (r: RecursiveRun<(), E>)
    ensures r.completion.Thrown? ==> retryAttempts <= 0
    ensures forall i :: 0 <= i < |r.calls| ==> r.calls[i] == Args(retryAttempts, FirstAttempt)
    ensures forall i :: 0 <= i < |r.delays| ==> r.delays[i] == 2000
    ensures r.completion == Cancelled ==> cancelAt == Some(|r.calls| - 1) && |r.delays| == |r.calls|
    ensures retryAttempts > 0 && cancelAt.Some? && cancelAt.value < fuel &&
            (forall i :: 0 <= i <= cancelAt.value ==> stateAt(i) != Open && open(i).Failure?) ==>
      r.completion == Cancelled && r.invocations == cancelAt.value + 1
    ensures forall j :: 0 <= j < fuel && SucceedsBeforeCancel(stateAt, open, cancelAt, retryAttempts, j) ==>
      r.completion == Returned(())
  {
    ArgumentsNeverChange(stateAt, open, cancelAt, retryAttempts, FirstAttempt, 0, fuel);
    CancelEndsAtItsPause(stateAt, open, cancelAt, retryAttempts, FirstAttempt, 0, fuel);
    var reachesPause := retryAttempts > 0 && cancelAt.Some? && cancelAt.value < fuel &&
                        (forall i :: 0 <= i <= cancelAt.value ==> stateAt(i) != Open && open(i).Failure?);
    assert reachesPause ==> EnsureOpenRecursive(stateAt, open, cancelAt, retryAttempts, FirstAttempt, 0, fuel)
                              .completion == Cancelled by {
      if reachesPause {
        CancelledAtItsPause(stateAt, open, retryAttempts, FirstAttempt, 0, cancelAt.value, fuel);
      }
    }
    assert forall j :: 0 <= j < fuel && SucceedsBeforeCancel(stateAt, open, cancelAt, retryAttempts, j) ==>
      EnsureOpenRecursive(stateAt, open, cancelAt, retryAttempts, FirstAttempt, 0, fuel).completion == Returned(()) by {
      forall j | 0 <= j < fuel && SucceedsBeforeCancel(stateAt, open, cancelAt, retryAttempts, j)
        ensures EnsureOpenRecursive(stateAt, open, cancelAt, retryAttempts, FirstAttempt, 0, fuel).completion
                == Returned(())
      {
        if stateAt(j) == Open {
          StateRecheckedOnEveryEntry(stateAt, open, cancelAt, retryAttempts, FirstAttempt, 0, j, fuel);
        } else {
          ReturnsFirstSuccess(stateAt, open, cancelAt, retryAttempts, FirstAttempt, 0, j, fuel);
        }
      }
    }
    EnsureOpenRecursive(stateAt, open, cancelAt, retryAttempts, FirstAttempt, 0, fuel)
  }

  /** A cancelled run ends at the pause of the entry whose index is cancelAt:
      that entry is the last one, and it took its pause. */
  lemma {:induction false} CancelEndsAtItsPause<E>(stateAt: nat -> ConnectionState, open: nat -> Outcome<(), E>,
                                                   cancelAt: Option<nat>, retryAttempts: int, attemptNumber: int,
                                                   k: nat, fuel: nat)
    ensures var r := EnsureOpenRecursive(stateAt, open, cancelAt, retryAttempts, attemptNumber, k, fuel);
      r.completion == Cancelled ==> cancelAt == Some(k + |r.calls| - 1) && |r.delays| == |r.calls|
    decreases fuel
  {
    if fuel > 0 && stateAt(k) != Open && open(k).Failure? && retryAttempts > 0 && cancelAt != Some(k) {
      CancelEndsAtItsPause(stateAt, open, cancelAt, retryAttempts, attemptNumber, k + 1, fuel - 1);
    }
  }

  /** The token is honoured: with a positive budget, a run whose entries
      k .. k+c find the connection not open and whose `Open` calls fail
      reaches the pause of entry k+c, and if the token is found cancelled
      there it ends Cancelled, after c + 1 calls and c + 1 pauses. */
  lemma {:induction false} CancelledAtItsPause<E>(stateAt: nat -> ConnectionState, open: nat -> Outcome<(), E>,
                                                  retryAttempts: int, attemptNumber: int, k: nat, c: nat, fuel: nat)
    requires retryAttempts > 0 && c < fuel
    requires forall i :: k <= i <= k + c ==> stateAt(i) != Open && open(i).Failure?
    ensures var r := EnsureOpenRecursive(stateAt, open, Some(k + c), retryAttempts, attemptNumber, k, fuel);
      r.completion == Cancelled && r.invocations == c + 1 && |r.delays| == c + 1
    decreases c
  {
    if c > 0 {
      CancelledAtItsPause(stateAt, open, retryAttempts, attemptNumber, k + 1, c - 1, fuel - 1);
    }
  }

  /** The method with the evidently intended `--retryAttempts, ++attemptNumber`:
      the budget shrinks on every retry, so no fuel is needed. */
  function EnsureOpenRecursiveFixed<E>(stateAt: nat -> ConnectionState, open: nat -> Outcome<(), E>, cancelAt: Option<nat>,
                                       retryAttempts: int, attemptNumber: int, k: nat): RecursiveRun<(), E>
    decreases if retryAttempts < 0 then 0 else retryAttempts
  {
    var call := Args(retryAttempts, attemptNumber);
    if stateAt(k) == Open then RecursiveRun(Returned(()), 0, [], [call])
    else match open(k)
      case Success(_) => RecursiveRun(Returned(()), 1, [], [call])
      case Failure(e) =>
        if retryAttempts <= 0 then RecursiveRun(Thrown(e), 1, [], [call])
        else
          var pause := DelayMs(attemptNumber);
          if cancelAt == Some(k) then RecursiveRun(Cancelled, 1, [pause], [call])
          else
            var rest := EnsureOpenRecursiveFixed(stateAt, open, cancelAt, retryAttempts - 1, attemptNumber + 1, k + 1);
            RecursiveRun(rest.completion, 1 + rest.invocations, [pause] + rest.delays, [call] + rest.calls)
  }

  /** The corrected recursion always ends: it makes at most retryAttempts + 1
      `Open` calls; entry i gets (retryAttempts - i, attemptNumber + i) and
      pause i lasts DelayMs(attemptNumber + i). A connection that never opens
      gets exactly max(retryAttempts, 0) + 1 calls, a pause between each two,
      and the last exception is rethrown. */
  lemma {:induction false} FixedGivesUp<E>(stateAt: nat -> ConnectionState, open: nat -> Outcome<(), E>,
                                           cancelAt: Option<nat>, retryAttempts: int, attemptNumber: int, k: nat)
    ensures var r := EnsureOpenRecursiveFixed(stateAt, open, cancelAt, retryAttempts, attemptNumber, k);
      var n := if retryAttempts < 0 then 0 else retryAttempts;
      !r.completion.Unfinished? &&
      r.invocations <= n + 1 && |r.delays| <= n &&
      (forall i :: 0 <= i < |r.calls| ==> r.calls[i] == Args(retryAttempts - i, attemptNumber + i)) &&
      (forall i :: 0 <= i < |r.delays| ==> r.delays[i] == DelayMs(attemptNumber + i)) &&
      ((cancelAt.None? && forall i :: k <= i <= k + n ==> stateAt(i) != Open && open(i).Failure?) ==>
        r.completion == Thrown(open(k + n).error) && r.invocations == n + 1 && |r.delays| == n)
    decreases if retryAttempts < 0 then 0 else retryAttempts
  {
    if stateAt(k) != Open && open(k).Failure? && retryAttempts > 0 && cancelAt != Some(k) {
      FixedGivesUp(stateAt, open, cancelAt, retryAttempts - 1, attemptNumber + 1, k + 1);
      var r := EnsureOpenRecursiveFixed(stateAt, open, cancelAt, retryAttempts, attemptNumber, k);
      var rest := EnsureOpenRecursiveFixed(stateAt, open, cancelAt, retryAttempts - 1, attemptNumber + 1, k + 1);
      assert r.calls == [Args(retryAttempts, attemptNumber)] + rest.calls;
      assert r.delays == [DelayMs(attemptNumber)] + rest.delays;
    }
  }
}
