/** DbExtensions/DbCommandExtensions.cs, the older copy of the recursive
    reader wrapper: `ExecuteReaderWithRetryAsync(retryAttempts)` and the
    private `ExecuteReaderWithRetryAsync(dbCommand, retryAttempts,
    attemptNumber)`.

    It differs from the newer copy in two ways: its pause is
    `(int)Math.Pow(2, attemptNumber) * 1000` with no cap on the exponent, and
    it has no overload without a budget. As there, `retryAttempts--,
    attemptNumber++` pass the old values to the recursive call. Entry k
    (0-based) makes the k-th call, with outcome `exec(k)`; `fuel` bounds the
    number of entries modelled. */
module LegacyCommandExtensions {
  import opened Backoff
  import opened Runs

  /** The private recursive method, as written. */
  function ExecuteReaderRecursive<R, E>(exec: nat -> Outcome<R, E>, retryAttempts: int, attemptNumber: int,
                                        k: nat, fuel: nat): RecursiveRun<R, E>
    decreases fuel
  {
    if fuel == 0 then RecursiveRun(Unfinished, 0, [], [])
    else
      var call := Args(retryAttempts, attemptNumber);
      match exec(k)
      case Success(reader) => RecursiveRun(Returned(reader), 1, [], [call])
      case Failure(e) =>
        if retryAttempts <= 0 then RecursiveRun(Thrown(e), 1, [], [call])
        else
          var rest := ExecuteReaderRecursive(exec, PostDecrement(retryAttempts).value,
                                             PostIncrement(attemptNumber).value, k + 1, fuel - 1);
          RecursiveRun(rest.completion, 1 + rest.invocations, [UncappedDelayMs(attemptNumber)] + rest.delays,
                       [call] + rest.calls)
  }

  /** Every entry receives the arguments of the first one, so every pause has
      the same (uncapped) length and a rethrow needs a first budget of 0 or
      less; each entry makes one call, and every entry but the last one
      pause. Every call but the last failed, and the run returns the last
      call's reader or rethrows its exception. */
  lemma {:induction false} ArgumentsNeverChange<R, E>(exec: nat -> Outcome<R, E>, retryAttempts: int,
                                                      attemptNumber: int, k: nat, fuel: nat)
    ensures var r := ExecuteReaderRecursive(exec, retryAttempts, attemptNumber, k, fuel);
      r.invocations == |r.calls| <= fuel &&
      (r.completion.Unfinished? ==> |r.delays| == r.invocations) &&
      (!r.completion.Unfinished? ==> 1 <= r.invocations && |r.delays| == r.invocations - 1) &&
      (r.completion.Returned? ==> exec(k + r.invocations - 1) == Success(r.completion.value)) &&
      (r.completion.Thrown? ==> exec(k + r.invocations - 1) == Failure(r.completion.error)) &&
      (forall i :: k <= i < k + r.invocations - 1 ==> exec(i).Failure?) &&
      (r.completion.Thrown? ==> retryAttempts <= 0) &&
      (forall i :: 0 <= i < |r.calls| ==> r.calls[i] == Args(retryAttempts, attemptNumber)) &&
      (forall i :: 0 <= i < |r.delays| ==> r.delays[i] == UncappedDelayMs(attemptNumber))
    decreases fuel
  {
    if fuel > 0 && exec(k).Failure? && retryAttempts > 0 {
      ArgumentsNeverChange(exec, retryAttempts, attemptNumber, k + 1, fuel - 1);
    }
  }

  /** Calls stop at the first success: if the calls of entries k .. k+j-1
      fail and that of entry k+j succeeds, its reader is returned after j + 1
      calls and j pauses (with a positive budget, since a budget of 0 or less
      rethrows the first failure). */
  lemma {:induction false} ReturnsFirstSuccess<R, E>(exec: nat -> Outcome<R, E>, retryAttempts: int,
                                                     attemptNumber: int, k: nat, j: nat, fuel: nat)
    requires j < fuel
    requires j > 0 ==> retryAttempts > 0
    requires forall i :: k <= i < k + j ==> exec(i).Failure?
    requires exec(k + j).Success?
    ensures var r := ExecuteReaderRecursive(exec, retryAttempts, attemptNumber, k, fuel);
      r.completion == Returned(exec(k + j).value) && r.invocations == j + 1 && |r.delays| == j
    decreases j
  {
    if j > 0 {
      ReturnsFirstSuccess(exec, retryAttempts, attemptNumber, k + 1, j - 1, fuel - 1);
    }
  }

  /** A budget of 0 or less never retries: one call, no pause, and its reader
      is returned or its exception rethrown. */
  lemma NoBudgetNoRetry<R, E>(exec: nat -> Outcome<R, E>, retryAttempts: int, attemptNumber: int, k: nat, fuel: nat)
    requires retryAttempts <= 0 && fuel >= 1
    ensures var r := ExecuteReaderRecursive(exec, retryAttempts, attemptNumber, k, fuel);
      r.invocations == 1 && r.delays == [] &&
      r.completion == match exec(k) case Success(v) => Returned(v) case Failure(e) => Thrown(e)
  {
  }

  /** With a positive budget, a command that always fails is retried for as
      long as the run is given fuel, with the same arguments every time. */
  lemma {:induction false} PositiveBudgetNeverGivesUp<R, E>(exec: nat -> Outcome<R, E>, retryAttempts: int,
                                                            attemptNumber: int, k: nat, fuel: nat)
    requires retryAttempts > 0
    requires forall i :: k <= i ==> exec(i).Failure?
    ensures var r := ExecuteReaderRecursive(exec, retryAttempts, attemptNumber, k, fuel);
      r.completion == Unfinished && r.invocations == fuel && |r.delays| == fuel &&
      |r.calls| == fuel && forall i :: 0 <= i < fuel ==> r.calls[i] == Args(retryAttempts, attemptNumber)
    decreases fuel
  {
    if fuel > 0 {
      PositiveBudgetNeverGivesUp(exec, retryAttempts, attemptNumber, k + 1, fuel - 1);
    }
  }

  /** `ExecuteReaderWithRetryAsync(retryAttempts)`: it starts at attempt
      number 1, which never changes, so the uncapped formula only ever yields
      2 s pauses, and an exception is rethrown only when retryAttempts is 0 or
      less. A returned reader is the one of the last call, and all calls
      before it failed. */
  function ExecuteReaderWithRetryAsync<R, E>(exec: nat -> Outcome<R, E>, retryAttempts: int, fuel: nat)
    : (r: RecursiveRun<R, E>)
    ensures r.completion.Thrown? ==> retryAttempts <= 0
    ensures forall i :: 0 <= i < |r.calls| ==> r.calls[i] == Args(retryAttempts, 1)
    ensures forall i :: 0 <= i < |r.delays| ==> r.delays[i] == 2000
    ensures r.invocations == |r.calls| <= fuel
    ensures r.completion.Returned? ==>
      1 <= r.invocations && exec(r.invocations - 1) == Success(r.completion.value) &&
      forall i :: 0 <= i < r.invocations - 1 ==> exec(i).Failure?
  {
    ArgumentsNeverChange(exec, retryAttempts, 1, 0, fuel);
    ExecuteReaderRecursive(exec, retryAttempts, 1, 0, fuel)
  }

  /** The method with the evidently intended `--retryAttempts, ++attemptNumber`. */
  function ExecuteReaderRecursiveFixed<R, E>(exec: nat -> Outcome<R, E>, retryAttempts: int, attemptNumber: int,
                                             k: nat): RecursiveRun<R, E>
    decreases if retryAttempts < 0 then 0 else retryAttempts
  {
    var call := Args(retryAttempts, attemptNumber);
    match exec(k)
    case Success(reader) => RecursiveRun(Returned(reader), 1, [], [call])
    case Failure(e) =>
      if retryAttempts <= 0 then RecursiveRun(Thrown(e), 1, [], [call])
      else
        var rest := ExecuteReaderRecursiveFixed(exec, retryAttempts - 1, attemptNumber + 1, k + 1);
        RecursiveRun(rest.completion, 1 + rest.invocations, [UncappedDelayMs(attemptNumber)] + rest.delays,
                     [call] + rest.calls)
  }

  /** The corrected recursion always ends, after at most retryAttempts + 1
      calls; entry i gets (retryAttempts - i, attemptNumber + i), so the
      uncapped pause doubles from one retry to the next. A command that always
      fails gets exactly max(retryAttempts, 0) + 1 calls and its last
      exception is rethrown. */
  lemma {:induction false} FixedGivesUp<R, E>(exec: nat -> Outcome<R, E>, retryAttempts: int, attemptNumber: int, k: nat)
    requires attemptNumber >= 0
    ensures var r := ExecuteReaderRecursiveFixed(exec, retryAttempts, attemptNumber, k);
      var n := if retryAttempts < 0 then 0 else retryAttempts;
      !r.completion.Unfinished? &&
      r.invocations <= n + 1 && |r.delays| <= n &&
      (forall i :: 0 <= i < |r.calls| ==> r.calls[i] == Args(retryAttempts - i, attemptNumber + i)) &&
      (forall i :: 0 <= i < |r.delays| ==> r.delays[i] == UncappedDelayMs(attemptNumber + i)) &&
      (forall i :: 0 < i < |r.delays| ==> r.delays[i] == 2 * r.delays[i - 1]) &&
      ((forall i :: k <= i <= k + n ==> exec(i).Failure?) ==>
        r.completion == Thrown(exec(k + n).error) && r.invocations == n + 1 && |r.delays| == n)
    decreases if retryAttempts < 0 then 0 else retryAttempts
  {
    if exec(k).Failure? && retryAttempts > 0 {
      FixedGivesUp(exec, retryAttempts - 1, attemptNumber + 1, k + 1);
      var r := ExecuteReaderRecursiveFixed(exec, retryAttempts, attemptNumber, k);
      var rest := ExecuteReaderRecursiveFixed(exec, retryAttempts - 1, attemptNumber + 1, k + 1);
      assert r.calls == [Args(retryAttempts, attemptNumber)] + rest.calls;
      assert r.delays == [UncappedDelayMs(attemptNumber)] + rest.delays;
      UncappedDelayDoubles(attemptNumber);
    }
  }
}
