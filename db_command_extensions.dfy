/** src/DbExtensions/DbCommandExtensions.cs: `ExecuteReaderWithRetryAsync()`
    (budget 1), `ExecuteReaderWithRetryAsync(retryAttempts)` and the private
    recursive `ExecuteReaderWithRetryAsync(dbCommand, retryAttempts,
    attemptNumber)`.

    Every entry calls `ExecuteReaderAsync()`; on failure a budget of 0 or less
    rethrows, and a positive budget pauses 2^min(attemptNumber, 8) s and calls
    itself with `retryAttempts--, attemptNumber++`, which pass the old values.
    No cancellation token is involved. Entry k (0-based) makes the k-th call,
    with outcome `exec(k)`; `fuel` bounds the number of entries modelled. */
module CommandExtensions {
  import opened Backoff
  import opened Runs
  import LoopRetry

  /** The private recursive method, as written. */
  function ExecuteReaderRecursive<R, E>(exec: nat -> Outcome<R, E>, retryAttempts: int, attemptNumber: int,
                                        k: nat, fuel: nat): RecursiveRun<R, E>
    decreases fuel
  {
    if fuel == 0 then RecursiveRun(Unfinished, 0, [], [])
    else
      var call := Args(retryAttempts, attemptNumber);
      match exec(k)
      case Success(reader) => RecursiveRun(Returned(reader), 1, [], [call])
      case Failure(e) =>
        if retryAttempts <= 0 then RecursiveRun(Thrown(e), 1, [], [call])
        else
          var rest := ExecuteReaderRecursive(exec, PostDecrement(retryAttempts).value,
                                             PostIncrement(attemptNumber).value, k + 1, fuel - 1);
          RecursiveRun(rest.completion, 1 + rest.invocations, [DelayMs(attemptNumber)] + rest.delays, [call] + rest.calls)
  }

  /** Every entry receives the arguments of the first one, so every pause has
      the same length and a rethrow needs a first budget of 0 or less; each
      entry makes one call, and every entry but the last one pause. Every
      call but the last failed, and the run returns the last call's reader or
      rethrows its exception. */
  lemma {:induction false} ArgumentsNeverChange<R, E>(exec: nat -> Outcome<R, E>, retryAttempts: int,
                                                      attemptNumber: int, k: nat, fuel: nat)
    ensures var r := ExecuteReaderRecursive(exec, retryAttempts, attemptNumber, k, fuel);
      r.invocations == |r.calls| <= fuel &&
      (r.completion.Unfinished? ==> |r.delays| == r.invocations) &&
      (!r.completion.Unfinished? ==> 1 <= r.invocations && |r.delays| == r.invocations - 1) &&
      (r.completion.Returned? ==> exec(k + r.invocations - 1) == Success(r.completion.value)) &&
      (r.completion.Thrown? ==> exec(k + r.invocations - 1) == Failure(r.completion.error)) &&
      (forall i :: k <= i < k + r.invocations - 1 ==> exec(i).Failure?) &&
      (r.completion.Thrown? ==> retryAttempts <= 0) &&
      (forall i :: 0 <= i < |r.calls| ==> r.calls[i] == Args(retryAttempts, attemptNumber)) &&
      (forall i :: 0 <= i < |r.delays| ==> r.delays[i] == DelayMs(attemptNumber))
    decreases fuel
  {
    if fuel > 0 && exec(k).Failure? && retryAttempts > 0 {
      ArgumentsNeverChange(exec, retryAttempts, attemptNumber, k + 1, fuel - 1);
    }
  }

  /** Calls stop at the first success: if the calls of entries k .. k+j-1
      fail and that of entry k+j succeeds, its reader is returned after j + 1
      calls and j pauses (with a positive budget, since a budget of 0 or less
      rethrows the first failure). */
  lemma {:induction false} ReturnsFirstSuccess<R, E>(exec: nat -> Outcome<R, E>, retryAttempts: int,
                                                     attemptNumber: int, k: nat, j: nat, fuel: nat)
    requires j < fuel
    requires j > 0 ==> retryAttempts > 0
    requires forall i :: k <= i < k + j ==> exec(i).Failure?
    requires exec(k + j).Success?
    ensures var r := ExecuteReaderRecursive(exec, retryAttempts, attemptNumber, k, fuel);
      r.completion == Returned(exec(k + j).value) && r.invocations == j + 1 && |r.delays| == j
    decreases j
  {
    if j > 0 {
      ReturnsFirstSuccess(exec, retryAttempts, attemptNumber, k + 1, j - 1, fuel - 1);
    }
  }

  /** A budget of 0 or less never retries: one call, no pause, and its reader
      is returned or its exception rethrown. */
  lemma NoBudgetNoRetry<R, E>(exec: nat -> Outcome<R, E>, retryAttempts: int, attemptNumber: int, k: nat, fuel: nat)
    requires retryAttempts <= 0 && fuel >= 1
    ensures var r := ExecuteReaderRecursive(exec, retryAttempts, attemptNumber, k, fuel);
      r.invocations == 1 && r.delays == [] &&
      r.completion == match exec(k) case Success(v) => Returned(v) case Failure(e) => Thrown(e)
  {
  }

  /** With a positive budget, a command that always fails is retried for as
      long as the run is given fuel; the rethrow is never reached. */
  lemma {:induction false} PositiveBudgetNeverGivesUp<R, E>(exec: nat -> Outcome<R, E>, retryAttempts: int,
                                                            attemptNumber: int, k: nat, fuel: nat)
    requires retryAttempts > 0
    requires forall i :: k <= i ==> exec(i).Failure?
    ensures var r := ExecuteReaderRecursive(exec, retryAttempts, attemptNumber, k, fuel);
      r.completion == Unfinished && r.invocations == fuel && |r.delays| == fuel
    decreases fuel
  {
    if fuel > 0 {
      PositiveBudgetNeverGivesUp(exec, retryAttempts, attemptNumber, k + 1, fuel - 1);
    }
  }

  /** `ExecuteReaderWithRetryAsync()` (budget 1) and
      `ExecuteReaderWithRetryAsync(retryAttempts)`: the first entry gets
      (retryAttempts, 1), and so does every later one, so every pause is 2 s
      and an exception is rethrown only when retryAttempts is 0 or less. A
      returned reader is the one of the last call, and all calls before it
      failed. */
  function ExecuteReaderWithRetryAsync<R, E>(exec: nat -> Outcome<R, E>, fuel: nat,
                                             retryAttempts: int := DefaultRetryAttempts): (r: RecursiveRun<R, E>)
    ensures r.completion.Thrown? ==> retryAttempts <= 0
    ensures forall i :: 0 <= i < |r.calls| ==> r.calls[i] == Args(retryAttempts, FirstAttempt)
    ensures forall i :: 0 <= i < |r.delays| ==> r.delays[i] == 2000
    ensures r.invocations == |r.calls| <= fuel
    ensures r.completion.Returned? ==>
      1 <= r.invocations && exec(r.invocations - 1) == Success(r.completion.value) &&
      forall i :: 0 <= i < r.invocations - 1 ==> exec(i).Failure?
  {
    ArgumentsNeverChange(exec, retryAttempts, FirstAttempt, 0, fuel);
    ExecuteReaderRecursive(exec, retryAttempts, FirstAttempt, 0, fuel)
  }

  /** The overload without a budget, on a command that always fails, never
      rethrows: it makes one call and one 2 s pause per unit of fuel. */
  lemma DefaultOverloadNeverThrows<R, E>(exec: nat -> Outcome<R, E>, fuel: nat)
    requires forall i :: 0 <= i ==> exec(i).Failure?
    ensures var r := ExecuteReaderWithRetryAsync(exec, fuel);
      r.completion == Unfinished && r.invocations == fuel && r.delays == seq(fuel, _ => 2000)
  {
    PositiveBudgetNeverGivesUp(exec, DefaultRetryAttempts, FirstAttempt, 0, fuel);
  }

  /** The method with the evidently intended `--retryAttempts, ++attemptNumber`. */
  function ExecuteReaderRecursiveFixed<R, E>(exec: nat -> Outcome<R, E>, retryAttempts: int, attemptNumber: int,
                                             k: nat): RecursiveRun<R, E>
    decreases if retryAttempts < 0 then 0 else retryAttempts
  {
    var call := Args(retryAttempts, attemptNumber);
    match exec(k)
    case Success(reader) => RecursiveRun(Returned(reader), 1, [], [call])
    case Failure(e) =>
      if retryAttempts <= 0 then RecursiveRun(Thrown(e), 1, [], [call])
      else
        var rest := ExecuteReaderRecursiveFixed(exec, retryAttempts - 1, attemptNumber + 1, k + 1);
        RecursiveRun(rest.completion, 1 + rest.invocations, [DelayMs(attemptNumber)] + rest.delays, [call] + rest.calls)
  }

  /** The pauses a corrected run takes after its first m failures, from
      attempt number a on. */
  function Pauses(a: int, m: nat): seq<nat> {
    seq<nat>(m, i => DelayMs(a + i))
  }

  /** The corrected recursion in closed form: with budget M >= 0 it allows
      M + 1 calls from entry k; when the first m of them fail and (if
      m <= M) call m + 1 succeeds, it returns that reader after m pauses, and
      when all M + 1 fail it rethrows the last exception after M pauses. Entry
      i gets (M - i, a + i). */
  lemma {:induction false} FixedClosedForm<R, E>(exec: nat -> Outcome<R, E>, budget: nat, a: int, k: nat, m: nat)
    requires m <= budget + 1
    requires forall i :: k <= i < k + m ==> exec(i).Failure?
    requires m <= budget ==> exec(k + m).Success?
    ensures var r := ExecuteReaderRecursiveFixed(exec, budget, a, k);
      (forall i :: 0 <= i < |r.calls| ==> r.calls[i] == Args(budget - i, a + i)) &&
      (m <= budget ==> r == RecursiveRun(Returned(exec(k + m).value), m + 1, Pauses(a, m), r.calls)) &&
      (m > budget ==> r == RecursiveRun(Thrown(exec(k + budget).error), budget + 1, Pauses(a, budget), r.calls))
    decreases budget
  {
    var r := ExecuteReaderRecursiveFixed(exec, budget, a, k);
    if m > 0 && budget > 0 {
      FixedClosedForm(exec, budget - 1, a + 1, k + 1, m - 1);
      var rest := ExecuteReaderRecursiveFixed(exec, budget - 1, a + 1, k + 1);
      assert r.calls == [Args(budget, a)] + rest.calls;
      if m <= budget {
        assert Pauses(a, m) == [DelayMs(a)] + Pauses(a + 1, m - 1);
      } else {
        assert Pauses(a, budget) == [DelayMs(a)] + Pauses(a + 1, budget - 1);
      }
    }
  }

  /** The corrected recursion with budget N does what the retry loop of
      GetReaderWithRetry does with budget N + 1, except that it does not pause
      after the last failure before rethrowing: same outcome, same number of
      calls, and the loop's pauses are the corrected run's pauses plus, on a
      rethrow, one more. */
  lemma FixedMatchesLoop<R, E>(exec: nat -> Outcome<R, E>, retryAttempts: nat)
    ensures var fixed := ExecuteReaderRecursiveFixed(exec, retryAttempts, FirstAttempt, 0);
      var loop := LoopRetry.Expected(exec, retryAttempts + 1, None);
      fixed.completion == loop.completion && fixed.invocations == loop.invocations &&
      (fixed.completion.Thrown? ==> loop.delays == fixed.delays + [DelayMs(retryAttempts + 1)]) &&
      (!fixed.completion.Thrown? ==> loop.delays == fixed.delays)
  {
    var n := retryAttempts + 1;
    var m := LoopRetry.LeadingFailures(exec, n);
    FixedClosedForm(exec, retryAttempts, FirstAttempt, 0, m);
    assert LoopRetry.Schedule(m) == Pauses(FirstAttempt, m);
    assert LoopRetry.Schedule(n) == Pauses(FirstAttempt, retryAttempts) + [DelayMs(n)];
  }
}
