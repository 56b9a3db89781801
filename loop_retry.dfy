/** The retry loop that ScalarWithRetry, GetReaderWithRetry, NonQueryWithRetry
    and OpenConnectionWithRetry each copy:

      attempt := 1
      loop: call the operation; on success return its value;
            on failure pause 2^min(attempt, 8) s, attempt := attempt + 1,
            and rethrow once attempt > retryAttempts.

    `Retry` is the loop; `Expected` says in closed form what a run does, and
    the lemmas below state the loop's promises about it. */
module LoopRetry {
  import opened Backoff
  import opened Runs

  /** How many calls an always-failing operation gets: the counter starts at 1
      and the loop rethrows once it exceeds retryAttempts, so a budget below 1
      still allows one call. */
  function Budget(retryAttempts: int): (n: nat)
    ensures n >= 1
    ensures retryAttempts >= FirstAttempt ==> n == retryAttempts
  {
    if retryAttempts < FirstAttempt then 1 else retryAttempts
  }

  /** The number of leading failures among the first n calls: the index of the
      first success below n, or n if there is none. */
  function LeadingFailures<T, E>(op: nat -> Outcome<T, E>, n: nat): (f: nat)
    ensures f <= n
    ensures forall i :: 0 <= i < f ==> op(i).Failure?
    ensures f < n ==> op(f).Success?
  {
    if n == 0 then 0
    else
      var g := LeadingFailures(op, n - 1);
      if g < n - 1 then g
      else if op(n - 1).Success? then n - 1
      else n
  }

  /** The first n pauses of a run: the k-th (1-based) follows failed attempt
      k; one pause per failure, none longer than 2^8 s. */
  function Schedule(n: nat): (s: seq<nat>)
    ensures |s| == n
    ensures forall i :: 0 <= i < n ==> s[i] <= MaxDelayMs
  {
    seq(n, i => DelayMs(i + 1))
  }

  /** What a run of the loop does, given the outcome of every call (op),
      the budget, and the pause during which cancellation is observed
      (cancelAt, 0-based; None when the token never fires). With f the number
      of leading failures within the budget: a pause follows each of those f
      failures; a cancelled pause ends the run; otherwise call f + 1 succeeds,
      or, when all Budget calls failed, the last exception is rethrown. */
  function Expected<T, E>(op: nat -> Outcome<T, E>, retryAttempts: int, cancelAt: Option<nat>): (r: Run<T, E>)
    ensures 1 <= r.invocations <= Budget(retryAttempts)
    ensures |r.delays| <= r.invocations
    ensures !r.completion.Unfinished?
  {
    var n := Budget(retryAttempts);
    var f := LeadingFailures(op, n);
    if cancelAt.Some? && cancelAt.value < f then
      Run(Cancelled, cancelAt.value + 1, Schedule(cancelAt.value + 1))
    else if f < n then
      Run(Returned(op(f).value), f + 1, Schedule(f))
    else
      Run(Thrown(op(n - 1).error), n, Schedule(n))
  }

  /** The leading-failure count is pinned down by where the first success is. */
  lemma LeadingFailuresIs<T, E>(op: nat -> Outcome<T, E>, n: nat, m: nat)
    requires m <= n
    requires forall i :: 0 <= i < m ==> op(i).Failure?
    requires m < n ==> op(m).Success?
    ensures LeadingFailures(op, n) == m
  {
  }

  /** The loop. `invocations` counts calls so far; `delays` logs the pauses. */
  method Retry<T, E>(op: nat -> Outcome<T, E>, retryAttempts: int, cancelAt: Option<nat>) returns (run: Run<T, E>)
    ensures run == Expected(op, retryAttempts, cancelAt)
  {
    var attempt := FirstAttempt;
    var invocations: nat := 0;
    var delays: seq<nat> := [];
    while true
      invariant FirstAttempt <= attempt <= Budget(retryAttempts)
      invariant attempt == invocations + 1
      invariant delays == Schedule(invocations)
      invariant forall i :: 0 <= i < invocations ==> op(i).Failure?
      invariant cancelAt.None? || invocations <= cancelAt.value
      decreases Budget(retryAttempts) - attempt
    {
      var outcome := op(invocations);
      invocations := invocations + 1;
      match outcome
      case Success(v) =>
        LeadingFailuresIs(op, Budget(retryAttempts), invocations - 1);
        return Run(Returned(v), invocations, delays);
      case Failure(e) =>
        delays := delays + [DelayMs(attempt)];
        if cancelAt == Some(invocations - 1) {
          return Run(Cancelled, invocations, delays);
        }
        attempt := attempt + 1;
        if attempt > retryAttempts {
          LeadingFailuresIs(op, Budget(retryAttempts), invocations);
          return Run(Thrown(e), invocations, delays);
        }
    }
  }

  /** A first call that succeeds is returned at once: one call, no pause,
      whatever the budget. */
  lemma FirstCallSucceeds<T, E>(op: nat -> Outcome<T, E>, retryAttempts: int, cancelAt: Option<nat>)
    requires op(0).Success?
    ensures Expected(op, retryAttempts, cancelAt) == Run(Returned(op(0).value), 1, [])
  {
    LeadingFailuresIs(op, Budget(retryAttempts), 0);
  }

  /** Calls stop at the first success, and its value is what is returned. */
  lemma ReturnsFirstSuccess<T, E>(op: nat -> Outcome<T, E>, retryAttempts: int, cancelAt: Option<nat>)
    ensures var r := Expected(op, retryAttempts, cancelAt);
      r.completion.Returned? ==>
        op(r.invocations - 1) == Success(r.completion.value) &&
        forall i :: 0 <= i < r.invocations - 1 ==> op(i).Failure?
  {
  }

  /** A rethrow happens only after Budget calls that all failed, and it
      rethrows the exception of the last one. */
  lemma RethrowsLastFailure<T, E>(op: nat -> Outcome<T, E>, retryAttempts: int, cancelAt: Option<nat>)
    ensures var r := Expected(op, retryAttempts, cancelAt);
      r.completion.Thrown? ==>
        r.invocations == Budget(retryAttempts) &&
        op(r.invocations - 1) == Failure(r.completion.error) &&
        forall i :: 0 <= i < r.invocations ==> op(i).Failure?
  {
  }

  /** An operation that always fails is called max(retryAttempts, 1) times,
      a pause follows every failure (the last one too), and the last
      exception is rethrown. */
  lemma AlwaysFailing<T, E>(op: nat -> Outcome<T, E>, retryAttempts: int)
    requires forall i :: 0 <= i < Budget(retryAttempts) ==> op(i).Failure?
    ensures var n := Budget(retryAttempts);
      Expected(op, retryAttempts, None) == Run(Thrown(op(n - 1).error), n, Schedule(n))
  {
    LeadingFailuresIs(op, Budget(retryAttempts), Budget(retryAttempts));
  }

  /** A pause follows a call exactly when that call failed, so the run takes
      as many pauses as it saw failures. */
  lemma PauseAfterEveryFailure<T, E>(op: nat -> Outcome<T, E>, retryAttempts: int, cancelAt: Option<nat>)
    ensures var r := Expected(op, retryAttempts, cancelAt);
      r.delays == Schedule(|r.delays|) &&
      |r.delays| <= r.invocations &&
      forall i :: 0 <= i < r.invocations ==> (op(i).Failure? <==> i < |r.delays|)
  {
  }

  /** Every pause in the schedule lasts at least 2 s and at most 256 s, and
      exactly 256 s from the pause after attempt 8 on. */
  lemma ScheduleBounds(n: nat)
    ensures forall i :: 0 <= i < n ==> 2000 <= Schedule(n)[i] <= MaxDelayMs
    ensures forall i :: MaxExponent - 1 <= i < n ==> Schedule(n)[i] == MaxDelayMs
  {
    var s := Schedule(n);
    forall i | 0 <= i < n
      ensures 2000 <= s[i] <= MaxDelayMs
      ensures MaxExponent - 1 <= i ==> s[i] == MaxDelayMs
    {
      DelayMsRange(i + 1);
      if MaxExponent - 1 <= i {
        DelayMsCapped(i + 1);
      }
    }
  }

  /** No pause in the schedule is shorter than an earlier one. */
  lemma ScheduleNonDecreasing(n: nat)
    ensures forall i, j :: 0 <= i <= j < n ==> Schedule(n)[i] <= Schedule(n)[j]
  {
    var s := Schedule(n);
    forall i, j | 0 <= i <= j < n
      ensures s[i] <= s[j]
    {
      DelayMsMonotone(i + 1, j + 1);
    }
  }

  /** Failing j - 1 times and then succeeding, within the budget, returns the
      j-th call's value after exactly j - 1 pauses of 2^1 .. 2^min(j-1, 8) s. */
  lemma SucceedsAfterFailures<T, E>(op: nat -> Outcome<T, E>, retryAttempts: int, j: nat)
    requires 1 <= j <= Budget(retryAttempts)
    requires forall i :: 0 <= i < j - 1 ==> op(i).Failure?
    requires op(j - 1).Success?
    ensures Expected(op, retryAttempts, None) == Run(Returned(op(j - 1).value), j, Schedule(j - 1))
  {
    LeadingFailuresIs(op, Budget(retryAttempts), j - 1);
  }

  /** Cancellation observed during pause c ends the run there, with no call
      after it; it happens exactly when the run gets that far (c is below the
      number of leading failures). */
  lemma CancelledDuringPause<T, E>(op: nat -> Outcome<T, E>, retryAttempts: int, c: nat)
    ensures var r := Expected(op, retryAttempts, Some(c));
      (r.completion == Cancelled <==> c < LeadingFailures(op, Budget(retryAttempts))) &&
      (r.completion == Cancelled ==> r.invocations == c + 1 && |r.delays| == c + 1)
  {
  }

  /** A budget of 1 or less behaves exactly like a budget of 1. */
  lemma SmallBudgetsAgree<T, E>(op: nat -> Outcome<T, E>, retryAttempts: int, cancelAt: Option<nat>)
    requires retryAttempts <= 1
    ensures Expected(op, retryAttempts, cancelAt) == Expected(op, 1, cancelAt)
  {
  }

  /** An always-failing operation with budget 5, cancelled during the second
      pause: two calls, pauses of 2 s and 4 s, and the run ends cancelled. */
  lemma CancelDuringSecondPause<T, E>(op: nat -> Outcome<T, E>)
    requires forall i :: 0 <= i < 5 ==> op(i).Failure?
    ensures Expected(op, 5, Some(1)) == Run(Cancelled, 2, [2000, 4000])
  {
    LeadingFailuresIs(op, 5, 5);
    assert Schedule(2) == [2000, 4000] by {
      assert Pow2(2) == 4;
    }
  }

  /** Budget 2 with an operation that fails, fails, then would return 42: the
      loop stops after the second failure and its 4 s pause and rethrows; the
      third call is never made. */
  lemma TwoAttemptsScenario<E>(op: nat -> Outcome<int, E>)
    requires op(0).Failure? && op(1).Failure? && op(2) == Success(42)
    ensures Expected(op, 2, None) == Run(Thrown(op(1).error), 2, [2000, 4000])
  {
    LeadingFailuresIs(op, 2, 2);
    assert Schedule(2) == [2000, 4000] by {
      assert Pow2(2) == 4;
    }
  }
}
