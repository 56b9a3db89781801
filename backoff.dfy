/** The backoff arithmetic shared by every retry wrapper: the tunables each
    source file declares (`_defaultRetryAttempts`, `_firstAttempt`,
    `_maxExponent`, `_noRetryAttempts`) and the pause length
    `(int)Math.Pow(2, Math.Min(attempt, _maxExponent)) * 1000` in milliseconds,
    computed exactly on integers. */
module Backoff {

  /** `_defaultRetryAttempts`: the budget used when the caller gives none. */
  const DefaultRetryAttempts: int := 1
  /** `_firstAttempt`: the attempt counter starts at 1. */
  const FirstAttempt: int := 1
  /** `_maxExponent`: the exponent fed to `Math.Pow` never exceeds 8. */
  const MaxExponent: int := 8
  /** `_noRetryAttempts`: the budget `EnsureOpen` / `EnsureOpenAsync` pass. */
  const NoRetryAttempts: int := 0
  /** The longest single pause: 2^8 seconds. */
  const MaxDelayMs: nat := 256000

  function Min(a: int, b: int): int {
    if a < b then a else b
  }

  /** 2^e on natural numbers. */
  function Pow2(e: nat): (r: nat)
    ensures r >= 1
  {
    if e == 0 then 1 else 2 * Pow2(e - 1)
  }

  /** `(int)Math.Pow(2, e)`: a negative exponent yields a fraction below 1,
      which the cast truncates to 0. */
  function PowTwo(e: int): nat {
    if e < 0 then 0 else Pow2(e)
  }

  /** The capped pause, in milliseconds, taken after a failed attempt number
      `attempt`; whatever the attempt, it never exceeds 2^8 s. */
  function DelayMs(attempt: int): (r: nat)
    ensures r <= MaxDelayMs
  {
    var e := Min(attempt, MaxExponent);
    assert PowTwo(e) <= 256 by {
      if e >= 0 {
        Pow2Monotone(e, 8);
        assert Pow2(8) == 256;
      }
    }
    1000 * PowTwo(e)
  }

  /** The uncapped pause of the oldest recursive wrapper:
      `(int)Math.Pow(2, attemptNumber) * 1000`. From attempt number 0 on it is
      at least 1 s; a negative attempt number makes the cast yield 0. */
  function UncappedDelayMs(attemptNumber: int): (r: nat)
    ensures attemptNumber >= 0 ==> r >= 1000
    ensures attemptNumber < 0 ==> r == 0
  {
    1000 * PowTwo(attemptNumber)
  }

  lemma {:induction false} Pow2Monotone(a: nat, b: nat)
    requires a <= b
    ensures Pow2(a) <= Pow2(b)
  {
    if a < b {
      Pow2Monotone(a, b - 1);
    }
  }

  /** Every pause after a real attempt (attempt >= 1) lies between 2 s and
      256 s. */
  lemma DelayMsRange(attempt: int)
    requires attempt >= FirstAttempt
    ensures 2000 <= DelayMs(attempt) <= MaxDelayMs
  {
    var e := Min(attempt, MaxExponent);
    Pow2Monotone(1, e);
    Pow2Monotone(e, 8);
    assert Pow2(8) == 256;
  }

  /** Cap law: from attempt 8 on, every pause is exactly 256 s. */
  lemma DelayMsCapped(attempt: int)
    requires attempt >= MaxExponent
    ensures DelayMs(attempt) == MaxDelayMs
  {
    assert Pow2(8) == 256;
  }

  /** Below the cap the pause is exactly 2^attempt seconds. */
  lemma DelayMsBelowCap(attempt: int)
    requires 0 <= attempt <= MaxExponent
    ensures DelayMs(attempt) == 1000 * Pow2(attempt)
  {
  }

  /** A later attempt never waits less than an earlier one. */
  lemma DelayMsMonotone(a: int, b: int)
    requires FirstAttempt <= a <= b
    ensures DelayMs(a) <= DelayMs(b)
  {
    Pow2Monotone(Min(a, MaxExponent), Min(b, MaxExponent));
  }

  /** Without the cap the pause doubles with every attempt, so it passes the
      capped maximum from attempt 9 on. */
  lemma {:induction false} UncappedDelayDoubles(attemptNumber: int)
    requires attemptNumber >= 0
    ensures UncappedDelayMs(attemptNumber + 1) == 2 * UncappedDelayMs(attemptNumber)
    ensures attemptNumber >= 9 ==> UncappedDelayMs(attemptNumber) > MaxDelayMs
  {
    if attemptNumber >= 9 {
      Pow2Monotone(9, attemptNumber);
      assert Pow2(9) == 512;
    }
  }
}
