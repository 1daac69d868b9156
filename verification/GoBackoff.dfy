/**
 The backoff formula of the Go interceptor, power then clamp, over durations in nanoseconds. Float
 coefficients are taken as exact reals. The lemmas order it against the iterated floors of RustBackoff.
 */
module GoBackoff {
  import opened Wrappers
  import opened Words
  import RustBackoff

  const SECOND: int := 1_000_000_000

  /** A zero field is unset. */
  datatype RetryPolicy = RetryPolicy(
    initialInterval: int,
    backoffCoefficient: real,
    maximumInterval: int,
    maximumAttempts: int)

  /** The fields that matter, defaults filled in. */
  datatype Pacing = Pacing(initial: int, coefficient: real, cap: int)

  predicate Positive(b: Pacing) {
    b.initial > 0 && b.coefficient > 0.0 && b.cap > 0
  }

  function EffectivePacing(policy: Option<RetryPolicy>): (b: Pacing)
    ensures Positive(b)
  {
    var initial :=
      if policy.Some? && policy.value.initialInterval > 0 then policy.value.initialInterval else SECOND;
    var coefficient :=
      if policy.Some? && policy.value.backoffCoefficient > 0.0 then policy.value.backoffCoefficient else 2.0;
    var cap :=
      if policy.Some? && policy.value.maximumInterval > 0 then policy.value.maximumInterval else 100 * initial;
    Pacing(initial, coefficient, cap)
  }

  function Pow(b: real, k: nat): real {
    if k == 0 then 1.0 else Pow(b, k - 1) * b
  }

  /** initial * coefficient^(n-1), before the clamp. */
  function ScaledReal(initial: int, coefficient: real, n: nat): real
    requires n >= 1
  {
    initial as real * Pow(coefficient, n - 1)
  }

  function RetryInterval(b: Pacing, n: nat): int
    requires n >= 1
  {
    var scaled := ScaledReal(b.initial, b.coefficient, n);
    if scaled > b.cap as real then b.cap else scaled.Floor
  }

  /** The first n pauses together. */
  function TotalPause(b: Pacing, n: nat): int {
    if n == 0 then 0 else TotalPause(b, n - 1) + RetryInterval(b, n)
  }

  /** The bound that spec requirement 16 puts under the schedule-to-close timeout. */
  function MinimumBudget(detect: int, b: Pacing, n: int): int {
    n * detect + TotalPause(b, if n <= 0 then 0 else n)
  }

  method MinScheduleToClose(detect: int, policy: Option<RetryPolicy>, n: int) returns (sum: int)
    ensures sum == MinimumBudget(detect, EffectivePacing(policy), n)
  {
    sum := n * detect;
    var i := 1;
    while i <= n
      invariant 1 <= i && (n >= 1 ==> i <= n + 1) && (n < 1 ==> i == 1)
      invariant sum == n * detect + TotalPause(EffectivePacing(policy), i - 1)
    {
      sum := sum + RetryInterval(EffectivePacing(policy), i);
      i := i + 1;
    }
  }

  // ---------------------------------------------------------------- powers

  lemma ProductMonotone(x: real, y: real, u: real, v: real)
    requires 0.0 <= x <= u && 0.0 <= y <= v
    ensures 0.0 <= x * y <= u * v
  {
    assert x * y <= x * v;
    assert x * v <= u * v;
  }

  lemma {:induction false} PowMonotoneInBase(a: real, b: real, k: nat)
    requires 0.0 <= a <= b
    ensures 0.0 <= Pow(a, k) <= Pow(b, k)
  {
    if k > 0 {
      PowMonotoneInBase(a, b, k - 1);
      ProductMonotone(Pow(a, k - 1), a, Pow(b, k - 1), b);
    }
  }

  lemma {:induction false} PowMonotoneInExponent(b: real, j: nat, k: nat)
    requires b >= 1.0 && j <= k
    ensures 1.0 <= Pow(b, j) <= Pow(b, k)
  {
    PowMonotoneInBase(1.0, b, j);
    PowOfOne(j);
    if j < k {
      PowMonotoneInExponent(b, j, k - 1);
      ProductMonotone(Pow(b, k - 1), 1.0, Pow(b, k - 1), b);
    }
  }

  lemma {:induction false} PowOfOne(k: nat)
    ensures Pow(1.0, k) == 1.0
  {
    if k > 0 {
      PowOfOne(k - 1);
    }
  }

  lemma FloorMonotone(x: real, y: real)
    requires x <= y
    ensures x.Floor <= y.Floor
  {}

  lemma ProductAssociates(x: real, y: real, z: real)
    ensures x * y * z == x * (y * z)
  {}

  // ---------------------------------------------------------------- defaults

  function TwoTo(k: nat): nat {
    if k == 0 then 1 else 2 * TwoTo(k - 1)
  }

  lemma {:induction false} PowOfTwo(k: nat)
    ensures Pow(2.0, k) == TwoTo(k) as real
  {
    if k > 0 {
      PowOfTwo(k - 1);
    }
  }

  lemma {:induction false} TwoToGrows(j: nat, k: nat)
    requires j <= k
    ensures TwoTo(j) <= TwoTo(k)
  {
    if j < k {
      TwoToGrows(j, k - 1);
    }
  }

  /** No policy is a policy that sets nothing, and every field that is not positive is unset. */
  lemma UnsetFieldsAreDefaults(policy: RetryPolicy)
    requires policy.initialInterval <= 0 && policy.backoffCoefficient <= 0.0 && policy.maximumInterval <= 0
    ensures EffectivePacing(Some(policy)) == EffectivePacing(None)
  {}

  /** The documented defaults: one second, doubling, up to 100 seconds. */
  lemma DefaultIntervals(n: nat)
    requires n >= 1
    ensures RetryInterval(EffectivePacing(None), n) == (if n <= 7 then TwoTo(n - 1) else 100) * 1_000_000_000
  {
    PowOfTwo(n - 1);
    assert TwoTo(7) == 2 * TwoTo(6) == 4 * TwoTo(5) == 8 * TwoTo(4) == 16 * TwoTo(3) == 128;
    if n <= 7 {
      TwoToGrows(n - 1, 6);
    } else {
      TwoToGrows(7, n - 1);
    }
  }

  lemma {:induction false} DefaultPauseInSeconds(n: nat)
    ensures TotalPause(EffectivePacing(None), n)
            == (if n <= 7 then TwoTo(n) - 1 else 127 + 100 * (n - 7)) * 1_000_000_000
  {
    if n > 0 {
      DefaultPauseInSeconds(n - 1);
      DefaultIntervals(n);
      assert TwoTo(7) == 2 * TwoTo(6) == 4 * TwoTo(5) == 8 * TwoTo(4) == 16 * TwoTo(3) == 128;
    }
  }

  /** Without a retry policy the budget for N retries is N detections and 1 + 2 + 4 + ... seconds. */
  lemma DefaultBudgetInSeconds(detect: int, n: nat)
    ensures MinimumBudget(detect, EffectivePacing(None), n)
            == n * detect + (if n <= 7 then TwoTo(n) - 1 else 127 + 100 * (n - 7)) * 1_000_000_000
    ensures n == 2 ==> MinimumBudget(detect, EffectivePacing(None), n) == 2 * detect + 3_000_000_000
  {
    DefaultPauseInSeconds(n);
    assert TwoTo(2) == 2 * TwoTo(1) == 4;
  }

  // ---------------------------------------------------------------- monotonicity

  /** Clamping before or after rounding down is the same. */
  lemma IntervalIsClampedPower(b: Pacing, n: nat)
    requires Positive(b) && n >= 1
    ensures RetryInterval(b, n) == Min(b.cap, ScaledReal(b.initial, b.coefficient, n).Floor)
    ensures 0 <= RetryInterval(b, n) <= b.cap
  {
    PowMonotoneInBase(0.0, b.coefficient, n - 1);
    ProductMonotone(0.0, 0.0, b.initial as real, Pow(b.coefficient, n - 1));
  }

  ghost predicate AtMost(a: Pacing, b: Pacing) {
    a.initial <= b.initial && a.coefficient <= b.coefficient && a.cap <= b.cap
  }

  lemma IntervalMonotoneInPolicy(a: Pacing, b: Pacing, n: nat)
    requires Positive(a) && AtMost(a, b) && n >= 1
    ensures RetryInterval(a, n) <= RetryInterval(b, n)
  {
    PowMonotoneInBase(a.coefficient, b.coefficient, n - 1);
    ProductMonotone(a.initial as real, Pow(a.coefficient, n - 1), b.initial as real, Pow(b.coefficient, n - 1));
    FloorMonotone(ScaledReal(a.initial, a.coefficient, n), ScaledReal(b.initial, b.coefficient, n));
    IntervalIsClampedPower(a, n);
    IntervalIsClampedPower(b, n);
  }

  /** With a coefficient of at least 1.0 pauses never shrink. */
  lemma IntervalMonotoneInAttempt(b: Pacing, n: nat, m: nat)
    requires Positive(b) && b.coefficient >= 1.0 && 1 <= n <= m
    ensures 1 <= RetryInterval(b, n) <= RetryInterval(b, m)
  {
    var i, p, q := b.initial as real, Pow(b.coefficient, n - 1), Pow(b.coefficient, m - 1);
    PowMonotoneInExponent(b.coefficient, 0, n - 1);
    PowMonotoneInExponent(b.coefficient, n - 1, m - 1);
    ProductMonotone(i, p, i, q);
    ProductMonotone(1.0, 1.0, i, p);
    FloorMonotone(1.0, ScaledReal(b.initial, b.coefficient, n));
    FloorMonotone(ScaledReal(b.initial, b.coefficient, n), ScaledReal(b.initial, b.coefficient, m));
    IntervalIsClampedPower(b, n);
    IntervalIsClampedPower(b, m);
  }

  lemma {:induction false} TotalPauseMonotone(a: Pacing, b: Pacing, n: nat, m: nat)
    requires Positive(a) && AtMost(a, b) && n <= m
    ensures 0 <= TotalPause(a, n) <= TotalPause(b, m)
  {
    if n < m {
      TotalPauseMonotone(a, b, n, m - 1);
      IntervalIsClampedPower(b, m);
    } else if n > 0 {
      TotalPauseMonotone(a, b, n - 1, m - 1);
      IntervalIsClampedPower(a, n);
      IntervalMonotoneInPolicy(a, b, n);
    }
  }

  /** The bound grows with the number of retries, the detection delay and every part of the backoff: a
      budget that passes still passes after any of them is lowered or the budget is raised. */
  lemma BudgetMonotone(d: int, e: int, a: Pacing, b: Pacing, n: nat, m: nat)
    requires Positive(a) && AtMost(a, b) && 0 <= d <= e && n <= m
    ensures MinimumBudget(d, a, n) <= MinimumBudget(e, b, m)
  {
    TotalPauseMonotone(a, b, n, m);
    assert n * d <= n * e <= m * e;
  }

  // ---------------------------------------------------------------- against the formal model

  /** The coefficient that the formal model writes as ten times itself. */
  function Tenths(coeffX10: nat): real {
    coeffX10 as real / 10.0
  }

  lemma ProductAsReal(a: nat, b: nat)
    ensures (a * b) as real == a as real * b as real
  {}

  lemma FloorRoundBelow(x: nat, coeffX10: nat)
    ensures (x * coeffX10 / 10) as real <= x as real * Tenths(coeffX10)
    ensures x * coeffX10 / 10 == (x as real * Tenths(coeffX10)).Floor
  {
    ProductAsReal(x, coeffX10);
    assert x as real * Tenths(coeffX10) == (x * coeffX10) as real / 10.0;
  }

  lemma FloorStepBelow(x: nat, bound: real, coeffX10: nat)
    requires x as real <= bound
    ensures (x * coeffX10 / 10) as real <= bound * Tenths(coeffX10)
  {
    FloorRoundBelow(x, coeffX10);
    ProductMonotone(x as real, Tenths(coeffX10), bound, Tenths(coeffX10));
  }

  /** One more factor. */
  lemma PowStep(initial: real, b: real, k: nat)
    requires k >= 1
    ensures initial * Pow(b, k - 1) * b == initial * Pow(b, k)
  {
    ProductAssociates(initial, Pow(b, k - 1), b);
  }

  /** Rounding down at every step stays below rounding down once. */
  lemma {:induction false} IteratedFloorBelowPower(initial: nat, coeffX10: nat, k: nat)
    ensures RustBackoff.Scaled(initial, coeffX10, k) as real <= initial as real * Pow(Tenths(coeffX10), k)
  {
    if k == 0 {
      assert Pow(Tenths(coeffX10), 0) == 1.0;
    } else {
      IteratedFloorBelowPower(initial, coeffX10, k - 1);
      FloorStepBelow(RustBackoff.Scaled(initial, coeffX10, k - 1),
                     initial as real * Pow(Tenths(coeffX10), k - 1), coeffX10);
      PowStep(initial as real, Tenths(coeffX10), k);
    }
  }
}
