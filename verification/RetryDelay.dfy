/**
 The delay an activity expects before its next attempt, computed in floating point and converted to a
 64-bit duration. A conversion out of range may give either extreme of the range, depending on the
 platform; `overflow` is the extreme in use. Float arithmetic is taken as exact up to that point.
 */
module RetryDelay {
  import opened Wrappers
  import opened Words
  import opened GoBackoff

  const INT64_MAX: int := 0x7FFF_FFFF_FFFF_FFFF
  const INT64_MIN: int := -0x8000_0000_0000_0000
  const HOUR: int := 3600 * SECOND

  predicate Extreme(v: int) {
    v == INT64_MIN || v == INT64_MAX
  }

  function ToInt64(x: real, overflow: int): int {
    var truncated := if x >= 0.0 then x.Floor else -((-x).Floor);
    if INT64_MIN <= truncated <= INT64_MAX then truncated else overflow
  }

  function EffectiveInitial(policy: RetryPolicy): (initial: int)
    ensures initial > 0
  {
    if policy.initialInterval <= 0 then SECOND else policy.initialInterval
  }

  function EffectiveCoefficient(policy: RetryPolicy, floor: real): (coefficient: real)
    ensures coefficient >= floor
  {
    var c := if policy.backoffCoefficient == 0.0 then 2.0 else policy.backoffCoefficient;
    if floor >= c then floor else c
  }

  function Scaled(policy: RetryPolicy, attempt: nat, floor: real): real
    requires attempt >= 1
  {
    ScaledReal(EffectiveInitial(policy), EffectiveCoefficient(policy, floor), attempt)
  }

  function CalculateNewRetryDelay(policy: RetryPolicy, attempt: nat, floor: real, overflow: int): int
    requires attempt >= 1
  {
    var delay := ToInt64(Scaled(policy, attempt, floor), overflow);
    var maximum := policy.maximumInterval;
    if delay <= 0 then
      if maximum > 0 then maximum else HOUR
    else if maximum > 0 && delay > maximum then maximum
    else delay
  }

  function GetNextRetryDelay(policy: Option<RetryPolicy>, attempt: nat, floor: real, overflow: int): int
    requires attempt >= 1
  {
    if policy.None? then 0
    else if policy.value.maximumAttempts > 0 && attempt >= policy.value.maximumAttempts then 0
    else CalculateNewRetryDelay(policy.value, attempt, floor, overflow)
  }

  /** Zero means that there is no retry, and nothing else does: whatever the policy, the attempt and
      the platform, a retry that will happen has a positive delay. */
  lemma ZeroMeansNoRetry(policy: Option<RetryPolicy>, attempt: nat, floor: real, overflow: int)
    requires attempt >= 1
    ensures GetNextRetryDelay(policy, attempt, floor, overflow) >= 0
    ensures GetNextRetryDelay(policy, attempt, floor, overflow) == 0
            <==> policy.None? || 0 < policy.value.maximumAttempts <= attempt
  {}

  lemma ScaledNotNegative(policy: RetryPolicy, attempt: nat, floor: real)
    requires attempt >= 1 && EffectiveCoefficient(policy, floor) >= 0.0
    ensures Scaled(policy, attempt, floor) >= 0.0
    ensures EffectiveCoefficient(policy, floor) >= 1.0 ==> Scaled(policy, attempt, floor) >= 1.0
  {
    var i := EffectiveInitial(policy) as real;
    var p := Pow(EffectiveCoefficient(policy, floor), attempt - 1);
    PowMonotoneInBase(0.0, EffectiveCoefficient(policy, floor), attempt - 1);
    ProductMonotone(0.0, 0.0, i, p);
    if EffectiveCoefficient(policy, floor) >= 1.0 {
      PowMonotoneInExponent(EffectiveCoefficient(policy, floor), 0, attempt - 1);
      ProductMonotone(1.0, 1.0, i, p);
    }
  }

  lemma ScaledMonotone(policy: RetryPolicy, n: nat, m: nat, f: real, g: real)
    requires 1 <= n <= m && f <= g && EffectiveCoefficient(policy, f) >= 1.0
    ensures 1.0 <= Scaled(policy, n, f) <= Scaled(policy, m, g)
    ensures 1 <= Scaled(policy, n, f).Floor <= Scaled(policy, m, g).Floor
  {
    var a, b := EffectiveCoefficient(policy, f), EffectiveCoefficient(policy, g);
    PowMonotoneInExponent(a, n - 1, m - 1);
    PowMonotoneInBase(a, b, m - 1);
    var i := EffectiveInitial(policy) as real;
    ProductMonotone(i, Pow(a, n - 1), i, Pow(b, m - 1));
    ScaledNotNegative(policy, n, f);
  }

  /** The documented formula under a maximum interval, whatever an overflow gives: it holds exactly
      when the scaled delay is at least one nanosecond. Below that an underflow is taken for an
      overflow, and the longest delay is returned instead of the shortest. */
  lemma DelayIsClampedPowerIff(policy: RetryPolicy, attempt: nat, floor: real, overflow: int)
    requires attempt >= 1
    requires 0 < policy.maximumInterval <= INT64_MAX && Extreme(overflow)
    ensures CalculateNewRetryDelay(policy, attempt, floor, overflow)
            == Min(Scaled(policy, attempt, floor).Floor, policy.maximumInterval)
            <==> Scaled(policy, attempt, floor) >= 1.0
  {}

  /** A coefficient that shrinks the delay below a nanosecond: the next delay is the hour-long cap. */
  lemma UnderflowCounterexample(overflow: int)
    ensures var policy := RetryPolicy(1, 0.5, HOUR, 0);
            CalculateNewRetryDelay(policy, 1, 0.0, overflow) == 1
            && CalculateNewRetryDelay(policy, 2, 0.0, overflow) == HOUR
  {
    assert Pow(0.5, 0) == 1.0;
    assert Pow(0.5, 1) == 0.5;
  }

  /** Under a maximum and a coefficient of at least 1.0 the delay grows with the attempt and with the
      coefficient floor, and is the same on every platform. */
  lemma DelayMonotone(policy: RetryPolicy, n: nat, m: nat, f: real, g: real, overflow: int, overflow': int)
    requires 1 <= n <= m && f <= g && EffectiveCoefficient(policy, f) >= 1.0
    requires 0 < policy.maximumInterval <= INT64_MAX && Extreme(overflow) && Extreme(overflow')
    ensures 1 <= CalculateNewRetryDelay(policy, n, f, overflow) <= CalculateNewRetryDelay(policy, m, g, overflow')
  {
    ScaledMonotone(policy, n, m, f, g);
    DelayIsClampedPowerIff(policy, n, f, overflow);
    DelayIsClampedPowerIff(policy, m, g, overflow');
  }

  /** A negative coefficient is zero to the helper: there is a delay before attempt 2 only. */
  lemma NegativeCoefficientScales(policy: RetryPolicy, attempt: nat)
    requires attempt >= 1 && policy.backoffCoefficient < 0.0
    ensures Scaled(policy, attempt, 0.0) == if attempt == 1 then EffectiveInitial(policy) as real else 0.0
    ensures EffectivePacing(Some(policy)).coefficient == 2.0
  {
    assert EffectiveCoefficient(policy, 0.0) == 0.0;
    if attempt > 1 {
      assert Pow(0.0, attempt - 1) == Pow(0.0, attempt - 2) * 0.0 == 0.0;
    }
  }

  /** Without a floor the helper and the interceptor agree on a policy with a maximum interval exactly
      when the scaled delay is at least one nanosecond, so always for a coefficient of at least 1.0; or,
      the coefficient being negative, when doubling reaches the maximum.
      UncappedAgreesWithInterceptorIff has the policies without a maximum. */
  lemma AgreesWithInterceptorIff(policy: RetryPolicy, attempt: nat, overflow: int)
    requires attempt >= 1
    requires 0 < policy.maximumInterval <= INT64_MAX && Extreme(overflow)
    ensures CalculateNewRetryDelay(policy, attempt, 0.0, overflow)
            == RetryInterval(EffectivePacing(Some(policy)), attempt)
            <==> || Scaled(policy, attempt, 0.0) >= 1.0
                 || (policy.backoffCoefficient < 0.0
                     && ScaledReal(EffectiveInitial(policy), 2.0, attempt) >= policy.maximumInterval as real)
    ensures policy.backoffCoefficient == 0.0 || policy.backoffCoefficient >= 1.0
            ==> Scaled(policy, attempt, 0.0) >= 1.0
  {
    var pacing := EffectivePacing(Some(policy));
    IntervalIsClampedPower(pacing, attempt);
    DelayIsClampedPowerIff(policy, attempt, 0.0, overflow);
    ScaledNotNegative(policy, attempt, 0.0);
    if policy.backoffCoefficient < 0.0 {
      NegativeCoefficientScales(policy, attempt);
      assert Pow(2.0, 0) == 1.0;
    }
  }

  /** A negative coefficient: 100 seconds to the helper, 2 to the interceptor. */
  lemma NegativeCoefficientDisagrees(overflow: int)
    requires Extreme(overflow)
    ensures var policy := RetryPolicy(SECOND, -1.0, 100 * SECOND, 0);
            && CalculateNewRetryDelay(policy, 2, 0.0, overflow) == 100 * SECOND
            && RetryInterval(EffectivePacing(Some(policy)), 2) == 2 * SECOND
  {
    var policy := RetryPolicy(SECOND, -1.0, 100 * SECOND, 0);
    NegativeCoefficientScales(policy, 2);
    assert Pow(2.0, 1) == Pow(2.0, 0) * 2.0 == 2.0;
  }

  /** Without a maximum interval: the scaled delay while it is a duration of at least 1ns, an hour below
      that, and beyond the durations what the platform makes of an overflow. */
  lemma UncappedDelay(policy: RetryPolicy, attempt: nat, floor: real, overflow: int)
    requires attempt >= 1 && policy.maximumInterval <= 0 && Extreme(overflow)
    ensures var s := Scaled(policy, attempt, floor);
            CalculateNewRetryDelay(policy, attempt, floor, overflow)
            == if s.Floor > INT64_MAX || s <= INT64_MIN as real - 1.0
               then (if overflow == INT64_MIN then HOUR else INT64_MAX)
               else if s < 1.0 then HOUR else s.Floor
    ensures EffectiveCoefficient(policy, floor) >= 0.0 ==> Scaled(policy, attempt, floor) >= 0.0
  {
    if EffectiveCoefficient(policy, floor) >= 0.0 {
      ScaledNotNegative(policy, attempt, floor);
    }
  }

  /** So without a maximum interval the documented power is returned exactly for scaled delays from 1ns
      to the greatest duration. */
  lemma UncappedIsPowerIff(policy: RetryPolicy, attempt: nat, floor: real, overflow: int)
    requires attempt >= 1 && policy.maximumInterval <= 0 && Extreme(overflow)
    ensures CalculateNewRetryDelay(policy, attempt, floor, overflow) == Scaled(policy, attempt, floor).Floor
            <==> Scaled(policy, attempt, floor) >= 1.0 && Scaled(policy, attempt, floor).Floor <= INT64_MAX
  {
    UncappedDelay(policy, attempt, floor, overflow);
  }

  /** The delay that an activity expects, from the fields of its policy: while a retry remains it is the
      initial interval, 1 second if unset, times the greater of the floor and the coefficient, 2.0 if
      unset, to the power of the attempts before, up to a maximum if there is one. It is exactly that as
      long as it is at least 1ns and, without a maximum, a duration; so for all factors of at least 1.0
      under a maximum. */
  lemma NextDelayIsDocumentedIff(policy: RetryPolicy, attempt: nat, floor: real, overflow: int)
    requires attempt >= 1 && policy.maximumInterval <= INT64_MAX && Extreme(overflow)
    requires policy.maximumAttempts <= 0 || attempt < policy.maximumAttempts
    ensures var initial := if policy.initialInterval > 0 then policy.initialInterval else 1_000_000_000;
            var coefficient := if policy.backoffCoefficient == 0.0 then 2.0 else policy.backoffCoefficient;
            var factor := if coefficient < floor then floor else coefficient;
            var power := ScaledReal(initial, factor, attempt);
            var delay := GetNextRetryDelay(Some(policy), attempt, floor, overflow);
            && (policy.maximumInterval > 0
                ==> (delay == Min(power.Floor, policy.maximumInterval) <==> power >= 1.0))
            && (policy.maximumInterval <= 0
                ==> (delay == power.Floor <==> power >= 1.0 && power.Floor <= INT64_MAX))
            && (factor >= 1.0 ==> power >= 1.0)
  {
    if policy.maximumInterval > 0 {
      DelayIsClampedPowerIff(policy, attempt, floor, overflow);
    } else {
      UncappedIsPowerIff(policy, attempt, floor, overflow);
    }
    if EffectiveCoefficient(policy, floor) >= 0.0 {
      ScaledNotNegative(policy, attempt, floor);
    }
  }

  /** Without a maximum interval the interceptor caps at 100 times the initial interval and the helper
      does not. They agree exactly while the scaled delay is at least 1ns, within that cap and a duration;
      or when an overflow is replaced by an hour and the cap happens to be an hour; or when an underflow
      is replaced by an hour, the coefficient being negative, and doubling up to the cap gives an hour. */
  lemma UncappedAgreesWithInterceptorIff(policy: RetryPolicy, attempt: nat, overflow: int)
    requires attempt >= 1 && policy.maximumInterval <= 0 && Extreme(overflow)
    ensures var s := Scaled(policy, attempt, 0.0);
            var cap := 100 * EffectiveInitial(policy);
            CalculateNewRetryDelay(policy, attempt, 0.0, overflow)
            == RetryInterval(EffectivePacing(Some(policy)), attempt)
            <==> || (s >= 1.0 && s.Floor <= cap && s.Floor <= INT64_MAX)
                 || (s.Floor > INT64_MAX && overflow == INT64_MIN && cap == HOUR)
                 || (policy.backoffCoefficient < 0.0 && attempt > 1
                     && Min(cap, ScaledReal(EffectiveInitial(policy), 2.0, attempt).Floor) == HOUR)
  {
    var pacing := EffectivePacing(Some(policy));
    assert pacing.initial == EffectiveInitial(policy) && pacing.cap == 100 * EffectiveInitial(policy);
    IntervalIsClampedPower(pacing, attempt);
    UncappedDelay(policy, attempt, 0.0, overflow);
    if policy.backoffCoefficient < 0.0 {
      NegativeCoefficientScales(policy, attempt);
      assert Pow(2.0, 0) == 1.0;
    } else {
      assert ScaledReal(pacing.initial, pacing.coefficient, attempt) == Scaled(policy, attempt, 0.0);
    }
  }

  /** With every field unset they part at attempt 8: 128 seconds to the helper, 100 to the interceptor. */
  lemma DefaultPolicyDisagrees(overflow: int)
    requires Extreme(overflow)
    ensures var policy := RetryPolicy(0, 0.0, 0, 0);
            && CalculateNewRetryDelay(policy, 8, 0.0, overflow) == 128 * SECOND
            && RetryInterval(EffectivePacing(Some(policy)), 8) == 100 * SECOND
  {
    assert Pow(2.0, 3) == Pow(2.0, 2) * 2.0 == Pow(2.0, 1) * 2.0 * 2.0 == 8.0;
    assert Pow(2.0, 6) == Pow(2.0, 5) * 2.0 == Pow(2.0, 4) * 2.0 * 2.0 == 64.0;
    assert Pow(2.0, 7) == 128.0;
  }

  /** Without a maximum interval, and with a coefficient of at least 1.0, a later attempt can wait less:
      exactly when the conversion overflows downwards between the two attempts and the earlier delay is
      above the hour substituted for it. */
  lemma UncappedMonotoneIff(policy: RetryPolicy, n: nat, m: nat, floor: real, overflow: int)
    requires 1 <= n <= m && EffectiveCoefficient(policy, floor) >= 1.0
    requires policy.maximumInterval <= 0 && Extreme(overflow)
    ensures CalculateNewRetryDelay(policy, n, floor, overflow) <= CalculateNewRetryDelay(policy, m, floor, overflow)
            <==> !(overflow == INT64_MIN
                   && HOUR < Scaled(policy, n, floor).Floor <= INT64_MAX < Scaled(policy, m, floor).Floor)
  {
    ScaledMonotone(policy, n, m, floor, floor);
    UncappedDelay(policy, n, floor, overflow);
    UncappedDelay(policy, m, floor, overflow);
  }

  lemma {:induction false} PowShrinks(b: real, j: nat, k: nat)
    requires 0.0 <= b <= 1.0 && j <= k
    ensures 0.0 <= Pow(b, k) <= Pow(b, j)
  {
    PowMonotoneInBase(0.0, b, k);
    if j < k {
      PowShrinks(b, j, k - 1);
      ProductMonotone(Pow(b, k - 1), b, Pow(b, k - 1), 1.0);
    }
  }

  lemma ScaledShrinks(policy: RetryPolicy, n: nat, m: nat, floor: real)
    requires 1 <= n <= m && 0.0 <= EffectiveCoefficient(policy, floor) <= 1.0
    ensures 0.0 <= Scaled(policy, m, floor) <= Scaled(policy, n, floor)
    ensures 0 <= Scaled(policy, m, floor).Floor <= Scaled(policy, n, floor).Floor
  {
    var i := EffectiveInitial(policy) as real;
    var c := EffectiveCoefficient(policy, floor);
    PowShrinks(c, n - 1, m - 1);
    ProductMonotone(i, Pow(c, m - 1), i, Pow(c, n - 1));
    FloorMonotone(Scaled(policy, m, floor), Scaled(policy, n, floor));
  }

  /** With a coefficient of at most 1.0 a later attempt is meant to wait no longer. It does exactly when
      the delay drops below 1ns, so that an hour is substituted, from a shorter delay than that; or the
      earlier one overflows downwards, and an hour is less than the later one. */
  lemma UncappedShrinkingIff(policy: RetryPolicy, n: nat, m: nat, floor: real, overflow: int)
    requires 1 <= n <= m && 0.0 <= EffectiveCoefficient(policy, floor) <= 1.0
    requires policy.maximumInterval <= 0 && Extreme(overflow)
    ensures var a, b := Scaled(policy, n, floor), Scaled(policy, m, floor);
            CalculateNewRetryDelay(policy, n, floor, overflow) >= CalculateNewRetryDelay(policy, m, floor, overflow)
            <==> && !(b < 1.0 <= a && a.Floor < HOUR)
                 && !(overflow == INT64_MIN && HOUR < b.Floor <= INT64_MAX < a.Floor)
  {
    ScaledShrinks(policy, n, m, floor);
    UncappedDelay(policy, n, floor, overflow);
    UncappedDelay(policy, m, floor, overflow);
  }

  /** A growing backoff for which it does: 2^62ns before attempt 2, an hour before attempt 3. */
  lemma UncappedCounterexample()
    ensures var policy := RetryPolicy(1, 0x4000_0000_0000_0000 as real, 0, 0);
            && CalculateNewRetryDelay(policy, 3, 0.0, INT64_MIN) == 3_600_000_000_000
            && CalculateNewRetryDelay(policy, 2, 0.0, INT64_MIN) == 0x4000_0000_0000_0000
  {
    var policy := RetryPolicy(1, 0x4000_0000_0000_0000 as real, 0, 0);
    var c := 0x4000_0000_0000_0000 as real;
    assert Pow(c, 0) == 1.0;
    assert Pow(c, 1) == c;
    assert Pow(c, 2) == c * c;
    UncappedMonotoneIff(policy, 2, 3, 0.0, INT64_MIN);
  }
}
