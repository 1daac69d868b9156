/**
 What the decision of the interceptor is worth on the timeline. The policy that reserves a budget for
 retries is exact for the timeline it is about; calls that are let through get their retries; and the
 Go formula, power then clamp, never promises less than the iterated floors of the formal model need.
 */
module Guarantee {
  import opened Wrappers
  import opened Words
  import opened Timeline
  import opened WordTimeline
  import opened GoBackoff
  import opened Canonical
  import opened Interceptor
  import opened RustModel
  import RustBackoff

  // ---------------------------------------------------------------- Go options on the timeline

  function Pause(b: Pacing, n: nat): nat
    requires Positive(b)
  {
    if n == 0 then 0
    else
      IntervalIsClampedPower(b, n);
      RetryInterval(b, n)
  }

  function AttemptLimit(policy: Option<RetryPolicy>): nat {
    if policy.Some? && policy.value.maximumAttempts > 0 then policy.value.maximumAttempts else 0
  }

  function CallDetection(c: Call): int {
    DetectionDelay(c.heartbeat, c.startToClose)
  }

  /** The crash timeline of a scheduled call. */
  function GoPlan(c: Call): Plan
    requires c.scheduleToClose >= 0 && CallDetection(c) >= 0
  {
    var b := EffectivePacing(c.retryPolicy);
    Plan(c.scheduleToClose, _ => CRASH_DELAY_MS, _ => CallDetection(c), n => Pause(b, n), AttemptLimit(c.retryPolicy))
  }

  /** The limit leaves room for the required retries. */
  predicate AttemptsSuffice(c: Call) {
    AttemptLimit(c.retryPolicy) == 0 || AttemptLimit(c.retryPolicy) > c.requiredRetries
  }

  lemma {:induction false} StartTimeIsBudget(c: Call, n: nat)
    requires c.scheduleToClose >= 0 && CallDetection(c) >= 0
    ensures StartTime(GoPlan(c), n) == MinimumBudget(CallDetection(c), EffectivePacing(c.retryPolicy), n)
  {
    if n > 0 {
      StartTimeIsBudget(c, n - 1);
      assert n * CallDetection(c) == (n - 1) * CallDetection(c) + CallDetection(c);
    }
  }

  /** Attempt N + 1, the last of the N required retries. */
  ghost predicate RequiredRetriesStart(c: Call)
    requires c.scheduleToClose >= 0 && CallDetection(c) >= 0 && c.requiredRetries >= 0
  {
    Starts(Unbounded, GoPlan(c), c.requiredRetries + 1, c.requiredRetries + 1)
  }

  /** The policy is exact: with a limit that leaves room, a call passes it if and only if its N-th
      retry starts on the timeline where every attempt crashes. */
  lemma TimeoutsPolicyExact(c: Call)
    requires c.requiredRetries >= 1 && c.scheduleToClose > 0 && CallDetection(c) > 0
    ensures RequiredRetriesStart(c) <==> !Violated(c, TimeoutsPermitRetries) && AttemptsSuffice(c)
  {
    AttemptStartsIff(GoPlan(c), c.requiredRetries + 1, c.requiredRetries + 1);
    StartTimeIsBudget(c, c.requiredRetries);
  }

  /** The severities that make the interceptor stop a call without a sufficient budget. */
  predicate BudgetEnforced(o: Options) {
    SeverityFor(o, ScheduleToCloseRequired) == Error && SeverityFor(o, TimeoutsPermitRetries) == Error
  }

  /** End to end: a regular activity that is let through gets its required retries exactly when its
      attempt limit, if any, leaves room for them; for up to two retries, and the attempts policy at
      Error, that needs no further condition. */
  lemma ForwardedActivityGetsRetriesIff(o: Options, a: ActivityOptions)
    requires a.heartbeat >= 0 && a.startToClose >= 0
    requires BudgetEnforced(o) && RequiredRetries(o) >= 1
    requires Allowed(o, RegularCall(o, a))
    ensures var c := RegularCall(o, a);
            && c.scheduleToClose > 0 && CallDetection(c) > 0
            && (RequiredRetriesStart(c) <==> AttemptsSuffice(c))
            && (SeverityFor(o, MaxAttemptsTooLow) == Error && RequiredRetries(o) <= 2 ==> RequiredRetriesStart(c))
  {
    var c := RegularCall(o, a);
    assert !Violated(c, ScheduleToCloseRequired);
    assert !Violated(c, TimeoutsPermitRetries);
    assert SeverityFor(o, MaxAttemptsTooLow) == Error ==> !Violated(c, MaxAttemptsTooLow);
    TimeoutsPolicyExact(c);
  }

  /** The same for a local activity, whose start-to-close timeout must be set instead. */
  lemma ForwardedLocalActivityGetsRetriesIff(o: Options, a: LocalActivityOptions)
    requires BudgetEnforced(o) && RequiredRetries(o) >= 1
    requires SeverityFor(o, LocalActivityStartToCloseTooLong) == Error
    requires Allowed(o, LocalCall(o, a))
    ensures var c := LocalCall(o, a);
            && c.scheduleToClose > 0 && 0 < CallDetection(c) < LOCAL_ACTIVITY_MAX_START_TO_CLOSE
            && (RequiredRetriesStart(c) <==> AttemptsSuffice(c))
            && (SeverityFor(o, MaxAttemptsTooLow) == Error && RequiredRetries(o) <= 2 ==> RequiredRetriesStart(c))
  {
    var c := LocalCall(o, a);
    assert !Violated(c, ScheduleToCloseRequired);
    assert !Violated(c, TimeoutsPermitRetries);
    assert !Violated(c, LocalActivityStartToCloseTooLong);
    assert SeverityFor(o, MaxAttemptsTooLow) == Error ==> !Violated(c, MaxAttemptsTooLow);
    TimeoutsPolicyExact(c);
  }

  /** The condition is needed: with three retries required and all policies at Error, a limit of three
      attempts is let through although the third retry never starts. */
  lemma AttemptLimitGap()
    ensures var o := Options(map[], Some(3));
            var a := ActivityOptions(3600 * SECOND, 0, 10 * SECOND, Some(RetryPolicy(0, 1.0, 0, 3)));
            Allowed(o, RegularCall(o, a)) && !RequiredRetriesStart(RegularCall(o, a))
  {
    var o := Options(map[], Some(3));
    var a := ActivityOptions(3600 * SECOND, 0, 10 * SECOND, Some(RetryPolicy(0, 1.0, 0, 3)));
    var c := RegularCall(o, a);
    var b := Pacing(SECOND, 1.0, 100 * SECOND);
    assert EffectivePacing(c.retryPolicy) == b;
    forall n: nat | n >= 1
      ensures RetryInterval(b, n) == SECOND
    {
      PowOfOne(n - 1);
    }
    assert TotalPause(b, 1) == SECOND;
    assert TotalPause(b, 2) == 2 * SECOND;
    assert TotalPause(b, 3) == 3 * SECOND;
    TimeoutsPolicyExact(c);
  }

  /** Lowering what the policy asks for, or raising the budget, keeps a passing call passing. */
  lemma PassingIsMonotone(c: Call, c': Call)
    requires !Violated(c, TimeoutsPermitRetries) && 1 <= c'.requiredRetries <= c.requiredRetries
    requires 0 < c.scheduleToClose <= c'.scheduleToClose
    requires 0 < CallDetection(c') <= CallDetection(c)
    requires AtMost(EffectivePacing(c'.retryPolicy), EffectivePacing(c.retryPolicy))
    ensures !Violated(c', TimeoutsPermitRetries)
  {
    BudgetMonotone(CallDetection(c'), CallDetection(c), EffectivePacing(c'.retryPolicy),
                   EffectivePacing(c.retryPolicy), c'.requiredRetries, c.requiredRetries);
  }

  // ---------------------------------------------------------------- against the formal model

  /** The retry policy of a model configuration, with `unit` to the millisecond: the Go unit is 10^6. */
  function GoPolicyOf(c: RustBackoff.Config, unit: nat): RetryPolicy {
    RetryPolicy(c.initialIntervalMs * unit, Tenths(c.backoffCoeffX10), c.maxIntervalMs * unit, c.maxAttempts)
  }

  function GoPacingOf(c: RustBackoff.Config, unit: nat): (b: Pacing)
    ensures Positive(b)
  {
    EffectivePacing(Some(GoPolicyOf(c, unit)))
  }

  /** The call the interceptor sees for a model configuration. */
  function GoOptionsOf(c: RustBackoff.Config, unit: nat): ActivityOptions {
    ActivityOptions(
      c.scheduleToCloseMs * unit, c.startToCloseMs * unit, c.heartbeatMs * unit, Some(GoPolicyOf(c, unit)))
  }

  /** Both sides read an initial interval as set, unless it is zero: a pause of zero to the model but
      unset to the interceptor. A coefficient of zero is unset to the interceptor alone, too. */
  lemma PolicyReadsBack(c: RustBackoff.Config, unit: nat)
    requires c.initialIntervalMs >= 1 && unit >= 1
    ensures GoPacingOf(c, unit).initial == c.initialIntervalMs * unit
    ensures GoPacingOf(c, unit).cap == RustBackoff.EffectiveMax(c) * unit
    ensures GoPacingOf(c, unit).coefficient == if c.backoffCoeffX10 == 0 then 2.0 else Tenths(c.backoffCoeffX10)
  {
    TimesMonotone(1, c.initialIntervalMs, unit);
    if c.maxIntervalMs > 0 {
      TimesMonotone(1, c.maxIntervalMs, unit);
    } else {
      assert 100 * (c.initialIntervalMs * unit) == c.initialIntervalMs * 100 * unit;
    }
  }

  lemma TimesMonotone(x: nat, y: nat, unit: nat)
    requires x <= y
    ensures x * unit <= y * unit
  {}

  /** Clamping in a finer unit. */
  lemma MinTimes(x: nat, y: nat, unit: nat)
    ensures Min(x, y) * unit == Min(x * unit, y * unit)
  {
    if x <= y {
      TimesMonotone(x, y, unit);
    } else {
      TimesMonotone(y, x, unit);
    }
  }

  lemma ScaledInUnitBelow(x: nat, initial: nat, power: real, unit: nat)
    requires x as real <= initial as real * power
    ensures x * unit <= ((initial * unit) as real * power).Floor
  {
    ProductMonotone(x as real, unit as real, initial as real * power, unit as real);
    ProductAsReal(x, unit);
    ProductAsReal(initial, unit);
    assert initial as real * power * unit as real == initial as real * unit as real * power;
    FloorMonotone((x * unit) as real, (initial * unit) as real * power);
  }

  lemma ScaledBelowPower(c: RustBackoff.Config, unit: nat, n: nat)
    requires c.initialIntervalMs >= 1 && unit >= 1 && n >= 1
    ensures RustBackoff.Scaled(c.initialIntervalMs, c.backoffCoeffX10, n - 1) * unit
            <= ScaledReal(GoPacingOf(c, unit).initial, GoPacingOf(c, unit).coefficient, n).Floor
  {
    var i, b := c.initialIntervalMs as real, GoPacingOf(c, unit).coefficient;
    PolicyReadsBack(c, unit);
    IteratedFloorBelowPower(c.initialIntervalMs, c.backoffCoeffX10, n - 1);
    PowMonotoneInBase(Tenths(c.backoffCoeffX10), b, n - 1);
    ProductMonotone(i, Pow(Tenths(c.backoffCoeffX10), n - 1), i, Pow(b, n - 1));
    ScaledInUnitBelow(RustBackoff.Scaled(c.initialIntervalMs, c.backoffCoeffX10, n - 1), c.initialIntervalMs,
                      Pow(b, n - 1), unit);
  }

  lemma {:induction false} ScaledOfZero(coeffX10: nat, k: nat)
    ensures RustBackoff.Scaled(0, coeffX10, k) == 0
  {
    if k > 0 {
      ScaledOfZero(coeffX10, k - 1);
    }
  }

  /** Rounding down at every step never waits longer than rounding down once, in any finer unit. */
  lemma ModelPauseNeverLonger(c: RustBackoff.Config, unit: nat, n: nat)
    requires unit >= 1 && n >= 1
    ensures RustBackoff.IdealInterval(c, n) * unit <= RetryInterval(GoPacingOf(c, unit), n)
  {
    IntervalIsClampedPower(GoPacingOf(c, unit), n);
    if c.initialIntervalMs == 0 {
      ScaledOfZero(c.backoffCoeffX10, n - 1);
    } else {
      PolicyReadsBack(c, unit);
      ScaledBelowPower(c, unit, n);
      MinTimes(RustBackoff.EffectiveMax(c), RustBackoff.Scaled(c.initialIntervalMs, c.backoffCoeffX10, n - 1), unit);
    }
  }

  // ---------------------------------------------------------------- the first two pauses, exactly

  lemma FirstTwoIntervals(initial: nat, coeffX10: nat, cap: nat)
    requires initial >= 1 && coeffX10 >= 1 && cap >= 1
    ensures var b := Pacing(initial, Tenths(coeffX10), cap);
            RetryInterval(b, 1) == Min(cap, initial) && RetryInterval(b, 2) == Min(cap, initial * coeffX10 / 10)
  {
    var b := Pacing(initial, Tenths(coeffX10), cap);
    assert Pow(b.coefficient, 0) == 1.0;
    assert Pow(b.coefficient, 1) == b.coefficient;
    FloorRoundBelow(initial, coeffX10);
    IntervalIsClampedPower(b, 1);
    IntervalIsClampedPower(b, 2);
  }

  /** What the model rounds off its second pause and the interceptor, in its finer unit, does not. */
  function RoundedOff(c: RustBackoff.Config, unit: nat): nat {
    if RustBackoff.IdealInterval(c, 2) < RustBackoff.EffectiveMax(c)
    then c.initialIntervalMs * c.backoffCoeffX10 % 10 * unit / 10
    else 0
  }

  lemma SplitTenths(x: nat, unit: nat)
    ensures x * unit / 10 == x / 10 * unit + x % 10 * unit / 10
    ensures unit >= 1 ==> x % 10 * unit / 10 < unit
  {
    assert x * unit == 10 * (x / 10 * unit) + x % 10 * unit;
    TimesMonotone(x % 10, 9, unit);
  }

  lemma ClampWithRest(cap: nat, x: nat, rest: nat, unit: nat)
    requires rest < unit
    ensures Min(cap * unit, x * unit + rest) == Min(cap, x) * unit + (if x < cap then rest else 0)
  {
    if x < cap {
      TimesMonotone(x + 1, cap, unit);
    } else {
      TimesMonotone(cap, x, unit);
    }
  }

  lemma SecondPause(c: RustBackoff.Config, unit: nat)
    requires c.initialIntervalMs >= 1 && c.backoffCoeffX10 >= 1 && unit >= 1
    ensures RetryInterval(GoPacingOf(c, unit), 2) == RustBackoff.IdealInterval(c, 2) * unit + RoundedOff(c, unit)
  {
    var i, k, cap := c.initialIntervalMs, c.backoffCoeffX10, RustBackoff.EffectiveMax(c);
    PolicyReadsBack(c, unit);
    FirstTwoIntervals(i * unit, k, cap * unit);
    assert i * unit * k == i * k * unit;
    assert RustBackoff.Scaled(i, k, 0) == i;
    assert RustBackoff.Scaled(i, k, 1) == i * k / 10;
    SplitTenths(i * k, unit);
    ClampWithRest(cap, i * k / 10, i * k % 10 * unit / 10, unit);
  }

  lemma RoundedOffIsLess(c: RustBackoff.Config, unit: nat)
    requires unit >= 1
    ensures RoundedOff(c, unit) < unit
    ensures RoundedOff(c, 1) == 0
  {
    SplitTenths(c.initialIntervalMs * c.backoffCoeffX10, unit);
    SplitTenths(c.initialIntervalMs * c.backoffCoeffX10, 1);
  }

  lemma FirstPausesAgree(c: RustBackoff.Config, unit: nat)
    requires c.initialIntervalMs >= 1 && c.backoffCoeffX10 >= 1 && unit >= 1
    ensures RetryInterval(GoPacingOf(c, unit), 1) == RustBackoff.IdealInterval(c, 1) * unit
  {
    PolicyReadsBack(c, unit);
    FirstTwoIntervals(c.initialIntervalMs * unit, c.backoffCoeffX10, RustBackoff.EffectiveMax(c) * unit);
    assert RustBackoff.Scaled(c.initialIntervalMs, c.backoffCoeffX10, 0) == c.initialIntervalMs;
    MinTimes(RustBackoff.EffectiveMax(c), c.initialIntervalMs, unit);
  }

  /** The first pause is the same in any unit; the second one differs by what is rounded off, which is
      nothing in milliseconds and always less than one. */
  lemma FirstTwoPauses(c: RustBackoff.Config, unit: nat, n: nat)
    requires c.initialIntervalMs >= 1 && c.backoffCoeffX10 >= 1 && unit >= 1 && 1 <= n <= 2
    ensures RetryInterval(GoPacingOf(c, unit), n)
            == RustBackoff.IdealInterval(c, n) * unit + (if n == 2 then RoundedOff(c, unit) else 0)
    ensures RoundedOff(c, unit) < unit
  {
    RoundedOffIsLess(c, unit);
    if n == 1 {
      FirstPausesAgree(c, unit);
    } else {
      SecondPause(c, unit);
    }
  }

  /** The third can differ even in milliseconds: 15ms at 1.1 gives 17ms by steps and 18ms at once. */
  lemma ThirdPausesCanDiffer()
    ensures var c := RustBackoff.Config(1000, 100, 0, 15, 0, 11, 0);
            RustBackoff.IdealInterval(c, 3) == 17 && RetryInterval(GoPacingOf(c, 1), 3) == 18
  {
    assert RustBackoff.Scaled(15, 11, 1) == 16;
    assert RustBackoff.Scaled(15, 11, 2) == 17;
    assert Pow(1.1, 0) == 1.0;
    assert Pow(1.1, 1) == 1.1;
    assert Pow(1.1, 2) == 1.21;
  }

  // ---------------------------------------------------------------- budgets

  lemma SumTimes(x: nat, y: nat, z: nat, unit: nat)
    ensures (x + y + z) * unit == x * unit + y * unit + z * unit
  {}

  /** The budget for one more retry. */
  lemma BudgetStep(detect: int, b: Pacing, n: nat)
    requires n >= 1
    ensures MinimumBudget(detect, b, n) == MinimumBudget(detect, b, n - 1) + detect + RetryInterval(b, n)
  {
    assert n * detect == (n - 1) * detect + detect;
  }

  /** In any unit, the budget of the interceptor covers the start of attempt n + 1 in the model. */
  lemma {:induction false} ModelStartsNoLater(c: RustBackoff.Config, unit: nat, n: nat)
    requires unit >= 1
    ensures StartTime(TruePlan(c), n) * unit
            <= MinimumBudget(RustBackoff.DetectionDelayMs(c) * unit, GoPacingOf(c, unit), n)
  {
    if n > 0 {
      ModelStartsNoLater(c, unit, n - 1);
      ModelPauseNeverLonger(c, unit, n);
      SumTimes(StartTime(TruePlan(c), n - 1), RustBackoff.DetectionDelayMs(c), RustBackoff.IdealInterval(c, n), unit);
      BudgetStep(RustBackoff.DetectionDelayMs(c) * unit, GoPacingOf(c, unit), n);
    }
  }

  /** For up to two retries it is that start, plus what is rounded off the second pause. */
  lemma {:induction false} ModelStartsExactly(c: RustBackoff.Config, unit: nat, n: nat)
    requires c.initialIntervalMs >= 1 && c.backoffCoeffX10 >= 1 && unit >= 1 && n <= 2
    ensures MinimumBudget(RustBackoff.DetectionDelayMs(c) * unit, GoPacingOf(c, unit), n)
            == StartTime(TruePlan(c), n) * unit + (if n == 2 then RoundedOff(c, unit) else 0)
  {
    if n > 0 {
      ModelStartsExactly(c, unit, n - 1);
      FirstTwoPauses(c, unit, n);
      SumTimes(StartTime(TruePlan(c), n - 1), RustBackoff.DetectionDelayMs(c), RustBackoff.IdealInterval(c, n), unit);
      BudgetStep(RustBackoff.DetectionDelayMs(c) * unit, GoPacingOf(c, unit), n);
    }
  }

  /** The call and the detection delay that the interceptor works with for a model configuration. */
  lemma ConfigAsCall(o: Options, c: RustBackoff.Config, unit: nat)
    requires RustBackoff.DetectionDelayMs(c) >= 1 && unit >= 1
    ensures var call := RegularCall(o, GoOptionsOf(c, unit));
            && call == Call(c.scheduleToCloseMs * unit, c.startToCloseMs * unit, c.heartbeatMs * unit,
                            Some(GoPolicyOf(c, unit)), false, RequiredRetries(o))
            && CallDetection(call) == RustBackoff.DetectionDelayMs(c) * unit >= 1
  {
    TimesMonotone(1, RustBackoff.DetectionDelayMs(c), unit);
    if c.heartbeatMs >= 1 {
      TimesMonotone(1, c.heartbeatMs, unit);
    }
  }

  // ---------------------------------------------------------------- from the interceptor to the explored machine

  lemma CancelUnit(x: nat, y: nat, unit: nat)
    requires x * unit <= y * unit && unit >= 1
    ensures x <= y
  {
    assert (y + 1) * unit == y * unit + unit;
    if y + 1 <= x {
      TimesMonotone(y + 1, x, unit);
    }
  }

  lemma RemainderIsLess(x: nat)
    ensures x % WORD <= x
  {}

  /** The cast to 32 bits only ever shortens a pause. */
  lemma CastShortens(c: RustBackoff.Config, n: nat)
    requires RustBackoff.EarlyBreakHarmless(c)
    ensures RustBackoff.RetryInterval(c, n) <= RustBackoff.IdealInterval(c, n)
  {
    RustBackoff.LoopValue(c, n);
    RemainderIsLess(RustBackoff.IdealInterval(c, n));
  }

  lemma {:induction false} CastStartsNoLater(c: RustBackoff.Config, n: nat)
    requires RustBackoff.EarlyBreakHarmless(c)
    ensures StartTime(PlanOf(c), n) <= StartTime(TruePlan(c), n)
  {
    if n > 0 {
      CastStartsNoLater(c, n - 1);
      CastShortens(c, n);
    }
  }

  lemma ForwardedStartFits(o: Options, c: RustBackoff.Config, unit: nat)
    requires RustBackoff.DetectionDelayMs(c) >= 1 && unit >= 1
    requires BudgetEnforced(o) && RequiredRetries(o) >= 1
    requires Allowed(o, RegularCall(o, GoOptionsOf(c, unit)))
    requires AttemptsSuffice(RegularCall(o, GoOptionsOf(c, unit)))
    ensures StartTime(TruePlan(c), RequiredRetries(o)) <= c.scheduleToCloseMs
    ensures c.maxAttempts == 0 || c.maxAttempts > RequiredRetries(o)
  {
    var n := RequiredRetries(o);
    var call := RegularCall(o, GoOptionsOf(c, unit));
    ConfigAsCall(o, c, unit);
    assert !Violated(call, ScheduleToCloseRequired) && !Violated(call, TimeoutsPermitRetries);
    ModelStartsNoLater(c, unit, n);
    CancelUnit(StartTime(TruePlan(c), n), c.scheduleToCloseMs, unit);
  }

  lemma FittingStartInWords(c: RustBackoff.Config, n: nat)
    requires RustBackoff.DetectionDelayMs(c) >= 1 && RustBackoff.EarlyBreakHarmless(c) && n < U32_MAX
    requires Feasible(TruePlan(c), n + 1)
    ensures Starts(Word32, PlanOf(c), n + 1, n + 1)
  {
    CastStartsNoLater(c, n);
    PlanFitsWords(c);
    FeasibleAttemptStartsInWords(PlanOf(c), n + 1, n + 1);
  }

  /** From the interceptor to the explored machine: a configuration that the interceptor lets through, in
      any unit as fine as a millisecond, starts its N-th retry on the timeline of the intended pauses,
      and in the `u32` model too unless the early exit of the interval loop does harm. */
  lemma {:induction false} ForwardedConfigRetriesInModel(o: Options, c: RustBackoff.Config, unit: nat)
    requires RustBackoff.DetectionDelayMs(c) >= 1 && unit >= 1
    requires BudgetEnforced(o) && RequiredRetries(o) >= 1
    requires Allowed(o, RegularCall(o, GoOptionsOf(c, unit)))
    requires AttemptsSuffice(RegularCall(o, GoOptionsOf(c, unit)))
    ensures Starts(Unbounded, TruePlan(c), RequiredRetries(o) + 1, RequiredRetries(o) + 1)
    ensures RustBackoff.EarlyBreakHarmless(c) && RequiredRetries(o) < U32_MAX
            ==> Starts(Word32, PlanOf(c), RequiredRetries(o) + 1, RequiredRetries(o) + 1)
  {
    var n := RequiredRetries(o);
    ForwardedStartFits(o, c, unit);
    AttemptStartsIff(TruePlan(c), n + 1, n + 1);
    if RustBackoff.EarlyBreakHarmless(c) && n < U32_MAX {
      FittingStartInWords(c, n);
    }
  }

  // ---------------------------------------------------------------- the two decisions for two retries

  /** The budget is met to the millisecond, and what is rounded off the second pause exceeds it. */
  predicate RoundingMatters(c: RustBackoff.Config, unit: nat) {
    && 2 * RustBackoff.DetectionDelayMs(c) + c.initialIntervalMs + RustBackoff.IdealInterval(c, 2)
       == c.scheduleToCloseMs
    && RoundedOff(c, unit) > 0
  }

  /** The first two pauses of the interceptor when the initial interval is unset. */
  function DefaultPauses(c: RustBackoff.Config, unit: nat): int {
    var cap := if c.maxIntervalMs == 0 then 100 * SECOND else c.maxIntervalMs * unit;
    Min(cap, SECOND) + Min(cap, SECOND * c.backoffCoeffX10 / 10)
  }

  /** An initial interval of zero: the two detections fit the budget, but with the default pauses they
      do not. */
  predicate DefaultMatters(c: RustBackoff.Config, unit: nat) {
    && c.initialIntervalMs == 0
    && 2 * RustBackoff.DetectionDelayMs(c) <= c.scheduleToCloseMs
    && 2 * (RustBackoff.DetectionDelayMs(c) * unit) + DefaultPauses(c, unit) > c.scheduleToCloseMs * unit
  }

  lemma FitsWithRest(x: nat, y: nat, rest: nat, unit: nat)
    requires rest < unit
    ensures x * unit + rest <= y * unit <==> x < y || (x == y && rest == 0)
  {
    if x < y {
      TimesMonotone(x + 1, y, unit);
    } else {
      TimesMonotone(y, x, unit);
      if x > y {
        TimesMonotone(y + 1, x, unit);
      }
    }
  }

  lemma PermitsIff(c: RustBackoff.Config)
    requires RustBackoff.InterceptorAccepts(c)
    ensures PermitsTwoRetries(c)
            <==> 2 * RustBackoff.DetectionDelayMs(c) + c.initialIntervalMs + RustBackoff.IdealInterval(c, 2) % WORD
                 <= c.scheduleToCloseMs
    ensures RustBackoff.IdealInterval(c, 2) <= RustBackoff.EffectiveMax(c)
    ensures RustBackoff.IdealInterval(c, 2) <= U32_MAX
            ==> RustBackoff.IdealInterval(c, 2) % WORD == RustBackoff.IdealInterval(c, 2)
    ensures c.initialIntervalMs == 0 ==> RustBackoff.IdealInterval(c, 2) == 0
  {
    RustBackoff.FirstPause(c);
    RustBackoff.LoopValue(c, 2);
    ScaledOfZero(c.backoffCoeffX10, 1);
    if RustBackoff.IdealInterval(c, 2) <= U32_MAX {
      RustBackoff.CastKeepsWords(RustBackoff.IdealInterval(c, 2));
    }
  }

  /** The policy, for a model configuration and two required retries. */
  lemma PassesIff(o: Options, c: RustBackoff.Config, unit: nat)
    requires RustBackoff.InterceptorAccepts(c) && unit >= 1 && RequiredRetries(o) == 2
    ensures !Violated(RegularCall(o, GoOptionsOf(c, unit)), TimeoutsPermitRetries)
            <==> MinimumBudget(RustBackoff.DetectionDelayMs(c) * unit, GoPacingOf(c, unit), 2)
                 <= c.scheduleToCloseMs * unit
  {
    ConfigAsCall(o, c, unit);
    TimesMonotone(1, c.scheduleToCloseMs, unit);
  }

  lemma SetIntervalPassesIff(o: Options, c: RustBackoff.Config, unit: nat)
    requires RustBackoff.InterceptorAccepts(c) && c.initialIntervalMs >= 1 && unit >= 1 && RequiredRetries(o) == 2
    ensures !Violated(RegularCall(o, GoOptionsOf(c, unit)), TimeoutsPermitRetries)
            <==> && 2 * RustBackoff.DetectionDelayMs(c) + c.initialIntervalMs + RustBackoff.IdealInterval(c, 2)
                    <= c.scheduleToCloseMs
                 && !RoundingMatters(c, unit)
  {
    PassesIff(o, c, unit);
    ModelStartsExactly(c, unit, 2);
    RoundedOffIsLess(c, unit);
    ThirdStart(TruePlan(c));
    RustBackoff.FirstPause(c);
    FitsWithRest(StartTime(TruePlan(c), 2), c.scheduleToCloseMs, RoundedOff(c, unit), unit);
  }

  lemma DefaultBudget(c: RustBackoff.Config, unit: nat, detect: int)
    requires c.initialIntervalMs == 0 && c.backoffCoeffX10 >= 10 && unit >= 1
    ensures MinimumBudget(detect, GoPacingOf(c, unit), 2) == 2 * detect + DefaultPauses(c, unit)
    ensures DefaultPauses(c, unit) >= 0
  {
    var cap := if c.maxIntervalMs == 0 then 100 * SECOND else c.maxIntervalMs * unit;
    var b := GoPacingOf(c, unit);
    if c.maxIntervalMs > 0 {
      TimesMonotone(1, c.maxIntervalMs, unit);
    }
    assert b == Pacing(SECOND, Tenths(c.backoffCoeffX10), cap);
    FirstTwoIntervals(SECOND, c.backoffCoeffX10, cap);
    assert TotalPause(b, 0) == 0;
    assert TotalPause(b, 1) == RetryInterval(b, 1);
    assert TotalPause(b, 2) == RetryInterval(b, 1) + RetryInterval(b, 2);
  }

  lemma DetectionsTooLong(detect: nat, deadline: nat, unit: nat)
    requires unit >= 1
    ensures 2 * detect > deadline ==> 2 * (detect * unit) > deadline * unit
  {
    assert 2 * (detect * unit) == 2 * detect * unit;
    if 2 * detect > deadline {
      TimesMonotone(deadline + 1, 2 * detect, unit);
    }
  }

  lemma UnsetIntervalPassesIff(o: Options, c: RustBackoff.Config, unit: nat)
    requires RustBackoff.InterceptorAccepts(c) && c.initialIntervalMs == 0 && unit >= 1 && RequiredRetries(o) == 2
    ensures !Violated(RegularCall(o, GoOptionsOf(c, unit)), TimeoutsPermitRetries)
            <==> 2 * RustBackoff.DetectionDelayMs(c) <= c.scheduleToCloseMs && !DefaultMatters(c, unit)
  {
    PassesIff(o, c, unit);
    DefaultBudget(c, unit, RustBackoff.DetectionDelayMs(c) * unit);
    DetectionsTooLong(RustBackoff.DetectionDelayMs(c), c.scheduleToCloseMs, unit);
  }

  /** For two retries, and in whatever unit, the timeouts policy and the closed form decide alike if and
      only if none of three things matters: the cast to 32 bits, the rounding to milliseconds, and the
      reading of an initial interval of zero. Where they differ the policy is the stricter one. */
  lemma GoAndModelDecideAlikeIff(o: Options, c: RustBackoff.Config, unit: nat)
    requires RustBackoff.InterceptorAccepts(c) && unit >= 1 && RequiredRetries(o) == 2
    ensures (PermitsTwoRetries(c) <==> !Violated(RegularCall(o, GoOptionsOf(c, unit)), TimeoutsPermitRetries))
            <==> !TruncationMatters(c) && !RoundingMatters(c, unit) && !DefaultMatters(c, unit)
    ensures !Violated(RegularCall(o, GoOptionsOf(c, unit)), TimeoutsPermitRetries) ==> PermitsTwoRetries(c)
    ensures unit == 1 ==> !RoundingMatters(c, unit)
    ensures RustBackoff.EffectiveMax(c) <= U32_MAX ==> !TruncationMatters(c)
  {
    PermitsIff(c);
    RoundedOffIsLess(c, unit);
    if c.initialIntervalMs == 0 {
      UnsetIntervalPassesIff(o, c, unit);
    } else {
      SetIntervalPassesIff(o, c, unit);
    }
  }

  /** In Go's nanoseconds a budget of 22ms, enough for the closed form, lacks a tenth of a millisecond. */
  lemma RoundingCounterexample()
    ensures var c := RustBackoff.Config(22, 10, 10, 1, 0, 11, 0);
            PermitsTwoRetries(c)
            && Violated(RegularCall(Options(map[], None), GoOptionsOf(c, 1_000_000)), TimeoutsPermitRetries)
  {
    var c := RustBackoff.Config(22, 10, 10, 1, 0, 11, 0);
    assert RustBackoff.Scaled(1, 11, 0) == 1;
    assert RustBackoff.Scaled(1, 11, 1) == 1;
    RustBackoff.FirstPause(c);
    RustBackoff.LoopValue(c, 2);
    GoAndModelDecideAlikeIff(Options(map[], None), c, 1_000_000);
  }

  /** An initial interval of zero is no pause to the closed form, and a second to the interceptor. */
  lemma ZeroIntervalCounterexample()
    ensures var c := RustBackoff.Config(20, 10, 10, 0, 0, 20, 0);
            PermitsTwoRetries(c)
            && Violated(RegularCall(Options(map[], None), GoOptionsOf(c, 1_000_000)), TimeoutsPermitRetries)
  {
    var c := RustBackoff.Config(20, 10, 10, 0, 0, 20, 0);
    ScaledOfZero(20, 0);
    ScaledOfZero(20, 1);
    RustBackoff.LoopValue(c, 1);
    RustBackoff.LoopValue(c, 2);
    GoAndModelDecideAlikeIff(Options(map[], None), c, 1_000_000);
  }

  /** What the formal model calls accepted: the interceptor's first two policies, and the older budget rule
      in place of its third; beside that, timeouts in order and a well-formed backoff. */
  lemma AcceptedIffPolicies(o: Options, c: RustBackoff.Config, unit: nat)
    requires unit >= 1
    ensures var call := RegularCall(o, GoOptionsOf(c, unit));
            var wellFormed := && 1 <= c.startToCloseMs <= c.scheduleToCloseMs && c.heartbeatMs <= c.startToCloseMs
                              && (c.maxIntervalMs == 0 || c.initialIntervalMs <= c.maxIntervalMs)
                              && Tenths(c.backoffCoeffX10) >= 1.0;
            RustBackoff.InterceptorAccepts(c)
            <==> && wellFormed
                 && !Violated(call, ScheduleToCloseRequired) && !Violated(call, MaxAttemptsTooLow)
                 && (c.heartbeatMs > 0 || 10 * c.scheduleToCloseMs >= 21 * c.startToCloseMs)
  {
    if c.scheduleToCloseMs >= 1 {
      TimesMonotone(1, c.scheduleToCloseMs, unit);
    }
  }
}
