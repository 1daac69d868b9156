/**
 Configurations of the formal model and the backoff they schedule. The loop of the original runs in
 saturating `u64` arithmetic and stops early; `RetryIntervalMs` proves what it computes for every
 configuration, and the lemmas say exactly when that is the documented interval.
 */
module RustBackoff {
  import opened Words

  datatype Config = Config(
    scheduleToCloseMs: u32,
    startToCloseMs: u32,
    heartbeatMs: u32,       // 0: unset
    initialIntervalMs: u32,
    maxIntervalMs: u32,     // 0: unset, 100 times the initial interval
    backoffCoeffX10: u32,   // ten times the backoff coefficient
    maxAttempts: u32)       // 0: unlimited

  predicate InterceptorAccepts(c: Config) {
    && c.scheduleToCloseMs != 0
    && c.startToCloseMs != 0
    && c.startToCloseMs <= c.scheduleToCloseMs
    && c.maxAttempts != 1 && c.maxAttempts != 2
    && (if c.heartbeatMs == 0
        then c.scheduleToCloseMs >= (21 * c.startToCloseMs + 9) / 10
        else c.heartbeatMs <= c.startToCloseMs)
    && (c.maxIntervalMs == 0 || c.initialIntervalMs <= c.maxIntervalMs)
    && c.backoffCoeffX10 >= 10
  }

  function DetectionDelayMs(c: Config): (d: u32)
    ensures InterceptorAccepts(c) ==> 1 <= d <= c.scheduleToCloseMs
  {
    if c.heartbeatMs > 0 then c.heartbeatMs else c.startToCloseMs
  }

  // ---------------------------------------------------------------- intervals

  function EffectiveMax(c: Config): nat {
    if c.maxIntervalMs == 0 then c.initialIntervalMs * 100 else c.maxIntervalMs
  }

  /** k rounds of x -> floor(x * coeff / 10). */
  function Scaled(initial: nat, coeffX10: nat, k: nat): nat {
    if k == 0 then initial else Scaled(initial, coeffX10, k - 1) * coeffX10 / 10
  }

  /** The interval meant for the pause after attempt n, in unbounded integers. */
  function IdealInterval(c: Config, n: nat): nat {
    Min(EffectiveMax(c), Scaled(c.initialIntervalMs, c.backoffCoeffX10, if n == 0 then 0 else n - 1))
  }

  /** The guard under which stopping early is harmless: a coefficient of at least 1.0, or a first
      scaling that already falls below the cap, or no pause at all. */
  predicate EarlyBreakHarmless(c: Config) {
    || c.backoffCoeffX10 >= 10
    || c.initialIntervalMs * c.backoffCoeffX10 / 10 < EffectiveMax(c)
    || EffectiveMax(c) == 0
  }

  /** The loop of the original with `rounds` iterations to go: the product saturates in `u64`, and
      reaching the cap ends the loop. */
  function LoopFrom(c: Config, interval: nat, rounds: nat): nat
    decreases rounds
  {
    if rounds == 0 then interval
    else
      var next := SaturatingMul64(interval, c.backoffCoeffX10) / 10;
      if next >= EffectiveMax(c) then EffectiveMax(c) else LoopFrom(c, next, rounds - 1)
  }

  /** What the loop arrives at, clamped, before the final cast to `u32`. */
  function LoopInterval(c: Config, n: nat): nat {
    Min(LoopFrom(c, c.initialIntervalMs, if n == 0 then 0 else n - 1), EffectiveMax(c))
  }

  /** What is returned: `as u32` keeps the low 32 bits. */
  function RetryInterval(c: Config, n: nat): (r: u32) {
    LoopInterval(c, n) % WORD
  }

  lemma CastKeepsWords(x: nat)
    requires x <= U32_MAX
    ensures x % WORD == x
  {}

  lemma GrowsBy(x: nat, coeffX10: nat)
    requires coeffX10 >= 10
    ensures x <= x * coeffX10 / 10
  {
    assert x * coeffX10 >= x * 10;
  }

  lemma ShrinksBy(x: nat, coeffX10: nat)
    requires coeffX10 < 10
    ensures x * coeffX10 / 10 <= x && (x > 0 ==> x * coeffX10 / 10 < x)
  {
    assert x * coeffX10 <= x * 9;
  }

  lemma {:induction false} ScaledMonotone(initial: nat, coeffX10: nat, j: nat, k: nat)
    requires j <= k
    ensures coeffX10 >= 10 ==> Scaled(initial, coeffX10, j) <= Scaled(initial, coeffX10, k)
    ensures coeffX10 < 10 ==> Scaled(initial, coeffX10, k) <= Scaled(initial, coeffX10, j)
  {
    if j < k {
      ScaledMonotone(initial, coeffX10, j, k - 1);
      if coeffX10 >= 10 {
        GrowsBy(Scaled(initial, coeffX10, k - 1), coeffX10);
      } else {
        ShrinksBy(Scaled(initial, coeffX10, k - 1), coeffX10);
      }
    }
  }

  /** Saturating or not, a scaled value has the same side of the cap, and the same value below it. */
  lemma SaturationOnlyAboveCap(c: Config, x: nat)
    ensures var fast := SaturatingMul64(x, c.backoffCoeffX10) / 10;
            var exact := x * c.backoffCoeffX10 / 10;
            (fast >= EffectiveMax(c) <==> exact >= EffectiveMax(c)) && (fast < EffectiveMax(c) ==> fast == exact)
  {
    assert EffectiveMax(c) <= U32_MAX * 100;
  }

  /** From a value that is below the cap, or was never scaled, the loop gives the scaled value up to the
      clamp, if scaling does not shrink; and exactly the scaled value if it does. */
  lemma {:induction false} LoopScales(c: Config, j: nat, rounds: nat)
    requires c.backoffCoeffX10 >= 10 || Scaled(c.initialIntervalMs, c.backoffCoeffX10, j) < EffectiveMax(c)
    ensures var x := LoopFrom(c, Scaled(c.initialIntervalMs, c.backoffCoeffX10, j), rounds);
            Min(x, EffectiveMax(c)) == Min(Scaled(c.initialIntervalMs, c.backoffCoeffX10, j + rounds), EffectiveMax(c))
    decreases rounds
  {
    var initial: nat := c.initialIntervalMs;
    var coeff: nat := c.backoffCoeffX10;
    if rounds > 0 {
      SaturationOnlyAboveCap(c, Scaled(initial, coeff, j));
      ScaledMonotone(initial, coeff, j, j + 1);
      ScaledMonotone(initial, coeff, j + 1, j + rounds);
      if Scaled(initial, coeff, j + 1) < EffectiveMax(c) {
        LoopScales(c, j + 1, rounds - 1);
      }
    }
  }

  /** What the loop arrives at: the interval meant, or, where stopping early does harm, always the cap. */
  lemma LoopValue(c: Config, n: nat)
    ensures LoopInterval(c, n) == if EarlyBreakHarmless(c) then IdealInterval(c, n) else EffectiveMax(c)
  {
    var initial: nat := c.initialIntervalMs;
    var coeff: nat := c.backoffCoeffX10;
    assert Scaled(initial, coeff, 0) == initial;
    assert Scaled(initial, coeff, 1) == initial * coeff / 10;
    SaturationOnlyAboveCap(c, initial);
    if coeff >= 10 {
      LoopScales(c, 0, if n == 0 then 0 else n - 1);
    } else {
      ShrinksBy(initial, coeff);
      if n >= 2 && Scaled(initial, coeff, 1) < EffectiveMax(c) {
        LoopScales(c, 1, n - 2);
      }
    }
  }

  /** The loop: for a coefficient of at least 1.0 it returns min(cap, scaled interval), truncated to 32
      bits; and that for every configuration except where stopping early does harm. */
  method RetryIntervalMs(c: Config, attemptJustFailed: u32) returns (r: u32)
    ensures r == RetryInterval(c, attemptJustFailed)
    ensures r == (if EarlyBreakHarmless(c) then IdealInterval(c, attemptJustFailed) else EffectiveMax(c)) % WORD
  {
    LoopValue(c, attemptJustFailed);
    var maxInterval: nat := if c.maxIntervalMs == 0 then SaturatingMul64(c.initialIntervalMs, 100) else c.maxIntervalMs;
    var interval: nat := c.initialIntervalMs;
    ghost var rounds: nat := if attemptJustFailed == 0 then 0 else attemptJustFailed - 1;
    var i := 1;
    while i < attemptJustFailed
      invariant 1 <= i <= rounds + 1
      invariant maxInterval == EffectiveMax(c)
      invariant LoopFrom(c, interval, rounds + 1 - i) == LoopFrom(c, c.initialIntervalMs, rounds)
    {
      interval := SaturatingMul64(interval, c.backoffCoeffX10) / 10;
      if interval >= maxInterval {
        interval := maxInterval;
        break;
      }
      i := i + 1;
    }
    r := Min(interval, maxInterval) % WORD;
  }

  // ---------------------------------------------------------------- when the loop is right

  lemma {:induction false} ShrinkingScaleReachesZero(initial: nat, coeffX10: nat, j: nat, k: nat)
    requires coeffX10 < 10
    ensures Scaled(initial, coeffX10, j + k) <= Max(0, Scaled(initial, coeffX10, j) - k)
  {
    if k > 0 {
      ShrinkingScaleReachesZero(initial, coeffX10, j, k - 1);
      ShrinksBy(Scaled(initial, coeffX10, j + k - 1), coeffX10);
    }
  }

  /** By the last attempt a `u32` can count, a shrinking pause has come down to nothing. */
  lemma LastPauseIsZero(c: Config)
    requires c.backoffCoeffX10 < 10
    ensures IdealInterval(c, U32_MAX) == 0
  {
    var first := Scaled(c.initialIntervalMs, c.backoffCoeffX10, 1);
    assert Scaled(c.initialIntervalMs, c.backoffCoeffX10, 0) == c.initialIntervalMs;
    assert first == c.initialIntervalMs * c.backoffCoeffX10 / 10 <= U32_MAX * 9 / 10;
    ShrinkingScaleReachesZero(c.initialIntervalMs, c.backoffCoeffX10, 1, U32_MAX - 2);
  }

  /** Where stopping early does harm, the last pause is the cap, a 32-bit number, instead of nothing. */
  lemma EarlyBreakHarms(c: Config)
    requires !EarlyBreakHarmless(c)
    ensures RetryInterval(c, U32_MAX) == EffectiveMax(c) > 0 == IdealInterval(c, U32_MAX)
  {
    LastPauseIsZero(c);
    LoopValue(c, U32_MAX);
    ShrinksBy(c.initialIntervalMs, c.backoffCoeffX10);
    CastKeepsWords(EffectiveMax(c));
  }

  /** The early exit changes what is returned for some attempt exactly when the guard fails. */
  lemma EarlyBreakExactIff(c: Config)
    ensures (forall n: u32 :: RetryInterval(c, n) == IdealInterval(c, n) % WORD) <==> EarlyBreakHarmless(c)
  {
    if EarlyBreakHarmless(c) {
      forall n: u32
        ensures RetryInterval(c, n) == IdealInterval(c, n) % WORD
      {
        LoopValue(c, n);
      }
    } else {
      EarlyBreakHarms(c);
      var n: u32 := U32_MAX;
      CastKeepsWords(0);
      assert RetryInterval(c, n) != IdealInterval(c, n) % WORD;
    }
  }

  /** A pause that grows by a tenth and starts high enough for its cap to exceed 32 bits does exceed them. */
  lemma {:induction false} GrowingScaleLeavesWords(initial: nat, coeffX10: nat, k: nat)
    requires coeffX10 >= 11 && initial >= 42_949_673
    ensures Scaled(initial, coeffX10, k) >= initial + k * 4_000_000
  {
    if k > 0 {
      GrowingScaleLeavesWords(initial, coeffX10, k - 1);
      var x := Scaled(initial, coeffX10, k - 1);
      assert x * coeffX10 >= x * 11;
      assert x * 11 / 10 >= x + 4_000_000;
    }
  }

  /** Stopping early is harmless, and either the cap is a 32-bit number or the pauses do not grow. */
  predicate NothingLost(c: Config) {
    EarlyBreakHarmless(c) && (EffectiveMax(c) <= U32_MAX || c.backoffCoeffX10 <= 10)
  }

  lemma SomeIntervalIsLost(c: Config) returns (n: u32)
    requires !NothingLost(c)
    ensures RetryInterval(c, n) != IdealInterval(c, n)
  {
    if EarlyBreakHarmless(c) {
      n := 1101;
      GrowingScaleLeavesWords(c.initialIntervalMs, c.backoffCoeffX10, 1100);
      assert IdealInterval(c, n) > U32_MAX;
    } else {
      n := U32_MAX;
      EarlyBreakHarms(c);
    }
  }

  lemma {:induction false} NoIntervalIsLost(c: Config, n: nat)
    requires NothingLost(c)
    ensures RetryInterval(c, n) == IdealInterval(c, n)
  {
    LoopValue(c, n);
    FlatOrCapped(c, n);
    CastKeepsWords(IdealInterval(c, n));
  }

  /** When nothing at all is lost, to the early exit or to the cast: for every attempt the interval
      returned is the one meant, if and only if stopping early is harmless and either the cap is a
      32-bit number or the pauses do not grow. */
  lemma IntervalsExactIff(c: Config)
    ensures (forall n: u32 :: RetryInterval(c, n) == IdealInterval(c, n)) <==> NothingLost(c)
  {
    if NothingLost(c) {
      forall n: u32
        ensures RetryInterval(c, n) == IdealInterval(c, n)
      {
        NoIntervalIsLost(c, n);
      }
    } else {
      var n := SomeIntervalIsLost(c);
    }
  }

  lemma {:induction false} FlatOrCapped(c: Config, n: nat)
    requires EffectiveMax(c) <= U32_MAX || c.backoffCoeffX10 <= 10
    ensures IdealInterval(c, n) <= U32_MAX
  {
    if c.backoffCoeffX10 <= 10 {
      NotGrowing(c.initialIntervalMs, c.backoffCoeffX10, if n == 0 then 0 else n - 1);
    }
  }

  lemma {:induction false} NotGrowing(initial: nat, coeffX10: nat, k: nat)
    requires coeffX10 <= 10
    ensures Scaled(initial, coeffX10, k) <= initial
  {
    if k > 0 {
      NotGrowing(initial, coeffX10, k - 1);
      assert Scaled(initial, coeffX10, k - 1) * coeffX10 <= Scaled(initial, coeffX10, k - 1) * 10;
    }
  }

  /** A shrinking backoff whose early exit pins every later pause at the cap: 80ms instead of 72ms. */
  lemma EarlyBreakCounterexample()
    ensures var c := Config(1000, 100, 0, 100, 80, 9, 0);
            RetryInterval(c, 4) == 80 && IdealInterval(c, 4) == 72
  {
    assert Scaled(100, 9, 1) == 90;
    assert Scaled(100, 9, 2) == 81;
    assert Scaled(100, 9, 3) == 72;
    LoopValue(Config(1000, 100, 0, 100, 80, 9, 0), 4);
  }

  /** With a coefficient of at least 1.0 no pause is shorter than the one before, or above the cap. */
  lemma {:induction false} PausesNeverShrink(c: Config, n: nat)
    requires c.backoffCoeffX10 >= 10
    ensures IdealInterval(c, n) <= IdealInterval(c, n + 1) <= EffectiveMax(c)
  {
    ScaledMonotone(c.initialIntervalMs, c.backoffCoeffX10, if n == 0 then 0 else n - 1, n);
  }

  /** The first pause is the initial interval: an accepted cap is never below it. */
  lemma {:induction false} FirstPause(c: Config)
    requires InterceptorAccepts(c)
    ensures IdealInterval(c, 1) == c.initialIntervalMs == RetryInterval(c, 1)
  {
    assert c.initialIntervalMs <= EffectiveMax(c);
    assert Scaled(c.initialIntervalMs, c.backoffCoeffX10, 0) == c.initialIntervalMs;
    LoopValue(c, 1);
    CastKeepsWords(c.initialIntervalMs);
  }

  /** In particular for an accepted configuration whose cap is a 32-bit number. */
  lemma AcceptedIntervalsAreIdeal(c: Config, n: nat)
    requires InterceptorAccepts(c) && EffectiveMax(c) <= U32_MAX
    ensures RetryInterval(c, n) == IdealInterval(c, n)
  {
    NoIntervalIsLost(c, n);
  }
}
