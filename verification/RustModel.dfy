/**
 The formal model of the repository: which configurations permit two retries, decided by a closed
 form, and the exhaustive search that the closed form is meant to predict. The repository compares
 the two on a finite grid; here they are compared on every configuration.
 */
module RustModel {
  import opened Wrappers
  import opened Words
  import opened RustBackoff
  import opened Timeline
  import opened WordTimeline

  /** The closed form: two detections and the first two pauses fit the budget. */
  predicate PermitsTwoRetries(c: Config) {
    && InterceptorAccepts(c)
    && (c.maxAttempts == 0 || c.maxAttempts >= 3)
    && 2 * DetectionDelayMs(c) + RetryInterval(c, 1) + RetryInterval(c, 2) <= c.scheduleToCloseMs
  }

  /** The plan the model runs, with its 32-bit intervals. */
  function PlanOf(c: Config): Plan {
    Plan(c.scheduleToCloseMs, _ => CRASH_DELAY_MS, _ => DetectionDelayMs(c), n => RetryInterval(c, n), c.maxAttempts)
  }

  /** The plan a server follows, with the intervals meant. */
  function TruePlan(c: Config): Plan {
    Plan(c.scheduleToCloseMs, _ => CRASH_DELAY_MS, _ => DetectionDelayMs(c), n => IdealInterval(c, n), c.maxAttempts)
  }

  const SATISFIED: nat := 3

  lemma ThirdStart(p: Plan)
    ensures StartTime(p, 2) == p.detect(1) + p.interval(1) + p.detect(2) + p.interval(2)
  {
    assert StartTime(p, 1) == StartTime(p, 0) + p.detect(1) + p.interval(1);
  }

  lemma PlanFitsWords(c: Config)
    ensures FitsWords(PlanOf(c))
  {}

  // ---------------------------------------------------------------- closed form and timeline

  /** For every accepted configuration the closed form decides whether a third attempt starts. */
  lemma ClosedFormDecidesThirdAttempt(c: Config)
    requires InterceptorAccepts(c)
    ensures PermitsTwoRetries(c) <==> Starts(Unbounded, PlanOf(c), SATISFIED, 3)
  {
    AttemptStartsIff(PlanOf(c), SATISFIED, 3);
    ThirdStart(PlanOf(c));
  }

  /** The same of the `u32` machine that the repository explores, under the guard. */
  lemma ClosedFormDecidesWordMachine(c: Config)
    requires InterceptorAccepts(c) && WordSafe(c.scheduleToCloseMs, DetectionDelayMs(c))
    ensures PermitsTwoRetries(c) <==> Starts(Word32, PlanOf(c), SATISFIED, 3)
  {
    PlanFitsWords(c);
    WordStartsIffExact(PlanOf(c), SATISFIED, 3);
    ClosedFormDecidesThirdAttempt(c);
  }

  /** What the closed form accepts the `u32` machine reaches, guard or no guard. */
  lemma ClosedFormIsSoundInWords(c: Config)
    requires PermitsTwoRetries(c)
    ensures Starts(Word32, PlanOf(c), SATISFIED, 3)
  {
    PlanFitsWords(c);
    ThirdStart(PlanOf(c));
    FeasibleAttemptStartsInWords(PlanOf(c), SATISFIED, 3);
  }

  /** What the 2.1 ratio without a heartbeat is worth: beside the two detections it sets aside a tenth of
      the start-to-close timeout for both pauses, and at the least budget it admits, no more than that. */
  lemma RatioReservesATenth(c: Config)
    requires InterceptorAccepts(c) && c.heartbeatMs == 0
    ensures var reserve := (c.startToCloseMs + 9) / 10;
            && (RetryInterval(c, 1) + RetryInterval(c, 2) <= reserve ==> PermitsTwoRetries(c))
            && (c.scheduleToCloseMs == 2 * c.startToCloseMs + reserve && PermitsTwoRetries(c)
                ==> RetryInterval(c, 1) + RetryInterval(c, 2) <= reserve)
            && c.scheduleToCloseMs >= 2 * c.startToCloseMs + reserve
  {
    assert (21 * c.startToCloseMs + 9) / 10 == 2 * c.startToCloseMs + (c.startToCloseMs + 9) / 10;
  }

  // ---------------------------------------------------------------- how far 32 bits carry

  /** Configuration that gains a third attempt from a sum wrapping around in the second detection,
      or, at the very last deadline, from a saturated backoff. */
  function WrappingConfig(deadline: u32, detect: u32): (c: Config)
    requires 1 <= detect <= deadline && !WordSafe(deadline, detect)
    ensures InterceptorAccepts(c) && c.scheduleToCloseMs == deadline && DetectionDelayMs(c) == detect
  {
    Config(deadline, detect, detect, if deadline == U32_MAX then U32_MAX else deadline - 1 - detect, 0, 10, 0)
  }

  lemma ConstantBackoff(c: Config)
    requires c.backoffCoeffX10 == 10 && c.maxIntervalMs == 0
    ensures RetryInterval(c, 1) == RetryInterval(c, 2) == c.initialIntervalMs
  {
    assert Scaled(c.initialIntervalMs, 10, 0) == c.initialIntervalMs;
    assert Scaled(c.initialIntervalMs, 10, 1) == c.initialIntervalMs;
    LoopValue(c, 1);
    LoopValue(c, 2);
    CastKeepsWords(c.initialIntervalMs);
  }

  /** The configuration gains a third attempt from 32-bit arithmetic. */
  predicate Gains(c: Config) {
    GainsThird(c.scheduleToCloseMs, DetectionDelayMs(c), RetryInterval(c, 1), RetryInterval(c, 2))
  }

  /** The `u32` machine, for every accepted configuration: it starts a third attempt exactly when the
      closed form allows it or the arithmetic gains it, and never for both reasons. */
  lemma WordMachineThirdIff(c: Config)
    requires InterceptorAccepts(c)
    ensures Starts(Word32, PlanOf(c), SATISFIED, 3) <==> PermitsTwoRetries(c) || Gains(c)
    ensures !(PermitsTwoRetries(c) && Gains(c))
  {
    PlanFitsWords(c);
    ThirdAttemptInWordsIff(PlanOf(c));
  }

  /** Outside the guard there is always one that does. */
  lemma WrappedThirdAttempt(deadline: u32, detect: u32)
    requires 1 <= detect <= deadline && !WordSafe(deadline, detect)
    ensures var c := WrappingConfig(deadline, detect);
            Starts(Word32, PlanOf(c), SATISFIED, 3) && !PermitsTwoRetries(c)
  {
    var c := WrappingConfig(deadline, detect);
    ConstantBackoff(c);
    WordMachineThirdIff(c);
  }

  /** The exact reach of the `u32` machine: for a given deadline and detection delay it agrees with
      the closed form on every configuration if and only if the guard holds. */
  lemma WordMachineExactIff(deadline: u32, detect: u32)
    requires 1 <= detect <= deadline
    ensures (forall c: Config ::
               InterceptorAccepts(c) && c.scheduleToCloseMs == deadline && DetectionDelayMs(c) == detect
               ==> (PermitsTwoRetries(c) <==> Starts(Word32, PlanOf(c), SATISFIED, 3)))
            <==> WordSafe(deadline, detect)
  {
    if WordSafe(deadline, detect) {
      forall c: Config | InterceptorAccepts(c) && c.scheduleToCloseMs == deadline && DetectionDelayMs(c) == detect
        ensures PermitsTwoRetries(c) <==> Starts(Word32, PlanOf(c), SATISFIED, 3)
      {
        ClosedFormDecidesWordMachine(c);
      }
    } else {
      var c := WrappingConfig(deadline, detect);
      WrappedThirdAttempt(deadline, detect);
      assert InterceptorAccepts(c) && c.scheduleToCloseMs == deadline && DetectionDelayMs(c) == detect;
    }
  }

  // ---------------------------------------------------------------- how far 32-bit intervals carry

  /** The second pause loses high bits in the cast, and the rest of it fits the budget. */
  predicate TruncationMatters(c: Config) {
    && IdealInterval(c, 2) > U32_MAX
    && (c.maxAttempts == 0 || c.maxAttempts >= 3)
    && 2 * DetectionDelayMs(c) + c.initialIntervalMs + IdealInterval(c, 2) % WORD <= c.scheduleToCloseMs
  }

  /** The closed form tells the truth about the intended intervals exactly when truncation does not
      matter; a 32-bit cap rules it out. */
  lemma ClosedFormTrueIff(c: Config)
    requires InterceptorAccepts(c)
    ensures (PermitsTwoRetries(c) <==> Starts(Unbounded, TruePlan(c), SATISFIED, 3)) <==> !TruncationMatters(c)
    ensures EffectiveMax(c) <= U32_MAX ==> !TruncationMatters(c)
  {
    AttemptStartsIff(TruePlan(c), SATISFIED, 3);
    ThirdStart(TruePlan(c));
    FirstPause(c);
    LoopValue(c, 2);
    if IdealInterval(c, 2) <= U32_MAX {
      CastKeepsWords(IdealInterval(c, 2));
    }
  }

  /** The same backoff: initial interval, maximum and coefficient. */
  predicate SameBackoff(b: Config, c: Config) {
    && c.initialIntervalMs == b.initialIntervalMs
    && c.maxIntervalMs == b.maxIntervalMs
    && c.backoffCoeffX10 == b.backoffCoeffX10
  }

  ghost predicate ClosedFormTrue(c: Config) {
    PermitsTwoRetries(c) <==> Starts(Unbounded, TruePlan(c), SATISFIED, 3)
  }

  /** On the backoff alone: the second pause is a 32-bit number, or what the cast leaves of it, with the
      first pause and two detections of 1ms, is beyond the last deadline. */
  predicate TruncationSafe(b: Config) {
    IdealInterval(b, 2) <= U32_MAX || b.initialIntervalMs + IdealInterval(b, 2) % WORD > U32_MAX - 2
  }

  /** The closed form tells the truth on every accepted configuration with a given backoff if and only if
      that backoff is safe. */
  lemma ClosedFormTrueForBackoffIff(b: Config)
    requires InterceptorAccepts(b)
    ensures TruncationSafe(b)
            <==> forall c: Config :: InterceptorAccepts(c) && SameBackoff(b, c) ==> ClosedFormTrue(c)
  {
    forall c: Config | InterceptorAccepts(c) && SameBackoff(b, c)
      ensures ClosedFormTrue(c) <==> !TruncationMatters(c)
      ensures IdealInterval(c, 2) == IdealInterval(b, 2)
    {
      ClosedFormTrueIff(c);
    }
    if !TruncationSafe(b) {
      var c := Config(U32_MAX, 1, 1, b.initialIntervalMs, b.maxIntervalMs, b.backoffCoeffX10, 0);
      assert InterceptorAccepts(c) && SameBackoff(b, c);
      assert TruncationMatters(c);
    }
  }

  /** It does matter for some: a pause of 2^32 ms, cast to zero, passes a 2^31 + 2 ms budget. */
  lemma TruncationCounterexample()
    ensures var c := Config(0x8000_0002, 1, 1, 0x8000_0000, 0, 20, 0);
            PermitsTwoRetries(c) && !Starts(Unbounded, TruePlan(c), SATISFIED, 3)
  {
    var c := Config(0x8000_0002, 1, 1, 0x8000_0000, 0, 20, 0);
    assert Scaled(0x8000_0000, 20, 0) == 0x8000_0000;
    assert Scaled(0x8000_0000, 20, 1) == WORD;
    assert IdealInterval(c, 2) == WORD;
    FirstPause(c);
    ClosedFormTrueIff(c);
  }

  // ---------------------------------------------------------------- the search

  datatype Filter = InterceptorCurrent | StrictPermitsTwoRetries

  predicate FilterAccepts(f: Filter, c: Config) {
    match f
    case InterceptorCurrent => InterceptorAccepts(c)
    case StrictPermitsTwoRetries => PermitsTwoRetries(c)
  }

  datatype Search = Search(configs: seq<Config>, filter: Filter)

  /** The configurations that get an initial state. */
  function InitConfigs(configs: seq<Config>, f: Filter): (kept: seq<Config>)
    ensures forall c :: c in kept <==> c in configs && FilterAccepts(f, c)
    ensures f.InterceptorCurrent? ==> forall c :: c in kept <==> c in configs && InterceptorAccepts(c)
    ensures f.StrictPermitsTwoRetries? ==> forall c :: c in kept <==> c in configs && PermitsTwoRetries(c)
  {
    if configs == [] then []
    else (if FilterAccepts(f, configs[0]) then [configs[0]] else []) + InitConfigs(configs[1..], f)
  }

  /** The property checked at a state: three attempts have started, or there is still a step to take. */
  predicate NotStuckEarly(p: Plan, s: Sim) {
    s.attempts >= SATISFIED || Offered(Word32, p, SATISFIED, s).Some?
  }

  ghost predicate HoldsFor(c: Config) {
    forall n: nat :: StateAfter(Word32, PlanOf(c), SATISFIED, n).Some?
                     ==> NotStuckEarly(PlanOf(c), StateAfter(Word32, PlanOf(c), SATISFIED, n).value)
  }

  ghost predicate SearchHolds(s: Search) {
    forall c :: c in InitConfigs(s.configs, s.filter) ==> HoldsFor(c)
  }

  /** What the closed form accepts never gets stuck early, guard or no guard. */
  lemma {:induction false} PermittedNeverStuck(c: Config, n: nat)
    requires PermitsTwoRetries(c)
    requires StateAfter(Word32, PlanOf(c), SATISFIED, n).Some?
    ensures NotStuckEarly(PlanOf(c), StateAfter(Word32, PlanOf(c), SATISFIED, n).value)
  {
    PlanFitsWords(c);
    ThirdStart(PlanOf(c));
    FeasibleAttemptStartsInWords(PlanOf(c), SATISFIED, 3);
    if n < 7 {
      NotStuckBefore(Word32, PlanOf(c), SATISFIED, n, 7);
    } else if n > 7 {
      NotStuckBefore(Word32, PlanOf(c), SATISFIED, 7, n);
    }
  }

  /** The property holds of all states of a configuration, accepted or not, exactly when the explored
      machine starts a third attempt. */
  lemma PropertyMeansThirdAttempt(c: Config)
    ensures HoldsFor(c) <==> Starts(Word32, PlanOf(c), SATISFIED, 3)
  {
    var p := PlanOf(c);
    if StateAfter(Word32, p, SATISFIED, 14).Some? {
      AttemptsRunOut(Word32, p, SATISFIED, 14);
    }
    var m := EveryRunHalts(Word32, p, SATISFIED, 14);
    HaltDecides(Word32, p, SATISFIED, m, 3);
    if StateAfter(Word32, p, SATISFIED, m).value.attempts >= SATISFIED {
      forall n: nat | StateAfter(Word32, p, SATISFIED, n).Some?
        ensures NotStuckEarly(p, StateAfter(Word32, p, SATISFIED, n).value)
      {
        if n < m {
          NotStuckBefore(Word32, p, SATISFIED, n, m);
        } else if n > m {
          NotStuckBefore(Word32, p, SATISFIED, m, n);
        }
      }
    } else {
      assert !NotStuckEarly(p, StateAfter(Word32, p, SATISFIED, m).value);
    }
  }

  /** For an accepted configuration that is when the closed form holds or 32-bit arithmetic gains the
      attempt; under the guard, when the closed form holds. */
  lemma PropertyHoldsIff(c: Config)
    requires InterceptorAccepts(c)
    ensures HoldsFor(c) <==> PermitsTwoRetries(c) || Gains(c)
    ensures WordSafe(c.scheduleToCloseMs, DetectionDelayMs(c)) ==> (HoldsFor(c) <==> PermitsTwoRetries(c))
  {
    PropertyMeansThirdAttempt(c);
    WordMachineThirdIff(c);
    if WordSafe(c.scheduleToCloseMs, DetectionDelayMs(c)) {
      ClosedFormDecidesWordMachine(c);
    }
  }

  /** Any strict search holds, on any list of configurations and not only the default grid. */
  lemma StrictSearchHolds(s: Search)
    requires s.filter.StrictPermitsTwoRetries?
    ensures SearchHolds(s)
  {
    forall c | c in InitConfigs(s.configs, s.filter)
      ensures HoldsFor(c)
    {
      PropertyHoldsIff(c);
    }
  }

  /** A search under the current rules holds exactly when for each configuration they accept the closed
      form holds or 32-bit arithmetic gains the attempt. */
  lemma CurrentSearchHoldsIff(s: Search)
    requires s.filter.InterceptorCurrent?
    ensures SearchHolds(s)
            <==> forall c :: c in s.configs && InterceptorAccepts(c) ==> PermitsTwoRetries(c) || Gains(c)
  {
    forall c | c in s.configs && InterceptorAccepts(c)
      ensures c in InitConfigs(s.configs, s.filter) && (HoldsFor(c) <==> PermitsTwoRetries(c) || Gains(c))
    {
      PropertyHoldsIff(c);
    }
  }

  /** The two configurations on record: accepted today, yet the first starts only two attempts and the
      second, with a heartbeat, only one. */
  lemma RecordedCounterexamples()
    ensures var tight := Config(21_000, 10_000, 0, 1_000, 0, 20, 0);
            InterceptorAccepts(tight) && !HoldsFor(tight)
            && Starts(Unbounded, PlanOf(tight), SATISFIED, 2) && !Starts(Unbounded, PlanOf(tight), SATISFIED, 3)
    ensures var slow := Config(11_000, 11_000, 10_000, 5_000, 60_000, 20, 5);
            InterceptorAccepts(slow) && !HoldsFor(slow) && !Starts(Unbounded, PlanOf(slow), SATISFIED, 2)
  {
    var tight := Config(21_000, 10_000, 0, 1_000, 0, 20, 0);
    var slow := Config(11_000, 11_000, 10_000, 5_000, 60_000, 20, 5);
    FirstPause(tight);
    FirstPause(slow);
    assert Scaled(1_000, 20, 0) == 1_000;
    assert Scaled(1_000, 20, 1) == 2_000;
    LoopValue(tight, 2);
    assert RetryInterval(tight, 2) == 2_000;
    AttemptStartsIff(PlanOf(tight), SATISFIED, 2);
    AttemptStartsIff(PlanOf(tight), SATISFIED, 3);
    AttemptStartsIff(PlanOf(slow), SATISFIED, 2);
    ThirdStart(PlanOf(tight));
    PropertyHoldsIff(tight);
    PropertyHoldsIff(slow);
  }

  lemma TraceToSecondStart(clock: Clock, p: Plan)
    requires p.crash(1) == 1 && p.detect(1) == 10_000 && p.interval(1) == 1_000
    requires p.deadline == 21_000 && p.maxAttempts == 0
    ensures StateAfter(clock, p, SATISFIED, 1) == Some(Sim(0, 1, Running(0)))
    ensures StateAfter(clock, p, SATISFIED, 2) == Some(Sim(1, 1, AwaitingDetection(0)))
    ensures StateAfter(clock, p, SATISFIED, 3) == Some(Sim(10_000, 1, Backoff(11_000)))
    ensures StateAfter(clock, p, SATISFIED, 4) == Some(Sim(11_000, 2, Running(11_000)))
  {
    assert StateAfter(clock, p, SATISFIED, 0) == Some(INIT);
  }

  /** The first trace on record, on either clock: every state of the run, to the millisecond. */
  lemma RecordedTrace(clock: Clock)
    ensures var p := PlanOf(Config(21_000, 10_000, 0, 1_000, 0, 20, 0));
            && StateAfter(clock, p, SATISFIED, 1) == Some(Sim(0, 1, Running(0)))
            && StateAfter(clock, p, SATISFIED, 2) == Some(Sim(1, 1, AwaitingDetection(0)))
            && StateAfter(clock, p, SATISFIED, 3) == Some(Sim(10_000, 1, Backoff(11_000)))
            && StateAfter(clock, p, SATISFIED, 4) == Some(Sim(11_000, 2, Running(11_000)))
            && StateAfter(clock, p, SATISFIED, 5) == Some(Sim(11_001, 2, AwaitingDetection(11_000)))
            && StateAfter(clock, p, SATISFIED, 6) == Some(Sim(21_000, 2, Backoff(23_000)))
            && StateAfter(clock, p, SATISFIED, 7) == Some(Sim(21_001, 2, Done))
            && StateAfter(clock, p, SATISFIED, 8) == None
  {
    var c := Config(21_000, 10_000, 0, 1_000, 0, 20, 0);
    assert Scaled(1_000, 20, 0) == 1_000;
    assert Scaled(1_000, 20, 1) == 2_000;
    LoopValue(c, 1);
    LoopValue(c, 2);
    TraceToSecondStart(clock, PlanOf(c));
    assert StateAfter(clock, PlanOf(c), SATISFIED, 5) == Some(Sim(11_001, 2, AwaitingDetection(11_000)));
    assert StateAfter(clock, PlanOf(c), SATISFIED, 6) == Some(Sim(21_000, 2, Backoff(23_000)));
  }

  /** The second one: the deadline comes before the second attempt. */
  lemma RecordedTraceWithHeartbeat(clock: Clock)
    ensures var p := PlanOf(Config(11_000, 11_000, 10_000, 5_000, 60_000, 20, 5));
            && StateAfter(clock, p, SATISFIED, 3) == Some(Sim(10_000, 1, Backoff(15_000)))
            && StateAfter(clock, p, SATISFIED, 4) == Some(Sim(11_001, 1, Done))
            && StateAfter(clock, p, SATISFIED, 5) == None
  {
    var c := Config(11_000, 11_000, 10_000, 5_000, 60_000, 20, 5);
    assert Scaled(5_000, 20, 0) == 5_000;
    LoopValue(c, 1);
    assert StateAfter(clock, PlanOf(c), SATISFIED, 0) == Some(INIT);
    assert StateAfter(clock, PlanOf(c), SATISFIED, 1) == Some(Sim(0, 1, Running(0)));
    assert StateAfter(clock, PlanOf(c), SATISFIED, 2) == Some(Sim(1, 1, AwaitingDetection(0)));
  }
}
