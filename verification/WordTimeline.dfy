/**
 The timeline in `u32` arithmetic, as the Rust model computes it, against the exact one: `+` wraps
 around and the end of a backoff saturates. Under `WordSafe` the two runs coincide step by step.
 That `WordSafe` cannot be weakened is proved in RustModel.
 */
module WordTimeline {
  import opened Wrappers
  import opened Words
  import opened Timeline

  /** Every quantity of the plan is a `u32`. */
  ghost predicate FitsWords(p: Plan) {
    && p.deadline <= U32_MAX && p.maxAttempts <= U32_MAX
    && forall n: nat :: p.crash(n) <= U32_MAX && p.detect(n) <= U32_MAX && p.interval(n) <= U32_MAX
  }

  /** The guard under which 32 bits are enough, on the deadline and the detection delay alone. */
  predicate WordSafe(deadline: nat, detect: nat) {
    deadline < U32_MAX && (detect == deadline || deadline + detect <= WORD)
  }

  /** A plan of words as the original has it: one crash delay, and one detection delay, for all attempts. */
  ghost predicate SameDelays(p: Plan) {
    && FitsWords(p)
    && 1 <= p.detect(1) <= p.deadline
    && forall n: nat :: p.crash(n) == CRASH_DELAY_MS && p.detect(n) == p.detect(1)
  }

  ghost predicate SafeInWords(p: Plan) {
    SameDelays(p) && WordSafe(p.deadline, p.detect(1))
  }

  /** An exact state as the `u32` machine holds it: only the end of a backoff can be cut short. */
  function InWords(s: Sim): Sim {
    match s.phase
    case Backoff(until) => s.(phase := Backoff(Min(until, U32_MAX)))
    case _ => s
  }

  /** In a safe plan nothing wraps: the sums formed from a state on schedule are exact. */
  lemma NothingWraps(p: Plan, target: nat, s: Sim)
    requires SafeInWords(p)
    requires OnSchedule(p, target, s) && s.now <= p.deadline
    ensures s.phase.Running? ==> s.phase.since + 1 <= U32_MAX
    ensures s.phase.AwaitingDetection? ==> s.phase.since + p.detect(s.attempts) <= U32_MAX
    ensures s.phase.Backoff? && s.phase.until <= p.deadline ==> s.attempts + 1 <= U32_MAX
  {
    if s.attempts >= 1 {
      StartTimeGrows(p, 0, s.attempts);
      if s.attempts >= 2 {
        StartTimeGrows(p, 1, s.attempts - 1);
        assert StartTime(p, 1) == StartTime(p, 0) + p.detect(1) + p.interval(1);
      }
    }
  }

  lemma PlusIsExact(a: nat, b: nat)
    requires a + b <= U32_MAX
    ensures Word32.Plus(a, b) == a + b
  {}

  /** One step: the `u32` machine offers the same action and moves to the same state. */
  lemma WordStep(p: Plan, target: nat, s: Sim)
    requires SafeInWords(p)
    requires OnSchedule(p, target, s)
    ensures Offered(Word32, p, target, InWords(s)) == Offered(Unbounded, p, target, s)
    ensures Offered(Unbounded, p, target, s).Some? ==>
              && Advance(Unbounded, p, target, s).Some?
              && Advance(Word32, p, target, InWords(s)) == Some(InWords(Advance(Unbounded, p, target, s).value))
  {
    if Offered(Unbounded, p, target, s).Some? {
      NothingWraps(p, target, s);
      match s.phase {
        case Running(since) =>
          PlusIsExact(since, CRASH_DELAY_MS);
        case AwaitingDetection(since) =>
          PlusIsExact(since, p.detect(s.attempts));
        case Backoff(until) =>
          if until <= p.deadline {
            PlusIsExact(s.attempts, 1);
          }
        case _ =>
      }
    }
  }

  /** The whole run: after any number of steps, and for any exploration target, the `u32` machine is
      where the exact one is. */
  lemma {:induction false} WordRunIsExact(p: Plan, target: nat, n: nat)
    requires SafeInWords(p)
    ensures StateAfter(Word32, p, target, n)
            == match StateAfter(Unbounded, p, target, n) case None => None case Some(s) => Some(InWords(s))
  {
    if n > 0 {
      WordRunIsExact(p, target, n - 1);
      var before := StateAfter(Unbounded, p, target, n - 1);
      if before.Some? {
        ReachableOnSchedule(p, target, n - 1);
        WordStep(p, target, before.value);
      }
    }
  }

  /** A state of the `u32` machine is an exact state on schedule, and offers what that one offers. */
  lemma WordStatesOnSchedule(p: Plan, target: nat, n: nat) returns (s: Sim)
    requires SafeInWords(p)
    requires StateAfter(Word32, p, target, n).Some?
    ensures StateAfter(Unbounded, p, target, n) == Some(s) && OnSchedule(p, target, s)
    ensures StateAfter(Word32, p, target, n) == Some(InWords(s))
    ensures Offered(Word32, p, target, InWords(s)) == Offered(Unbounded, p, target, s)
  {
    WordRunIsExact(p, target, n);
    ReachableOnSchedule(p, target, n);
    s := StateAfter(Unbounded, p, target, n).value;
    WordStep(p, target, s);
  }

  lemma WordStartsIffExact(p: Plan, target: nat, k: nat)
    requires SafeInWords(p)
    ensures Starts(Word32, p, target, k) <==> Starts(Unbounded, p, target, k)
  {
    forall n: nat
      ensures StateAfter(Word32, p, target, n)
              == match StateAfter(Unbounded, p, target, n) case None => None case Some(s) => Some(InWords(s))
    {
      WordRunIsExact(p, target, n);
    }
  }

  /** One round of the `u32` machine: crash, detection, next start, with no sum wrapping around. */
  lemma RoundInWords(p: Plan, target: nat, n: nat, s: Sim)
    requires FitsWords(p) && Detects(p) && s == Sim(s.now, s.attempts, Running(s.now))
    requires StateAfter(Word32, p, target, n) == Some(s)
    requires s.attempts < target && s.attempts < U32_MAX && !Exhausted(p, s)
    requires s.now + p.detect(s.attempts) + p.interval(s.attempts) <= p.deadline
    ensures var next := s.now + p.detect(s.attempts) + p.interval(s.attempts);
            StateAfter(Word32, p, target, n + 3) == Some(Sim(next, s.attempts + 1, Running(next)))
  {
    var next := s.now + p.detect(s.attempts) + p.interval(s.attempts);
    PlusIsExact(s.now, p.crash(s.attempts));
    assert StateAfter(Word32, p, target, n + 1)
        == Some(Sim(s.now + p.crash(s.attempts), s.attempts, AwaitingDetection(s.now)));
    PlusIsExact(s.now, p.detect(s.attempts));
    assert StateAfter(Word32, p, target, n + 2)
        == Some(Sim(s.now + p.detect(s.attempts), s.attempts, Backoff(next)));
    PlusIsExact(s.attempts, 1);
  }

  /** From one start to the next one. */
  lemma NextStartInWords(p: Plan, target: nat, n: nat, k: nat)
    requires FitsWords(p) && Detects(p) && 1 < k <= target && k <= U32_MAX && Feasible(p, k)
    requires StateAfter(Word32, p, target, n) == Some(Sim(StartTime(p, k - 2), k - 1, Running(StartTime(p, k - 2))))
    ensures StateAfter(Word32, p, target, n + 3)
            == Some(Sim(StartTime(p, k - 1), k, Running(StartTime(p, k - 1))))
  {
    var t := StartTime(p, k - 2);
    assert StartTime(p, k - 1) == t + p.detect(k - 1) + p.interval(k - 1);
    RoundInWords(p, target, n, Sim(t, k - 1, Running(t)));
  }

  /** Guard or no guard, 32 bits never lose an attempt: whatever the exact timeline starts, the `u32`
      machine starts too, at the same step and the same millisecond. */
  lemma {:induction false} FeasibleAttemptStartsInWords(p: Plan, target: nat, k: nat)
    requires FitsWords(p) && Detects(p) && 1 <= k <= target && k <= U32_MAX && Feasible(p, k)
    ensures StateAfter(Word32, p, target, 3 * k - 2)
            == Some(Sim(StartTime(p, k - 1), k, Running(StartTime(p, k - 1))))
  {
    assert StateAfter(Word32, p, target, 0) == Some(INIT);
    if k > 1 {
      assert StartTime(p, k - 1) == StartTime(p, k - 2) + p.detect(k - 1) + p.interval(k - 1);
      FeasibleAttemptStartsInWords(p, target, k - 1);
      NextStartInWords(p, target, 3 * k - 5, k);
    }
  }

  // ---------------------------------------------------------------- the third attempt, guard or no guard

  /** The limit leaves room for three attempts. */
  ghost predicate ThreeAllowed(p: Plan) {
    SameDelays(p) && (p.maxAttempts == 0 || p.maxAttempts >= 3)
  }

  /** The 32-bit machine starts a third attempt that is out of budget: because the second detection
      wraps around to an early time, or, at the last deadline there is, because nothing is later. */
  predicate GainsThird(deadline: nat, detect: nat, pause1: nat, pause2: nat) {
    if deadline == U32_MAX then 2 * detect + pause1 + pause2 > U32_MAX
    else detect + pause1 < deadline && 2 * detect + pause1 >= WORD && 2 * detect + pause1 - WORD + pause2 <= deadline
  }

  ghost predicate At(p: Plan, n: nat, s: Sim) {
    StateAfter(Word32, p, 3, n) == Some(s)
  }

  lemma FirstRoundInWords(p: Plan)
    requires ThreeAllowed(p)
    ensures At(p, 3, Sim(p.detect(1), 1, Backoff(Min(p.detect(1) + p.interval(1), U32_MAX))))
  {
    assert At(p, 0, INIT);
    assert At(p, 1, Sim(0, 1, Running(0)));
    assert At(p, 2, Sim(1, 1, AwaitingDetection(0)));
    PlusIsExact(0, p.detect(1));
  }

  /** The second detection, when the second attempt starts before the deadline or at the last one. */
  lemma SecondRoundInWords(p: Plan, start: nat)
    requires ThreeAllowed(p) && start == Min(p.detect(1) + p.interval(1), U32_MAX)
    requires start < p.deadline || start == p.deadline == U32_MAX
    ensures At(p, 5, Sim(Word32.Plus(start, 1), 2, AwaitingDetection(start)))
    ensures Word32.Plus(start, 1) <= p.deadline
  {
    FirstRoundInWords(p);
    assert At(p, 4, Sim(start, 2, Running(start)));
  }

  /** What happens after it. */
  lemma ThirdStartInWords(p: Plan, start: nat) returns (m: nat)
    requires ThreeAllowed(p) && start == Min(p.detect(1) + p.interval(1), U32_MAX)
    requires start < p.deadline || start == p.deadline == U32_MAX
    ensures HaltsAt(Word32, p, 3, m)
    ensures var detected := Word32.Plus(start, p.detect(1));
            StateAfter(Word32, p, 3, m).value.attempts >= 3
            <==> detected <= p.deadline && Min(detected + p.interval(2), U32_MAX) <= p.deadline
  {
    SecondRoundInWords(p, start);
    assert p.detect(2) == p.detect(1);
    var crashed := Word32.Plus(start, 1);
    var detected := Word32.Plus(start, p.detect(1));
    var late := Sim(Word32.SaturatingPlus(p.deadline, 1), 2, Done);
    if detected > p.deadline {
      m := 6;
      assert At(p, 6, late);
    } else {
      m := 7;
      var until := Min(detected + p.interval(2), U32_MAX);
      assert At(p, 6, Sim(detected, 2, Backoff(until)));
      if until > p.deadline {
        assert At(p, 7, late);
      } else {
        assert At(p, 7, Sim(until, 3, Running(until)));
      }
    }
  }

  /** There is no third attempt when the second starts too late, or at the deadline, so that the
      deadline comes before the second crash. */
  lemma NoThirdInWords(p: Plan, start: nat) returns (m: nat)
    requires ThreeAllowed(p) && start == Min(p.detect(1) + p.interval(1), U32_MAX)
    requires start > p.deadline || start == p.deadline < U32_MAX
    ensures HaltsAt(Word32, p, 3, m) && StateAfter(Word32, p, 3, m).value.attempts < 3
  {
    FirstRoundInWords(p);
    if start > p.deadline {
      m := 4;
      assert At(p, 4, Sim(Word32.SaturatingPlus(p.deadline, 1), 1, Done));
    } else {
      m := 5;
      assert At(p, 4, Sim(start, 2, Running(start)));
      PlusIsExact(start, 1);
      assert At(p, 5, Sim(start + 1, 2, AwaitingDetection(start)));
    }
  }

  /** What these conditions amount to, on the numbers. */
  lemma ThirdInNumbers(deadline: nat, detect: nat, pause1: nat, pause2: nat)
    requires 1 <= detect <= deadline <= U32_MAX && pause1 <= U32_MAX && pause2 <= U32_MAX
    ensures var start := Min(detect + pause1, U32_MAX);
            var detected := Word32.Plus(start, detect);
            && (start < deadline || start == deadline == U32_MAX)
            && detected <= deadline && Min(detected + pause2, U32_MAX) <= deadline
            <==> 2 * detect + pause1 + pause2 <= deadline || GainsThird(deadline, detect, pause1, pause2)
  {
    var start := Min(detect + pause1, U32_MAX);
    if start + detect < WORD {
      PlusIsExact(start, detect);
    } else {
      assert Word32.Plus(start, detect) == start + detect - WORD;
    }
  }

  /** Exactly when the `u32` machine starts a third attempt, for any quantities. */
  lemma ThirdAttemptInWordsIff(p: Plan)
    requires ThreeAllowed(p)
    ensures Starts(Word32, p, 3, 3)
            <==> || 2 * p.detect(1) + p.interval(1) + p.interval(2) <= p.deadline
                 || GainsThird(p.deadline, p.detect(1), p.interval(1), p.interval(2))
  {
    var start := Min(p.detect(1) + p.interval(1), U32_MAX);
    ThirdInNumbers(p.deadline, p.detect(1), p.interval(1), p.interval(2));
    var m: nat;
    if start < p.deadline || start == p.deadline == U32_MAX {
      m := ThirdStartInWords(p, start);
    } else {
      m := NoThirdInWords(p, start);
    }
    HaltDecides(Word32, p, 3, m, 3);
  }
}
