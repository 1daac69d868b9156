/**
 The timeline of one activity whose worker crashes in every attempt: the state machine of the formal
 model, over any crash times, detection delays, backoff schedule and attempt limit.

 The specification functions (`Offered`, `Next`, `StateAfter`) describe the machine; the methods
 `Actions` and `NextState` have the shape of the original and are proved equal to them.
 The main results say exactly which attempts start, at which millisecond, and that every run ends.
 */
module Timeline {
  import opened Wrappers
  import opened Words

  /** What becomes of an activity. Attempt n crashes `crash(n)` after its start, which is noticed
      `detect(n)` after its start, and `interval(n)` is the pause that follows; in the original neither
      of the first two depends on n. A zero `maxAttempts` means unlimited. */
  datatype Plan = Plan(
    deadline: nat, crash: nat -> nat, detect: nat -> nat, interval: nat -> nat, maxAttempts: nat)

  /** Crashes take time, and are not noticed before they happen. */
  ghost predicate Detects(p: Plan) {
    forall n: nat :: 1 <= p.crash(n) <= p.detect(n)
  }

  datatype Phase =
    | Idle
    | Running(since: nat)
    | AwaitingDetection(since: nat)
    | Backoff(until: nat)
    | Done

  datatype Sim = Sim(now: nat, attempts: nat, phase: Phase)

  datatype Step = Start | Crash | Detect | ScheduleRetry | Deadline

  /** The crash delay of the original, for every attempt. */
  const CRASH_DELAY_MS: nat := 1

  const INIT: Sim := Sim(0, 0, Idle)

  // ---------------------------------------------------------------- the machine

  predicate Exhausted(p: Plan, s: Sim) {
    p.maxAttempts != 0 && s.attempts >= p.maxAttempts
  }

  /** When the event that the current phase waits for falls due. */
  function DueAt(clock: Clock, p: Plan, s: Sim): nat {
    match s.phase
    case AwaitingDetection(since) => clock.Plus(since, p.detect(s.attempts))
    case Backoff(until) => Max(s.now, until)
    case _ => s.now
  }

  /** The one step a state offers, if any; `target` is the number of attempts after which the
      exploration stops. */
  function Offered(clock: Clock, p: Plan, target: nat, s: Sim): Option<Step> {
    if s.phase.Done? || s.attempts >= target || s.now > p.deadline then None
    else if DueAt(clock, p, s) > p.deadline then Some(Deadline)
    else match s.phase
      case Idle => Some(Start)
      case Running(_) => Some(Crash)
      case AwaitingDetection(_) => Some(Detect)
      case Backoff(_) => Some(if Exhausted(p, s) then Deadline else Start)
  }

  function Next(clock: Clock, p: Plan, s: Sim, step: Step): Option<Sim> {
    match (step, s.phase)
    case (Start, Idle) =>
      Some(Sim(s.now, clock.Plus(s.attempts, 1), Running(s.now)))
    case (Start, Backoff(_)) =>
      Some(Sim(DueAt(clock, p, s), clock.Plus(s.attempts, 1), Running(DueAt(clock, p, s))))
    case (Crash, Running(since)) =>
      Some(Sim(clock.Plus(since, p.crash(s.attempts)), s.attempts, AwaitingDetection(since)))
    case (Detect, AwaitingDetection(_)) =>
      var detected := DueAt(clock, p, s);
      Some(Sim(detected, s.attempts, Backoff(clock.SaturatingPlus(detected, p.interval(s.attempts)))))
    case (Deadline, _) =>
      Some(Sim(clock.SaturatingPlus(p.deadline, 1), s.attempts, Done))
    case _ => None
  }

  /** The state after `n` steps of the run from INIT, or None when the run is over by then. */
  function StateAfter(clock: Clock, p: Plan, target: nat, n: nat): Option<Sim> {
    if n == 0 then Some(INIT)
    else match StateAfter(clock, p, target, n - 1)
      case None => None
      case Some(s) => Advance(clock, p, target, s)
  }

  function Advance(clock: Clock, p: Plan, target: nat, s: Sim): Option<Sim> {
    match Offered(clock, p, target, s)
    case None => None
    case Some(step) => Next(clock, p, s, step)
  }

  /** Attempt `k` starts somewhere in the run. */
  ghost predicate Starts(clock: Clock, p: Plan, target: nat, k: nat) {
    exists n: nat :: StateAfter(clock, p, target, n).Some? && StateAfter(clock, p, target, n).value.attempts >= k
  }

  /** A run that gets as far as step n was not stuck anywhere before. */
  lemma {:induction false} NotStuckBefore(clock: Clock, p: Plan, target: nat, m: nat, n: nat)
    requires m < n && StateAfter(clock, p, target, n).Some?
    ensures StateAfter(clock, p, target, m).Some?
            && Offered(clock, p, target, StateAfter(clock, p, target, m).value).Some?
  {
    if m < n - 1 {
      NotStuckBefore(clock, p, target, m, n - 1);
    }
  }

  // ---------------------------------------------------------------- the machine, as written

  method Actions(clock: Clock, p: Plan, target: nat, s: Sim) returns (actions: seq<Step>)
    ensures actions == match Offered(clock, p, target, s) case None => [] case Some(step) => [step]
  {
    actions := [];
    if s.phase.Done? {
      return;
    }
    if s.attempts >= target {
      return;
    }
    if s.now > p.deadline {
      return;
    }
    match s.phase {
      case Idle =>
        actions := actions + [Start];
      case Backoff(until) =>
        var startAt := Max(s.now, until);
        if startAt > p.deadline {
          actions := actions + [Deadline];
        } else {
          actions := actions + [Start];
        }
      case Running(_) =>
        actions := actions + [Crash];
      case AwaitingDetection(since) =>
        var detectAt := clock.Plus(since, p.detect(s.attempts));
        if detectAt > p.deadline {
          actions := actions + [Deadline];
        } else {
          actions := actions + [Detect];
        }
      case Done =>
    }
    if s.phase.Backoff? {
      if |actions| > 0 {
        if actions[|actions| - 1] == Start && p.maxAttempts != 0 && s.attempts >= p.maxAttempts {
          actions := [];
          actions := actions + [Deadline];
        }
      }
    }
  }

  method NextState(clock: Clock, p: Plan, last: Sim, step: Step) returns (r: Option<Sim>)
    ensures r == Next(clock, p, last, step)
  {
    var next := last;
    match step {
      case Start =>
        match last.phase {
          case Idle =>
            next := next.(attempts := clock.Plus(last.attempts, 1));
            next := next.(phase := Running(last.now));
          case Backoff(until) =>
            var startAt := Max(last.now, until);
            next := next.(now := startAt);
            next := next.(attempts := clock.Plus(last.attempts, 1));
            next := next.(phase := Running(startAt));
          case _ => return None;
        }
      case Crash =>
        match last.phase {
          case Running(since) =>
            next := next.(now := clock.Plus(since, p.crash(last.attempts)));
            next := next.(phase := AwaitingDetection(since));
          case _ => return None;
        }
      case Detect =>
        match last.phase {
          case AwaitingDetection(since) =>
            next := next.(now := clock.Plus(since, p.detect(last.attempts)));
            var backoffUntil := clock.SaturatingPlus(next.now, p.interval(last.attempts));
            next := next.(phase := Backoff(backoffUntil));
          case _ => return None;
        }
      case ScheduleRetry => return None;
      case Deadline =>
        next := next.(now := clock.SaturatingPlus(p.deadline, 1));
        next := next.(phase := Done);
    }
    return Some(next);
  }

  // ---------------------------------------------------------------- the closed form

  /** The millisecond at which attempt k + 1 starts: k detections and the first k pauses. */
  function StartTime(p: Plan, k: nat): nat {
    if k == 0 then 0 else StartTime(p, k - 1) + p.detect(k) + p.interval(k)
  }

  /** Attempt k fits the budget and the attempt limit. */
  predicate Feasible(p: Plan, k: nat)
    requires k >= 1
  {
    StartTime(p, k - 1) <= p.deadline && (p.maxAttempts == 0 || k <= p.maxAttempts)
  }

  lemma {:induction false} StartTimeGrows(p: Plan, j: nat, k: nat)
    requires Detects(p) && j <= k
    ensures StartTime(p, j) + (k - j) <= StartTime(p, k)
  {
    if j < k {
      StartTimeGrows(p, j, k - 1);
      assert p.detect(k) >= 1;
    }
  }

  /** What is known of a state reached on the exact clock. */
  ghost predicate OnSchedule(p: Plan, target: nat, s: Sim) {
    && s.attempts <= target
    && (p.maxAttempts != 0 ==> s.attempts <= p.maxAttempts)
    && match s.phase
       case Idle => s == INIT
       case Running(since) =>
         s.attempts >= 1 && s.now == since && since == StartTime(p, s.attempts - 1) <= p.deadline
       case AwaitingDetection(since) =>
         && s.attempts >= 1
         && s.now == since + p.crash(s.attempts)
         && since == StartTime(p, s.attempts - 1) <= p.deadline
       case Backoff(until) =>
         && s.attempts >= 1
         && s.now == StartTime(p, s.attempts - 1) + p.detect(s.attempts) <= p.deadline
         && until == StartTime(p, s.attempts)
       case Done =>
         && s.attempts >= 1
         && s.now == p.deadline + 1
         && StartTime(p, s.attempts - 1) <= p.deadline
         && !Feasible(p, s.attempts + 1)
  }

  lemma OnScheduleStep(p: Plan, target: nat, s: Sim)
    requires Detects(p) && OnSchedule(p, target, s)
    requires Offered(Unbounded, p, target, s).Some?
    ensures Advance(Unbounded, p, target, s).Some?
    ensures OnSchedule(p, target, Advance(Unbounded, p, target, s).value)
    ensures s.now <= Advance(Unbounded, p, target, s).value.now
  {
    if s.phase.AwaitingDetection? || s.phase.Backoff? {
      assert StartTime(p, s.attempts) == StartTime(p, s.attempts - 1) + p.detect(s.attempts) + p.interval(s.attempts);
    }
  }

  /** Every reachable state stands exactly where the closed form puts it: start times, detection
      times and backoff ends are sums of delays, no attempt starts late, none exceeds the limit. */
  lemma {:induction false} ReachableOnSchedule(p: Plan, target: nat, n: nat)
    requires Detects(p)
    ensures StateAfter(Unbounded, p, target, n).Some?
            ==> OnSchedule(p, target, StateAfter(Unbounded, p, target, n).value)
  {
    if n > 0 {
      ReachableOnSchedule(p, target, n - 1);
      var before := StateAfter(Unbounded, p, target, n - 1);
      if before.Some? && Offered(Unbounded, p, target, before.value).Some? {
        OnScheduleStep(p, target, before.value);
      }
    }
  }

  /** Time never runs back along a run. */
  lemma {:induction false} ClockNeverRunsBack(p: Plan, target: nat, m: nat, n: nat)
    requires Detects(p) && m <= n && StateAfter(Unbounded, p, target, n).Some?
    ensures StateAfter(Unbounded, p, target, m).Some?
    ensures StateAfter(Unbounded, p, target, m).value.now <= StateAfter(Unbounded, p, target, n).value.now
  {
    if m < n {
      ClockNeverRunsBack(p, target, m, n - 1);
      ReachableOnSchedule(p, target, n - 1);
      OnScheduleStep(p, target, StateAfter(Unbounded, p, target, n - 1).value);
    }
  }

  /** One round: crash, detection, next start. */
  lemma Round(p: Plan, target: nat, n: nat, s: Sim)
    requires Detects(p) && s == Sim(s.now, s.attempts, Running(s.now))
    requires StateAfter(Unbounded, p, target, n) == Some(s)
    requires s.attempts < target && !Exhausted(p, s)
    requires s.now + p.detect(s.attempts) + p.interval(s.attempts) <= p.deadline
    ensures var next := s.now + p.detect(s.attempts) + p.interval(s.attempts);
            StateAfter(Unbounded, p, target, n + 3) == Some(Sim(next, s.attempts + 1, Running(next)))
  {
    var next := s.now + p.detect(s.attempts) + p.interval(s.attempts);
    assert StateAfter(Unbounded, p, target, n + 1)
        == Some(Sim(s.now + p.crash(s.attempts), s.attempts, AwaitingDetection(s.now)));
    assert StateAfter(Unbounded, p, target, n + 2)
        == Some(Sim(s.now + p.detect(s.attempts), s.attempts, Backoff(next)));
  }

  /** From one start to the next one. */
  lemma NextStart(p: Plan, target: nat, n: nat, k: nat)
    requires Detects(p) && 1 < k <= target && Feasible(p, k)
    requires StateAfter(Unbounded, p, target, n) == Some(Sim(StartTime(p, k - 2), k - 1, Running(StartTime(p, k - 2))))
    ensures StateAfter(Unbounded, p, target, n + 3)
            == Some(Sim(StartTime(p, k - 1), k, Running(StartTime(p, k - 1))))
  {
    var t := StartTime(p, k - 2);
    assert StartTime(p, k - 1) == t + p.detect(k - 1) + p.interval(k - 1);
    Round(p, target, n, Sim(t, k - 1, Running(t)));
  }

  /** A feasible attempt does start: 3k - 2 steps into the run, at its closed-form time. */
  lemma {:induction false} FeasibleAttemptStarts(p: Plan, target: nat, k: nat)
    requires Detects(p) && 1 <= k <= target && Feasible(p, k)
    ensures StateAfter(Unbounded, p, target, 3 * k - 2)
            == Some(Sim(StartTime(p, k - 1), k, Running(StartTime(p, k - 1))))
  {
    assert StateAfter(Unbounded, p, target, 0) == Some(INIT);
    if k > 1 {
      assert StartTime(p, k - 1) == StartTime(p, k - 2) + p.detect(k - 1) + p.interval(k - 1);
      FeasibleAttemptStarts(p, target, k - 1);
      NextStart(p, target, 3 * k - 5, k);
    }
  }

  /** An attempt that has started was feasible, and so were all before it. */
  lemma StartedAttemptsAreFeasible(p: Plan, target: nat, s: Sim, k: nat)
    requires Detects(p) && OnSchedule(p, target, s) && 1 <= k <= s.attempts
    ensures k <= target && Feasible(p, k)
  {
    StartTimeGrows(p, k - 1, s.attempts - 1);
  }

  /** The main theorem: attempt k starts if and only if its closed-form start time is within the
      deadline and neither limit stops it. */
  lemma AttemptStartsIff(p: Plan, target: nat, k: nat)
    requires Detects(p) && k >= 1
    ensures Starts(Unbounded, p, target, k) <==> (k <= target && Feasible(p, k))
  {
    if k <= target && Feasible(p, k) {
      FeasibleAttemptStarts(p, target, k);
    }
    if Starts(Unbounded, p, target, k) {
      var n: nat :| StateAfter(Unbounded, p, target, n).Some?
                    && StateAfter(Unbounded, p, target, n).value.attempts >= k;
      ReachableOnSchedule(p, target, n);
      StartedAttemptsAreFeasible(p, target, StateAfter(Unbounded, p, target, n).value, k);
    }
  }

  /** A run only halts when the exploration target is met or the next attempt is infeasible: no
      feasible attempt is ever given up, however the run ended. */
  lemma HaltedRunsAreExhausted(p: Plan, target: nat, n: nat)
    requires Detects(p) && StateAfter(Unbounded, p, target, n).Some?
    requires Offered(Unbounded, p, target, StateAfter(Unbounded, p, target, n).value).None?
    ensures var k := StateAfter(Unbounded, p, target, n).value.attempts;
            k == target || !Feasible(p, k + 1)
  {
    ReachableOnSchedule(p, target, n);
    var s := StateAfter(Unbounded, p, target, n).value;
    if s.phase.AwaitingDetection? {
      StartTimeGrows(p, s.attempts - 1, s.attempts);
    }
  }

  // ---------------------------------------------------------------- termination

  /** Lexicographic progress (time left, then phase), folded into one number. The crash is timed by the
      start of its attempt, since it may lie anywhere before its detection. */
  function TimeLeft(p: Plan, s: Sim): int {
    match s.phase
    case Idle => 4 * (p.deadline + 1 - s.now) + 3
    case Running(_) => 4 * (p.deadline + 1 - s.now) + 2
    case AwaitingDetection(since) => 4 * (p.deadline + 1 - since) + 1
    case Backoff(_) => 4 * (p.deadline + 1 - s.now) + 3
    case Done => 4 * (p.deadline + 1 - s.now)
  }

  /** Every offered step is one the machine can take, and it uses up some of the time left,
      whatever the exploration target. */
  lemma StepsMakeProgress(p: Plan, target: nat, s: Sim)
    requires Detects(p) && OnSchedule(p, target, s) && Offered(Unbounded, p, target, s).Some?
    ensures Advance(Unbounded, p, target, s).Some?
    ensures 0 <= TimeLeft(p, Advance(Unbounded, p, target, s).value) < TimeLeft(p, s)
  {
    OnScheduleStep(p, target, s);
  }

  lemma {:induction false} TimeRunsOut(p: Plan, target: nat, n: nat)
    requires Detects(p)
    ensures StateAfter(Unbounded, p, target, n).Some?
            ==> 0 <= TimeLeft(p, StateAfter(Unbounded, p, target, n).value) <= 4 * p.deadline + 7 - n
  {
    if n > 0 {
      TimeRunsOut(p, target, n - 1);
      ReachableOnSchedule(p, target, n - 1);
      var before := StateAfter(Unbounded, p, target, n - 1);
      if before.Some? && Offered(Unbounded, p, target, before.value).Some? {
        StepsMakeProgress(p, target, before.value);
      }
    }
  }

  /** Every run is over after 4 * deadline + 7 steps. */
  lemma EveryRunEnds(p: Plan, target: nat, n: nat)
    requires Detects(p) && n > 4 * p.deadline + 7
    ensures StateAfter(Unbounded, p, target, n).None?
  {
    TimeRunsOut(p, target, n);
  }

  // ---------------------------------------------------------------- halting, on either clock

  /** The run is over in the state after m steps. */
  predicate HaltsAt(clock: Clock, p: Plan, target: nat, m: nat) {
    && StateAfter(clock, p, target, m).Some?
    && Offered(clock, p, target, StateAfter(clock, p, target, m).value).None?
  }

  /** Attempts left, then phase: progress that needs no clock. */
  function StepsLeft(target: nat, s: Sim): int {
    4 * (target - s.attempts)
    + match s.phase
      case Running(_) => 3
      case AwaitingDetection(_) => 2
      case Done => 0
      case _ => 1
  }

  lemma OfferedStepsSucceed(clock: Clock, p: Plan, target: nat, s: Sim)
    requires target <= U32_MAX && s.attempts <= target && Offered(clock, p, target, s).Some?
    ensures var next := Advance(clock, p, target, s);
            && next.Some? && s.attempts <= next.value.attempts <= target
            && 0 <= StepsLeft(target, next.value) < StepsLeft(target, s)
  {
    assert clock.Plus(s.attempts, 1) == s.attempts + 1 || s.attempts == target;
  }

  lemma {:induction false} AttemptsRunOut(clock: Clock, p: Plan, target: nat, n: nat)
    requires target <= U32_MAX && StateAfter(clock, p, target, n).Some?
    ensures var s := StateAfter(clock, p, target, n).value;
            s.attempts <= target && 0 <= StepsLeft(target, s) <= 4 * target + 1 - n
  {
    if n > 0 {
      AttemptsRunOut(clock, p, target, n - 1);
      OfferedStepsSucceed(clock, p, target, StateAfter(clock, p, target, n - 1).value);
    }
  }

  /** Every run halts, on any clock and for any delays, within four steps an attempt. */
  lemma {:induction false} EveryRunHalts(clock: Clock, p: Plan, target: nat, n: nat) returns (m: nat)
    requires target <= U32_MAX
    requires n > 4 * target + 1 || StateAfter(clock, p, target, n).None?
    ensures m < n && HaltsAt(clock, p, target, m)
  {
    if StateAfter(clock, p, target, n).Some? {
      AttemptsRunOut(clock, p, target, n);
    }
    m := n - 1;
    if StateAfter(clock, p, target, m).None? {
      m := EveryRunHalts(clock, p, target, m);
    } else if Offered(clock, p, target, StateAfter(clock, p, target, m).value).Some? {
      AttemptsRunOut(clock, p, target, m);
      OfferedStepsSucceed(clock, p, target, StateAfter(clock, p, target, m).value);
    }
  }

  lemma {:induction false} AttemptsGrow(clock: Clock, p: Plan, target: nat, m: nat, n: nat)
    requires target <= U32_MAX && m <= n && StateAfter(clock, p, target, n).Some?
    ensures StateAfter(clock, p, target, m).Some?
    ensures StateAfter(clock, p, target, m).value.attempts <= StateAfter(clock, p, target, n).value.attempts
  {
    if m < n {
      AttemptsGrow(clock, p, target, m, n - 1);
      AttemptsRunOut(clock, p, target, n - 1);
      OfferedStepsSucceed(clock, p, target, StateAfter(clock, p, target, n - 1).value);
    }
  }

  /** The state a run halts in decides which attempts start. */
  lemma HaltDecides(clock: Clock, p: Plan, target: nat, m: nat, k: nat)
    requires target <= U32_MAX && HaltsAt(clock, p, target, m)
    ensures Starts(clock, p, target, k) <==> k <= StateAfter(clock, p, target, m).value.attempts
  {
    if Starts(clock, p, target, k) {
      var n: nat :| StateAfter(clock, p, target, n).Some? && StateAfter(clock, p, target, n).value.attempts >= k;
      if n > m {
        NotStuckBefore(clock, p, target, m, n);
      } else {
        AttemptsGrow(clock, p, target, n, m);
      }
    }
  }

  // ---------------------------------------------------------------- comparing plans

  /** A plan with a later deadline, any attempt detected sooner, shorter pauses and no tighter limit,
      whenever its attempts crash. */
  ghost predicate AtLeastAsGenerous(p: Plan, q: Plan) {
    && p.deadline <= q.deadline
    && (forall n: nat :: q.detect(n) <= p.detect(n))
    && (forall n: nat :: q.interval(n) <= p.interval(n))
    && (q.maxAttempts == 0 || 0 < p.maxAttempts <= q.maxAttempts)
  }

  lemma {:induction false} GenerousStartTimes(p: Plan, q: Plan, k: nat)
    requires AtLeastAsGenerous(p, q)
    ensures StartTime(q, k) <= StartTime(p, k)
  {
    if k > 0 {
      GenerousStartTimes(p, q, k - 1);
      assert q.detect(k) <= p.detect(k) && q.interval(k) <= p.interval(k);
    }
  }

  /** Loosening a plan never loses an attempt. */
  lemma GenerousPlansStartNoFewer(p: Plan, q: Plan, target: nat, k: nat)
    requires Detects(p) && Detects(q) && k >= 1
    requires AtLeastAsGenerous(p, q) && Starts(Unbounded, p, target, k)
    ensures Starts(Unbounded, q, target, k)
  {
    AttemptStartsIff(p, target, k);
    AttemptStartsIff(q, target, k);
    GenerousStartTimes(p, q, k - 1);
  }

  lemma {:induction false} StartTimeIgnoresCrashes(p: Plan, crash: nat -> nat, k: nat)
    ensures StartTime(p.(crash := crash), k) == StartTime(p, k)
  {
    if k > 0 {
      StartTimeIgnoresCrashes(p, crash, k - 1);
    }
  }

  /** When an attempt crashes, as long as it is not after the detection, changes nothing. */
  lemma CrashTimesDoNotMatter(p: Plan, crash: nat -> nat, target: nat, k: nat)
    requires Detects(p) && Detects(p.(crash := crash)) && k >= 1
    ensures Starts(Unbounded, p, target, k) <==> Starts(Unbounded, p.(crash := crash), target, k)
  {
    AttemptStartsIff(p, target, k);
    AttemptStartsIff(p.(crash := crash), target, k);
    StartTimeIgnoresCrashes(p, crash, k - 1);
  }
}
