/**
 The workflow side of the Go activity policy interceptor: the four policies, the severities, the
 aggregated error, and the two scheduling calls it intercepts. The logger and the next interceptor
 are kept as the sequences of what they were given.
 */
module Interceptor {
  import opened Wrappers
  import opened GoBackoff
  import opened Canonical

  const DEFAULT_HEARTBEAT_TIMEOUT: int := 30 * SECOND
  const LOCAL_ACTIVITY_MAX_START_TO_CLOSE: int := 10 * SECOND
  const DEFAULT_REQUIRED_RETRIES: int := 2

  /** Severity is an integer in the original; `Other` is any value outside the enumeration. */
  datatype Severity = Ignore | Warn | Error | Other(code: int)

  datatype Options = Options(severities: map<Policy, Severity>, requiredRetries: Option<int>)

  function SeverityFor(o: Options, p: Policy): Severity {
    if p in o.severities then o.severities[p] else Error
  }

  function RequiredRetries(o: Options): int {
    match o.requiredRetries
    case None => DEFAULT_REQUIRED_RETRIES
    case Some(n) => n
  }

  /** Durations in nanoseconds; zero is unset. */
  datatype ActivityOptions = ActivityOptions(
    scheduleToClose: int,
    startToClose: int,
    heartbeat: int,
    retryPolicy: Option<RetryPolicy>)

  datatype LocalActivityOptions = LocalActivityOptions(
    scheduleToClose: int,
    startToClose: int,
    retryPolicy: Option<RetryPolicy>)

  /** What the policies look at. */
  datatype Call = Call(
    scheduleToClose: int,
    startToClose: int,
    heartbeat: int,
    retryPolicy: Option<RetryPolicy>,
    isLocal: bool,
    requiredRetries: int)

  function DetectionDelay(heartbeat: int, startToClose: int): int {
    if heartbeat > 0 then heartbeat else startToClose
  }

  // ---------------------------------------------------------------- the policies, as the specification has them

  /** The lower bound on the schedule-to-close timeout, requirement 16. */
  function RequiredBudget(c: Call): int {
    MinimumBudget(DetectionDelay(c.heartbeat, c.startToClose), EffectivePacing(c.retryPolicy), c.requiredRetries)
  }

  predicate Violated(c: Call, p: Policy) {
    match p
    case ScheduleToCloseRequired => c.scheduleToClose <= 0
    case MaxAttemptsTooLow => c.retryPolicy.Some? && 1 <= c.retryPolicy.value.maximumAttempts <= 2
    case LocalActivityStartToCloseTooLong =>
      c.isLocal && !(0 < c.startToClose < LOCAL_ACTIVITY_MAX_START_TO_CLOSE)
    case TimeoutsPermitRetries =>
      && c.requiredRetries >= 1 && c.scheduleToClose > 0
      && DetectionDelay(c.heartbeat, c.startToClose) > 0
      && RequiredBudget(c) > c.scheduleToClose
  }

  function ExtraFields(c: Call, p: Policy): Extra {
    match p
    case ScheduleToCloseRequired => NoExtra
    case MaxAttemptsTooLow =>
      if c.retryPolicy.Some? then MaxAttempts(c.retryPolicy.value.maximumAttempts) else NoExtra
    case LocalActivityStartToCloseTooLong => StartToClose(c.startToClose)
    case TimeoutsPermitRetries =>
      Retries(c.requiredRetries, DetectionDelay(c.heartbeat, c.startToClose), RequiredBudget(c))
  }

  /** The violations of a call among `order`, in that order. */
  function Report(c: Call, order: seq<Policy>): seq<Violation> {
    if order == [] then [] else ReportOne(c, order[0]) + Report(c, order[1..])
  }

  /** The policies among `order` that a call violates and that are not ignored. */
  function Surfaced(o: Options, c: Call, order: seq<Policy>): seq<Policy> {
    if order == [] then []
    else
      (if Violated(c, order[0]) && SeverityFor(o, order[0]) != Ignore then [order[0]] else [])
      + Surfaced(o, c, order[1..])
  }

  /** No violated policy is at Error. */
  ghost predicate Allowed(o: Options, c: Call) {
    forall p :: Violated(c, p) ==> SeverityFor(o, p) != Error
  }

  /** The violation of one policy, if there is one. */
  function ReportOne(c: Call, p: Policy): seq<Violation> {
    if Violated(c, p) then [Violation(p, ExtraFields(c, p))] else []
  }

  lemma ReportUnrolled(c: Call)
    ensures Report(c, CANONICAL_ORDER)
            == ReportOne(c, ScheduleToCloseRequired) + ReportOne(c, MaxAttemptsTooLow)
               + ReportOne(c, LocalActivityStartToCloseTooLong) + ReportOne(c, TimeoutsPermitRetries)
  {
    var last := [TimeoutsPermitRetries];
    var lastTwo := [LocalActivityStartToCloseTooLong] + last;
    var lastThree := [MaxAttemptsTooLow] + lastTwo;
    assert CANONICAL_ORDER == [ScheduleToCloseRequired] + lastThree;
    assert Report(c, last) == ReportOne(c, TimeoutsPermitRetries) + Report(c, []);
    assert Report(c, lastTwo) == ReportOne(c, LocalActivityStartToCloseTooLong) + Report(c, last);
    assert Report(c, lastThree) == ReportOne(c, MaxAttemptsTooLow) + Report(c, lastTwo);
    assert Report(c, CANONICAL_ORDER) == ReportOne(c, ScheduleToCloseRequired) + Report(c, lastThree);
  }

  /** A report needs no sorting. */
  lemma ReportIsCanonical(c: Call)
    ensures InCanonicalOrder(Report(c, CANONICAL_ORDER)) == Report(c, CANONICAL_ORDER)
  {
    ReportUnrolled(c);
    SortedIsCanonical(Report(c, CANONICAL_ORDER));
  }

  /** Canonicalize, on a slice of its own. */
  method Sort(s: seq<Violation>) returns (sorted: seq<Violation>)
    ensures sorted == InCanonicalOrder(s)
  {
    var a := new Violation[|s|](i requires 0 <= i < |s| => s[i]);
    assert a[..] == s;
    Canonicalize(a);
    sorted := a[..];
  }

  method EvaluatePolicies(
    scheduleToClose: int, startToClose: int, heartbeat: int,
    retryPolicy: Option<RetryPolicy>, isLocal: bool, requiredRetries: int)
    returns (violations: seq<Violation>)
    ensures violations == Report(
      Call(scheduleToClose, startToClose, heartbeat, retryPolicy, isLocal, requiredRetries), CANONICAL_ORDER)
  {
    ghost var c := Call(scheduleToClose, startToClose, heartbeat, retryPolicy, isLocal, requiredRetries);
    ReportUnrolled(c);
    var out: seq<Violation> := [];
    if scheduleToClose <= 0 {
      out := out + [Violation(ScheduleToCloseRequired, NoExtra)];
    }
    assert out == ReportOne(c, ScheduleToCloseRequired);
    ghost var s1 := out;
    if retryPolicy.Some? && retryPolicy.value.maximumAttempts > 0 && retryPolicy.value.maximumAttempts < 3 {
      out := out + [Violation(MaxAttemptsTooLow, MaxAttempts(retryPolicy.value.maximumAttempts))];
    }
    assert out == s1 + ReportOne(c, MaxAttemptsTooLow);
    ghost var s2 := out;
    if isLocal {
      if startToClose <= 0 || startToClose >= LOCAL_ACTIVITY_MAX_START_TO_CLOSE {
        out := out + [Violation(LocalActivityStartToCloseTooLong, StartToClose(startToClose))];
      }
    }
    assert out == s2 + ReportOne(c, LocalActivityStartToCloseTooLong);
    ghost var s3 := out;
    if requiredRetries > 0 && scheduleToClose > 0 {
      var detect := DetectionDelay(heartbeat, startToClose);
      if detect > 0 {
        var minRequired := MinScheduleToClose(detect, retryPolicy, requiredRetries);
        if scheduleToClose < minRequired {
          out := out + [Violation(TimeoutsPermitRetries, Retries(requiredRetries, detect, minRequired))];
        }
      }
    }
    assert out == s3 + ReportOne(c, TimeoutsPermitRetries);
    ReportIsCanonical(c);
    violations := Sort(out);
  }

  // ---------------------------------------------------------------- handling violations

  datatype WorkflowInfo = WorkflowInfo(workflowId: string, runId: string)

  datatype LogEntry = LogEntry(violation: Violation, fail: bool, activityType: string, info: WorkflowInfo)

  /** Message and explanation texts are left out. */
  datatype PolicyViolationError = PolicyViolationError(
    policies: seq<Policy>,
    activityType: string,
    info: WorkflowInfo,
    nonRetryable: bool)

  function NonIgnored(o: Options, s: seq<Violation>): seq<Violation> {
    if s == [] then []
    else
      NonIgnored(o, s[..|s| - 1])
      + if SeverityFor(o, s[|s| - 1].policy) != Ignore then [s[|s| - 1]] else []
  }

  function PoliciesOf(s: seq<Violation>): (r: seq<Policy>)
    ensures |r| == |s|
  {
    seq(|s|, i requires 0 <= i < |s| => s[i].policy)
  }

  function EntryFor(o: Options, v: Violation, activityType: string, info: WorkflowInfo): LogEntry {
    LogEntry(v, SeverityFor(o, v.policy) == Error, activityType, info)
  }

  /** One entry per violation, in order. */
  ghost predicate Logs(
    entries: seq<LogEntry>, o: Options, s: seq<Violation>, activityType: string, info: WorkflowInfo)
  {
    |entries| == |s| && forall i :: 0 <= i < |s| ==> entries[i] == EntryFor(o, s[i], activityType, info)
  }

  datatype Scheduling =
    | Regular(activityType: string, options: ActivityOptions)
    | Local(activityType: string, localOptions: LocalActivityOptions)

  /** Neither timeout set: a heartbeat timeout of 30 seconds. */
  function WithDefaultHeartbeat(o: ActivityOptions): ActivityOptions {
    if o.heartbeat == 0 && o.startToClose == 0 then o.(heartbeat := DEFAULT_HEARTBEAT_TIMEOUT) else o
  }

  /** The call that is evaluated for a regular activity. */
  function RegularCall(o: Options, a: ActivityOptions): Call {
    var b := WithDefaultHeartbeat(a);
    Call(b.scheduleToClose, b.startToClose, b.heartbeat, b.retryPolicy, false, RequiredRetries(o))
  }

  function LocalCall(o: Options, a: LocalActivityOptions): Call {
    Call(a.scheduleToClose, a.startToClose, 0, a.retryPolicy, true, RequiredRetries(o))
  }

  class WorkflowOutbound {
    const opts: Options
    const info: WorkflowInfo
    var log: seq<LogEntry>            // what the logger has been given
    var forwarded: seq<Scheduling>    // what the next interceptor has been given

    constructor (opts: Options, info: WorkflowInfo)
      ensures this.opts == opts && this.info == info && log == [] && forwarded == []
    {
      this.opts, this.info, this.log, this.forwarded := opts, info, [], [];
    }

    method HandleViolations(activityType: string, violations: seq<Violation>)
      returns (error: Option<PolicyViolationError>)
      modifies this`log
      ensures error.None?
              <==> forall v :: v in violations ==> v.policy in opts.severities && opts.severities[v.policy] != Error
      ensures error.Some? ==> error.value == PolicyViolationError(
        PoliciesOf(NonIgnored(opts, violations)), activityType, info, true)
      ensures old(log) <= log
      ensures Logs(log[|old(log)|..], opts, NonIgnored(opts, violations), activityType, info)
    {
      if |violations| == 0 {
        return None;
      }
      var nonIgnored: seq<Violation> := [];
      var hasError := false;
      for i := 0 to |violations|
        invariant nonIgnored == NonIgnored(opts, violations[..i])
        invariant hasError <==> exists v :: v in violations[..i] && SeverityFor(opts, v.policy) == Error
        invariant nonIgnored == [] ==> !hasError
      {
        var v := violations[i];
        assert violations[..i + 1] == violations[..i] + [v];
        var severity := SeverityFor(opts, v.policy);
        if severity == Ignore {
          continue;
        }
        nonIgnored := nonIgnored + [v];
        if severity == Error {
          hasError := true;
        }
      }
      assert violations[..|violations|] == violations;
      if |nonIgnored| == 0 {
        return None;
      }
      for i := 0 to |nonIgnored|
        invariant old(log) <= log
        invariant Logs(log[|old(log)|..], opts, nonIgnored[..i], activityType, info)
      {
        var v := nonIgnored[i];
        log := log + [LogEntry(v, SeverityFor(opts, v.policy) == Error, activityType, info)];
        assert nonIgnored[..i + 1] == nonIgnored[..i] + [v];
      }
      assert nonIgnored[..|nonIgnored|] == nonIgnored;
      if !hasError {
        return None;
      }
      return Some(PolicyViolationError(PoliciesOf(nonIgnored), activityType, info, true));
    }

    /** A call is forwarded, with the default heartbeat, if and only if no violated policy is at
        Error; otherwise nothing is forwarded and the error names exactly the surfaced policies in
        canonical order. Either way each of them is logged once, in that order. */
    method ExecuteActivity(activityType: string, options: ActivityOptions)
      returns (error: Option<PolicyViolationError>)
      modifies this
      ensures error.None? <==> Allowed(opts, RegularCall(opts, options))
      ensures error.None?
              <==> forall p :: Violated(RegularCall(opts, options), p)
                               ==> p in opts.severities && opts.severities[p] != Error
      ensures forwarded == old(forwarded)
                           + if error.None? then [Regular(activityType, WithDefaultHeartbeat(options))] else []
      ensures error.None? ==>
                forwarded[|old(forwarded)|].options
                == if options.heartbeat == 0 && options.startToClose == 0
                   then ActivityOptions(options.scheduleToClose, 0, 30_000_000_000, options.retryPolicy) else options
      ensures error.Some? ==> error.value == PolicyViolationError(
        Surfaced(opts, RegularCall(opts, options), CANONICAL_ORDER), activityType, info, true)
      ensures old(log) <= log && Logs(log[|old(log)|..], opts,
        NonIgnored(opts, Report(RegularCall(opts, options), CANONICAL_ORDER)), activityType, info)
    {
      var o := options;
      if o.heartbeat == 0 && o.startToClose == 0 {
        o := o.(heartbeat := DEFAULT_HEARTBEAT_TIMEOUT);
      }
      var violations := EvaluatePolicies(
        o.scheduleToClose, o.startToClose, o.heartbeat, o.retryPolicy, false, RequiredRetries(opts));
      ReportSummary(opts, RegularCall(opts, options));
      AllowedOnTheMap(opts, RegularCall(opts, options));
      error := HandleViolations(activityType, violations);
      if error.Some? {
        return;
      }
      forwarded := forwarded + [Regular(activityType, o)];
    }

    method ExecuteLocalActivity(activityType: string, options: LocalActivityOptions)
      returns (error: Option<PolicyViolationError>)
      modifies this
      ensures error.None? <==> Allowed(opts, LocalCall(opts, options))
      ensures error.None?
              <==> forall p :: Violated(LocalCall(opts, options), p)
                               ==> p in opts.severities && opts.severities[p] != Error
      ensures forwarded == old(forwarded) + if error.None? then [Local(activityType, options)] else []
      ensures error.Some? ==> error.value == PolicyViolationError(
        Surfaced(opts, LocalCall(opts, options), CANONICAL_ORDER), activityType, info, true)
      ensures old(log) <= log && Logs(log[|old(log)|..], opts,
        NonIgnored(opts, Report(LocalCall(opts, options), CANONICAL_ORDER)), activityType, info)
    {
      var violations := EvaluatePolicies(
        options.scheduleToClose, options.startToClose, 0, options.retryPolicy, true, RequiredRetries(opts));
      ReportSummary(opts, LocalCall(opts, options));
      AllowedOnTheMap(opts, LocalCall(opts, options));
      error := HandleViolations(activityType, violations);
      if error.Some? {
        return;
      }
      forwarded := forwarded + [Local(activityType, options)];
    }
  }

  // ---------------------------------------------------------------- what is reported

  lemma {:induction false} ReportedAreViolated(c: Call, order: seq<Policy>, p: Policy)
    ensures (exists v :: v in Report(c, order) && v.policy == p) <==> p in order && Violated(c, p)
  {
    if order != [] {
      ReportedAreViolated(c, order[1..], p);
      if order[0] == p && Violated(c, p) {
        assert Violation(p, ExtraFields(c, p)) in Report(c, order);
      } else if exists v :: v in Report(c, order[1..]) && v.policy == p {
        var v :| v in Report(c, order[1..]) && v.policy == p;
        assert v in Report(c, order);
      }
    }
  }

  lemma {:induction false} NonIgnoredConcat(o: Options, s: seq<Violation>, t: seq<Violation>)
    ensures NonIgnored(o, s + t) == NonIgnored(o, s) + NonIgnored(o, t)
  {
    if t == [] {
      assert s + t == s;
    } else {
      assert (s + t)[..|s + t| - 1] == s + t[..|t| - 1];
      NonIgnoredConcat(o, s, t[..|t| - 1]);
    }
  }

  lemma {:induction false} NonIgnoredReportIsSurfaced(o: Options, c: Call, order: seq<Policy>)
    ensures PoliciesOf(NonIgnored(o, Report(c, order))) == Surfaced(o, c, order)
  {
    if order != [] {
      NonIgnoredReportIsSurfaced(o, c, order[1..]);
      NonIgnoredConcat(o, ReportOne(c, order[0]), Report(c, order[1..]));
    }
  }

  lemma ReportSummary(o: Options, c: Call)
    ensures PoliciesOf(NonIgnored(o, Report(c, CANONICAL_ORDER))) == Surfaced(o, c, CANONICAL_ORDER)
    ensures (forall v :: v in Report(c, CANONICAL_ORDER) ==> SeverityFor(o, v.policy) != Error) <==> Allowed(o, c)
  {
    NonIgnoredReportIsSurfaced(o, c, CANONICAL_ORDER);
    forall p: Policy
      ensures (exists v :: v in Report(c, CANONICAL_ORDER) && v.policy == p) <==> Violated(c, p)
    {
      assert CANONICAL_ORDER[Rank(p)] == p;
      ReportedAreViolated(c, CANONICAL_ORDER, p);
    }
  }

  lemma {:induction false} SurfacedInOrder(o: Options, c: Call, k: nat)
    requires k <= |CANONICAL_ORDER|
    ensures var s := Surfaced(o, c, CANONICAL_ORDER[k..]);
            && (forall p :: p in s <==> Rank(p) >= k && Violated(c, p) && SeverityFor(o, p) != Ignore)
            && (forall i, j :: 0 <= i < j < |s| ==> Rank(s[i]) < Rank(s[j]))
    decreases |CANONICAL_ORDER| - k
  {
    if k < |CANONICAL_ORDER| {
      SurfacedInOrder(o, c, k + 1);
      assert CANONICAL_ORDER[k..][1..] == CANONICAL_ORDER[k + 1..];
      assert Rank(CANONICAL_ORDER[k]) == k;
      forall p: Policy
        ensures Rank(p) >= k <==> Rank(p) >= k + 1 || p == CANONICAL_ORDER[k]
      {
      }
    }
  }

  /** Requirement 21: the error lists all violated policies but those that the options map to Ignore, each
      once, in canonical order. */
  lemma SurfacedExactly(o: Options, c: Call)
    ensures var s := Surfaced(o, c, CANONICAL_ORDER);
            && (forall p :: p in s <==> Violated(c, p) && !(p in o.severities && o.severities[p] == Ignore))
            && (forall i, j :: 0 <= i < j < |s| ==> Rank(s[i]) < Rank(s[j]))
  {
    SurfacedInOrder(o, c, 0);
    assert CANONICAL_ORDER[0..] == CANONICAL_ORDER;
  }

  // ---------------------------------------------------------------- on the options alone

  /** Requirement 3: a violated policy stops the call unless the options map it to something else than
      Error; one that they do not mention does stop it. */
  lemma AllowedOnTheMap(o: Options, c: Call)
    ensures Allowed(o, c) <==> forall p :: Violated(c, p) ==> p in o.severities && o.severities[p] != Error
  {}

  lemma {:induction false} NonIgnoredMembers(o: Options, s: seq<Violation>, v: Violation)
    ensures v in NonIgnored(o, s) <==> v in s && !(v.policy in o.severities && o.severities[v.policy] == Ignore)
  {
    if s != [] {
      NonIgnoredMembers(o, s[..|s| - 1], v);
      assert s == s[..|s| - 1] + [s[|s| - 1]];
    }
  }

  /** What is logged for a list of violations: those of all policies but the ones mapped to Ignore, and
      as failing unless the policy is mapped to something else than Error. */
  lemma LoggedOnTheMap(
    entries: seq<LogEntry>, o: Options, s: seq<Violation>, activityType: string, info: WorkflowInfo)
    requires Logs(entries, o, NonIgnored(o, s), activityType, info)
    ensures forall v :: (exists e :: e in entries && e.violation == v)
                        <==> v in s && !(v.policy in o.severities && o.severities[v.policy] == Ignore)
    ensures forall e :: e in entries ==>
              && e.activityType == activityType && e.info == info
              && (e.fail <==> (e.violation.policy in o.severities ==> o.severities[e.violation.policy] == Error))
  {
    var kept := NonIgnored(o, s);
    forall v: Violation
      ensures (exists e :: e in entries && e.violation == v)
              <==> v in s && !(v.policy in o.severities && o.severities[v.policy] == Ignore)
    {
      NonIgnoredMembers(o, s, v);
      if v in kept {
        var i :| 0 <= i < |kept| && kept[i] == v;
        assert entries[i] in entries && entries[i].violation == v;
      }
    }
  }

  /** A violation of this policy stops the call. */
  predicate Enforced(o: Options, p: Policy) {
    p in o.severities ==> o.severities[p] == Error
  }

  predicate AttemptsAdmitted(policy: Option<RetryPolicy>) {
    policy.None? || policy.value.maximumAttempts <= 0 || policy.value.maximumAttempts >= 3
  }

  /** N detections and the first N pauses fit. */
  predicate RetriesFit(scheduleToClose: int, detect: int, policy: Option<RetryPolicy>, n: int) {
    n <= 0 || n * detect + TotalPause(EffectivePacing(policy), n) <= scheduleToClose
  }

  /** The decision on a regular activity, from the caller's options to the last default: two retries, and
      a heartbeat of 30 seconds where neither timeout is set. */
  lemma RegularActivityAllowedIff(o: Options, a: ActivityOptions)
    ensures var n := if o.requiredRetries.None? then 2 else o.requiredRetries.value;
            var detect := if a.heartbeat > 0 then a.heartbeat
                          else if a.heartbeat == 0 && a.startToClose == 0 then 30_000_000_000 else a.startToClose;
            Allowed(o, RegularCall(o, a))
            <==> && (Enforced(o, ScheduleToCloseRequired) ==> a.scheduleToClose > 0)
                 && (Enforced(o, MaxAttemptsTooLow) ==> AttemptsAdmitted(a.retryPolicy))
                 && (Enforced(o, TimeoutsPermitRetries) && a.scheduleToClose > 0 && detect > 0
                     ==> RetriesFit(a.scheduleToClose, detect, a.retryPolicy, n))
  {
    var c := RegularCall(o, a);
    assert !Violated(c, LocalActivityStartToCloseTooLong);
    assert Violated(c, MaxAttemptsTooLow) <==> !AttemptsAdmitted(a.retryPolicy);
    EachPolicy(o, c);
  }

  /** The same for a local activity: no heartbeat, and a start-to-close timeout below ten seconds. */
  lemma LocalActivityAllowedIff(o: Options, a: LocalActivityOptions)
    ensures var n := if o.requiredRetries.None? then 2 else o.requiredRetries.value;
            Allowed(o, LocalCall(o, a))
            <==> && (Enforced(o, ScheduleToCloseRequired) ==> a.scheduleToClose > 0)
                 && (Enforced(o, MaxAttemptsTooLow) ==> AttemptsAdmitted(a.retryPolicy))
                 && (Enforced(o, LocalActivityStartToCloseTooLong) ==> 0 < a.startToClose < 10_000_000_000)
                 && (Enforced(o, TimeoutsPermitRetries) && a.scheduleToClose > 0 && a.startToClose > 0
                     ==> RetriesFit(a.scheduleToClose, a.startToClose, a.retryPolicy, n))
  {
    var c := LocalCall(o, a);
    assert Violated(c, MaxAttemptsTooLow) <==> !AttemptsAdmitted(a.retryPolicy);
    EachPolicy(o, c);
  }

  lemma EachPolicy(o: Options, c: Call)
    ensures Allowed(o, c)
            <==> && (Enforced(o, ScheduleToCloseRequired) ==> !Violated(c, ScheduleToCloseRequired))
                 && (Enforced(o, MaxAttemptsTooLow) ==> !Violated(c, MaxAttemptsTooLow))
                 && (Enforced(o, LocalActivityStartToCloseTooLong) ==> !Violated(c, LocalActivityStartToCloseTooLong))
                 && (Enforced(o, TimeoutsPermitRetries) ==> !Violated(c, TimeoutsPermitRetries))
  {
    AllowedOnTheMap(o, c);
    forall p | Violated(c, p)
      ensures p == CANONICAL_ORDER[Rank(p)]
    {}
  }

  /** The log fields tell the caller what would have passed: the reported minimum is the least
      schedule-to-close timeout with which the call meets the policy. */
  lemma ReportedMinimumIsLeast(c: Call, v: Violation, timeout: int)
    requires v in Report(c, CANONICAL_ORDER) && v.policy == TimeoutsPermitRetries && timeout > 0
    ensures v.extra.Retries? && v.extra.required == c.requiredRetries >= 1
    ensures v.extra.detectionDelay == (if c.heartbeat > 0 then c.heartbeat else c.startToClose) > 0
    ensures Violated(c.(scheduleToClose := timeout), TimeoutsPermitRetries)
            <==> timeout < v.extra.minScheduleToClose
  {
    ReportUnrolled(c);
    assert v == Violation(TimeoutsPermitRetries, ExtraFields(c, TimeoutsPermitRetries));
  }

  /** The other log fields: the values that are out of bounds. */
  lemma ReportedValuesAreOutOfBounds(c: Call, v: Violation)
    requires v in Report(c, CANONICAL_ORDER)
    ensures v.policy == ScheduleToCloseRequired ==> v.extra == NoExtra
    ensures v.policy == MaxAttemptsTooLow ==>
              c.retryPolicy.Some? && v.extra == MaxAttempts(c.retryPolicy.value.maximumAttempts)
              && 1 <= v.extra.attempts <= 2
    ensures v.policy == LocalActivityStartToCloseTooLong ==>
              v.extra == StartToClose(c.startToClose) && !(0 < v.extra.duration < 10_000_000_000)
  {
    ReportUnrolled(c);
  }

  /** All that a local call can violate at once, in the order in which the error lists it. */
  lemma CanonicalOrderExample()
    ensures var policy := Some(RetryPolicy(0, 0.0, 0, 1));
            && Surfaced(Options(map[], None), Call(0, 0, 0, policy, true, 2), CANONICAL_ORDER)
               == [ScheduleToCloseRequired, MaxAttemptsTooLow, LocalActivityStartToCloseTooLong]
            && Surfaced(Options(map[], None), Call(20_000_000_000, 10_000_000_000, 0, policy, true, 2), CANONICAL_ORDER)
               == [MaxAttemptsTooLow, LocalActivityStartToCloseTooLong, TimeoutsPermitRetries]
  {
    var o, policy := Options(map[], None), Some(RetryPolicy(0, 0.0, 0, 1));
    var c, d := Call(0, 0, 0, policy, true, 2), Call(20_000_000_000, 10_000_000_000, 0, policy, true, 2);
    var b := EffectivePacing(policy);
    TotalPauseMonotone(b, b, 0, 1);
    IntervalMonotoneInAttempt(b, 1, 2);
    assert TotalPause(b, 2) == TotalPause(b, 1) + RetryInterval(b, 2);
    ReportUnrolled(c);
    ReportUnrolled(d);
    NonIgnoredReportIsSurfaced(o, c, CANONICAL_ORDER);
    NonIgnoredReportIsSurfaced(o, d, CANONICAL_ORDER);
  }
}
