# Activity retries: a verified model

A Dafny 4.11 model of what this repository says about retried Temporal activities, with proofs over every
configuration and every run. `dafny verify dfyconfig.toml` checks it.

Core of the project:

- **The crash timeline** (`Timeline`, `WordTimeline`, `RustBackoff`, `RustModel`). The formal model of the activity
  policy interceptor is a state machine in which the worker crashes 1ms into every attempt, and a closed form meant to
  predict whether a third attempt starts. The repository compares the two on a finite grid. Here the machine is solved
  exactly: attempt k starts if and only if k - 1 detection delays and pauses fit the deadline and the limits allow it,
  at whatever time before its detection each crash happens. The closed form follows for all configurations. The same
  machine in `u32` arithmetic is proved equal to it step by step under a guard on the deadline and the detection delay,
  and the guard is proved to be the weakest one; without it, the configurations for which the two part are given exactly.
- **The backoff formulas** (`RustBackoff`, `GoBackoff`, `RetryDelay`). The early-exit loop in saturating `u64`, the
  power-then-clamp formula of the interceptor and the overflow-guarded delay helper: what each computes, exactly when
  the helper and the interceptor agree, with and without a maximum interval, and how the intervals are ordered otherwise.
- **The interceptor** (`Canonical`, `Interceptor`, `Guarantee`). The four policies, severities, the stable in-place
  sort, the aggregated error and the two scheduling calls; then, end to end, that a call which is let through gets its
  required retries on the crash timeline, exactly when its attempt limit leaves room for them; and exactly when the
  timeouts policy, in nanoseconds, and the closed form, in milliseconds, decide alike.
- **Retry protocols** (`Checkpoint`, `Idempotency`, `HttpHeaders`, `Payments`, `Updates`, `KubernetesJob`). Resuming from
  heartbeats, charging at most once, updates in any order, and create-or-get, each over all histories; a charge
  and a create-or-get as written are shown to be runs of their protocols.

Where the code does not do what it is for, a lemma gives a concrete input and another one the exact condition:

- An attempt can be gained from a `u32` sum that wraps around (`RustModel.WrappedThirdAttempt`; exactly when:
  `RustModel.WordMachineThirdIff` for a configuration, `RustModel.WordMachineExactIff` for a deadline and a delay).
- A pause of 2^32 ms or more loses its high bits in the cast (`RustModel.TruncationCounterexample`; exactly when:
  `RustModel.ClosedFormTrueIff` for a configuration, `RustModel.ClosedFormTrueForBackoffIff` for a backoff).
- The early exit of the interval loop is wrong for some coefficients below 1.0 (`RustBackoff.EarlyBreakExactIff`, and with
  the cast `RustBackoff.IntervalsExactIff`).
- The delay helper takes an underflow for an overflow (`RetryDelay.DelayIsClampedPowerIff`), and without a maximum
  interval a later attempt may wait less (`RetryDelay.UncappedMonotoneIff`).
- Without a maximum interval the delay helper does not cap at 100 times the initial interval, as the interceptor does
  (`RetryDelay.DefaultPolicyDisagrees`; exactly when they agree: `RetryDelay.UncappedAgreesWithInterceptorIff`).
- Updates under one shared ID leave the result to the order of delivery (`Updates.OrderMattersForSharedId`; exactly when
  not: `Updates.OrderIrrelevantIff`).
- A negative coefficient is 0 to the delay helper and unset to the interceptor
  (`RetryDelay.NegativeCoefficientDisagrees`; exactly when they agree all the same: `RetryDelay.AgreesWithInterceptorIff`
  and `RetryDelay.UncappedAgreesWithInterceptorIff`).
- The closed form passes configurations that the interceptor rejects: the model rounds pauses down to milliseconds
  (`Guarantee.RoundingCounterexample`), casts them to 32 bits, and takes an initial interval of zero for no pause where the
  interceptor takes a second (`Guarantee.ZeroIntervalCounterexample`). Exactly when the two decide alike:
  `Guarantee.GoAndModelDecideAlikeIff`.
- With three or more required retries a low attempt limit passes every policy and still stops the last retry
  (`Guarantee.AttemptLimitGap`).
- The current acceptance rules admit configurations without two retries (`RustModel.RecordedCounterexamples`).

Conventions: model times are milliseconds, Go durations nanoseconds. Float coefficients are exact reals, or tenths where
the formal model has them. `Unbounded` and `Word32` select the arithmetic of the timeline. `target` is the number of
attempts after which exploration stops, 3 in the original.

The comment on the Rust interval says it mirrors initial × backoff^(N-1); the code rounds down to a millisecond at every
step. Against the nanoseconds of the interceptor the second pause can already be less (`Guarantee.FirstTwoPauses`), and from
the third on it can be less in milliseconds too (`Guarantee.ThirdPausesCanDiffer`). The README of the formal model
(specs/activitypolicyinterceptor/model/README.md:46-49) expects later crashes to make the property easier; on the machine
they change nothing (`Timeline.CrashTimesDoNotMatter`). The comment on the Go delay helper
(internal/activityhelpers/retry.go:24-25) says that zero fields get their documented defaults; the code gives an unset
maximum interval none, as the comment on its inner function says. The model follows the code in all of these.

## Model

| member | source | states |
|---|---|---|
| Timeline.Actions | specs/activitypolicyinterceptor/model/src/lib.rs:321-365 | offers at most one action: none when done, satisfied or late, Deadline when the pending event falls after the deadline or attempts are used up, the event otherwise |
| Timeline.NextState | specs/activitypolicyinterceptor/model/src/lib.rs:367-406 | the state after an action, or none when the action does not fit the phase |
| Timeline.ReachableOnSchedule | specs/activitypolicyinterceptor/model/src/lib.rs:321-406 | in every reachable state the start, crash, detection and backoff times are the closed-form sums, no attempt starts after the deadline, attempts respect a nonzero limit, and Done means that the next attempt is infeasible |
| Timeline.ClockNeverRunsBack | specs/activitypolicyinterceptor/model/src/lib.rs:174-175 | time never decreases along a run |
| Timeline.FeasibleAttemptStarts | specs/activitypolicyinterceptor/model/src/lib.rs:367-406 | a feasible attempt k is started by step 3k - 2, at exactly its closed-form time |
| Timeline.AttemptStartsIff | specs/activitypolicyinterceptor/model/README.md:95-107 | for any plan, any crash times before the detections, and any k: attempt k starts if and only if its closed-form start is within the deadline and the attempt limit and target admit it |
| Timeline.HaltedRunsAreExhausted | specs/activitypolicyinterceptor/model/src/lib.rs:140-142 | a run halts only at the target or when the next attempt is infeasible |
| Timeline.StepsMakeProgress | specs/activitypolicyinterceptor/model/src/lib.rs:321-406 | every offered action yields a state and strictly decreases a measure, whatever the target |
| Timeline.EveryRunEnds | specs/activitypolicyinterceptor/model/README.md:121-122 | no run is longer than 4 * deadline + 7 steps |
| Timeline.EveryRunHalts | specs/activitypolicyinterceptor/model/src/lib.rs:321-365 | on either clock and for any delays a run comes to a state that offers no action, within four steps for each attempt of the target |
| Timeline.HaltDecides | specs/activitypolicyinterceptor/model/src/lib.rs:140-142 | attempt k is started in some state of a run if and only if it is counted in the state where the run halts |
| Timeline.GenerousPlansStartNoFewer | specs/activitypolicyinterceptor/model/README.md:51-54 | a later deadline, earlier detection on any attempt, shorter pauses or a looser limit never lose an attempt, whatever the crash times |
| Timeline.CrashTimesDoNotMatter | specs/activitypolicyinterceptor/model/README.md:46-49 | the same attempts start whenever each one crashes before its detection |
| WordTimeline.NothingWraps | specs/activitypolicyinterceptor/model/src/lib.rs:342-349 | under the guard no plain `u32` sum formed in a reachable state wraps |
| WordTimeline.WordStep | specs/activitypolicyinterceptor/model/src/lib.rs:383-396 | under the guard the `u32` machine offers the same action and moves to the same state; a saturated backoff end changes nothing |
| WordTimeline.WordRunIsExact | specs/activitypolicyinterceptor/model/src/lib.rs:321-406 | under the guard the whole `u32` run is the exact run, for every target |
| WordTimeline.FeasibleAttemptStartsInWords | specs/activitypolicyinterceptor/model/src/lib.rs:367-406 | without any guard, whatever the exact timeline starts the `u32` machine starts at the same step and time |
| WordTimeline.ThirdAttemptInWordsIff | specs/activitypolicyinterceptor/model/src/lib.rs:321-406 | for any 32-bit quantities, with or without the guard, the `u32` machine starts a third attempt if and only if the three sums fit the deadline, or the second detection wraps to an early time, or saturation at the last deadline hides the excess |
| RustBackoff.DetectionDelayMs | specs/activitypolicyinterceptor/model/src/lib.rs:75-81 | for accepted configurations the delay is at least 1ms and within the deadline |
| RustBackoff.RetryIntervalMs | specs/activitypolicyinterceptor/model/src/lib.rs:110-126 | for every configuration and attempt, the loop with its saturation, early exit and cast returns the low 32 bits of the interval meant, or of the cap where the early exit does harm |
| RustBackoff.LoopValue | specs/activitypolicyinterceptor/model/src/lib.rs:110-124 | the saturating loop that stops at the cap arrives at min(cap, iterated scaling) in unbounded integers, except that it gives the cap for every attempt where the first scaling is not below it although the coefficient is below 1.0 |
| RustBackoff.EarlyBreakExactIff | specs/activitypolicyinterceptor/model/src/lib.rs:118-124 | for all `u32` attempts the interval returned is the low 32 bits of min(cap, iterated scaling) if and only if the coefficient is at least 1.0, or the first scaling is below the cap, or the cap is 0 |
| RustBackoff.IntervalsExactIff | specs/activitypolicyinterceptor/model/src/lib.rs:107-126 | for all `u32` attempts the interval returned is min(cap, iterated scaling) itself if and only if moreover the cap is a 32-bit number or the coefficient is at most 1.0 |
| RustBackoff.EarlyBreakCounterexample | specs/activitypolicyinterceptor/model/src/lib.rs:118-124 | a configuration for which the early exit makes the fourth pause 80 instead of 72 |
| RustBackoff.PausesNeverShrink | specs/activitypolicyinterceptor/model/src/lib.rs:107-126 | with a coefficient of at least 1.0 intervals are non-decreasing and below the cap |
| RustBackoff.FirstPause | specs/activitypolicyinterceptor/model/src/lib.rs:61-64 | for accepted configurations the first interval is the initial one, uncast and unclamped |
| RustBackoff.AcceptedIntervalsAreIdeal | specs/activitypolicyinterceptor/model/src/lib.rs:107-126 | for accepted configurations with a 32-bit cap, the computed interval is min(cap, iterated scaling) in unbounded integers |
| RustModel.ClosedFormDecidesThirdAttempt | specs/activitypolicyinterceptor/model/src/lib.rs:83-105 | for every accepted configuration the closed form holds if and only if a third attempt starts on the exact timeline |
| RustModel.ClosedFormDecidesWordMachine | specs/activitypolicyinterceptor/model/README.md:97-107 | the same of the `u32` machine, under the guard |
| RustModel.ClosedFormIsSoundInWords | specs/activitypolicyinterceptor/model/README.md:13-19 | whatever the closed form accepts, the `u32` machine starts a third attempt, with no guard |
| RustModel.RatioReservesATenth | specs/activitypolicyinterceptor/model/src/lib.rs:50-55 | without a heartbeat the 2.1 ratio reserves two detections and a tenth of the start-to-close timeout; pauses within that tenth are enough for two retries and, at the least budget admitted, necessary |
| RustModel.WrappedThirdAttempt | specs/activitypolicyinterceptor/model/src/lib.rs:343-343 | for every deadline and delay outside the guard, an accepted configuration that the `u32` machine passes and the closed form rejects |
| RustModel.WordMachineExactIff | specs/activitypolicyinterceptor/model/src/lib.rs:321-406 | for a given deadline and delay the `u32` machine agrees with the closed form on all accepted configurations if and only if the guard holds |
| RustModel.WordMachineThirdIff | specs/activitypolicyinterceptor/model/src/lib.rs:321-406 | for each accepted configuration, with or without the guard: the `u32` machine starts a third attempt if and only if the closed form holds or the configuration is one of those that gain it, as told from its deadline, delay and first two pauses |
| RustModel.ClosedFormTrueIff | specs/activitypolicyinterceptor/model/src/lib.rs:93-126 | the closed form agrees with the timeline of the intended intervals unless the second pause exceeds 32 bits and what the cast leaves of it fits the budget, and only then does it not; a 32-bit cap rules this out |
| RustModel.ClosedFormTrueForBackoffIff | specs/activitypolicyinterceptor/model/src/lib.rs:107-126 | the closed form agrees with the timeline of the intended intervals on all accepted configurations with a given backoff if and only if the second pause of that backoff is a 32-bit number, or what the cast leaves of it is too long for any budget |
| RustModel.TruncationCounterexample | specs/activitypolicyinterceptor/model/src/lib.rs:125-125 | a configuration that passes only because a pause of 2^32 ms is cast to 0 |
| RustModel.InitConfigs | specs/activitypolicyinterceptor/model/src/lib.rs:311-319 | under either filter exactly the listed configurations that it accepts get an initial state |
| RustModel.PermittedNeverStuck | specs/activitypolicyinterceptor/model/src/lib.rs:408-427 | under the closed form no reachable state of the `u32` machine is stuck with fewer than three attempts |
| RustModel.PropertyMeansThirdAttempt | specs/activitypolicyinterceptor/model/src/lib.rs:408-427 | for every configuration, accepted or not, the checked property holds in all states of the `u32` machine if and only if it starts a third attempt |
| RustModel.PropertyHoldsIff | specs/activitypolicyinterceptor/model/src/lib.rs:408-427 | the checked property holds in all states of an accepted configuration if and only if the closed form holds or the configuration gains an attempt in `u32` arithmetic; under the guard, if and only if the closed form holds |
| RustModel.StrictSearchHolds | specs/activitypolicyinterceptor/model/tests/property.rs:10-18 | the property holds of a strict search over any list of configurations |
| RustModel.CurrentSearchHoldsIff | specs/activitypolicyinterceptor/model/src/lib.rs:189-196 | a search under the current rules, over any list, holds if and only if each configuration they accept satisfies the closed form or gains an attempt in `u32` arithmetic |
| RustModel.RecordedCounterexamples | specs/activitypolicyinterceptor/model/README.md:56-93 | the two recorded configurations are accepted, violate the property, and start two attempts and one |
| RustModel.RecordedTrace | specs/activitypolicyinterceptor/model/README.md:58-75 | every state of the first recorded trace, on either clock |
| RustModel.RecordedTraceWithHeartbeat | specs/activitypolicyinterceptor/model/README.md:77-93 | the detection, the backoff and the end of the second one |
| GoBackoff.EffectivePacing | examples/go/activitypolicyinterceptor/interceptor.go:403-420 | with unset fields defaulted, initial interval, coefficient and cap are all positive |
| GoBackoff.MinScheduleToClose | examples/go/activitypolicyinterceptor/interceptor.go:428-436 | the loop returns N detection delays and the first N intervals |
| GoBackoff.UnsetFieldsAreDefaults | examples/go/activitypolicyinterceptor/interceptor.go:403-420 | no retry policy is paced like a policy that sets nothing, and a field that is not positive is unset |
| GoBackoff.DefaultIntervals | examples/go/activitypolicyinterceptor/interceptor.go:403-426 | without a retry policy the intervals are 1, 2, 4, ... seconds, and 100 seconds from the eighth on |
| GoBackoff.DefaultBudgetInSeconds | examples/go/activitypolicyinterceptor/interceptor.go:428-436 | without a retry policy the budget for N retries is N detection delays and 2^N - 1 seconds up to N = 7, with 100 seconds for each further retry; for two retries, 3 seconds |
| GoBackoff.IntervalIsClampedPower | examples/go/activitypolicyinterceptor/interceptor.go:421-425 | the interval is min(cap, floor of the power), between 0 and the cap |
| GoBackoff.IntervalMonotoneInPolicy | examples/go/activitypolicyinterceptor/interceptor.go:403-426 | the interval grows with initial interval, coefficient and cap |
| GoBackoff.IntervalMonotoneInAttempt | examples/go/activitypolicyinterceptor/interceptor.go:403-426 | with a coefficient of at least 1.0 the interval is positive and non-decreasing in the attempt |
| GoBackoff.BudgetMonotone | specs/activitypolicyinterceptor/model/README.md:43-44 | the required budget grows with retries, detection delay and every part of the backoff |
| GoBackoff.IteratedFloorBelowPower | specs/activitypolicyinterceptor/model/src/lib.rs:118-119 | rounding down at every step stays below rounding down once |
| RetryDelay.ZeroMeansNoRetry | internal/activityhelpers/retry.go:44-53 | the delay is zero if and only if there is no policy or no attempt left, and positive otherwise, on every platform |
| RetryDelay.NextDelayIsDocumentedIff | internal/activityhelpers/retry.go:22-30 | of the delay that callers ask for, on the fields of the policy: while a retry remains it is initial * factor^(attempt-1), with the greater of floor and coefficient as factor and the defaults of unset fields, up to the maximum if set, exactly when that power is at least 1ns and, without a maximum, a duration |
| RetryDelay.DelayIsClampedPowerIff | internal/activityhelpers/retry.go:74-87 | with a maximum interval the documented formula holds, for any coefficient and floor and whatever an overflow converts to, if and only if the scaled delay is at least 1ns |
| RetryDelay.UnderflowCounterexample | internal/activityhelpers/retry.go:76-83 | a shrinking delay that jumps from 1ns to the maximum |
| RetryDelay.DelayMonotone | internal/activityhelpers/retry.go:22-30 | with a maximum interval and a coefficient of at least 1.0 the delay grows with the attempt and with the coefficient floor, also across platforms |
| RetryDelay.AgreesWithInterceptorIff | internal/activityhelpers/retry.go:63-88 | with a maximum interval and without a floor the helper equals the interval of the interceptor if and only if the scaled delay is at least 1ns, so for any coefficient unset or at least 1.0, or the coefficient is negative and doubling reaches the maximum |
| RetryDelay.NegativeCoefficientDisagrees | internal/activityhelpers/retry.go:68-72 | a policy with coefficient -1.0 for which the helper waits 100s before retry 2 and the interceptor counts 2s |
| RetryDelay.UncappedAgreesWithInterceptorIff | examples/go/activitypolicyinterceptor/interceptor.go:416-426 | without a maximum interval they agree if and only if the scaled delay is at least 1ns and within both a duration and 100 times the initial interval, or an overflow is replaced by an hour and that cap is an hour, or a negative coefficient gives an hour and doubling up to the cap does too |
| RetryDelay.DefaultPolicyDisagrees | internal/activityhelpers/retry.go:24-25 | with every field unset the helper waits 128s before retry 8 and the interceptor counts 100s |
| RetryDelay.UncappedDelay | internal/activityhelpers/retry.go:76-83 | without a maximum, for any coefficient and floor: the exact delay in range, an hour below 1ns, and out of range an hour or the greatest duration |
| RetryDelay.UncappedIsPowerIff | internal/activityhelpers/retry.go:74-87 | without a maximum, for any coefficient and floor, the delay is the documented power if and only if that is at least 1ns and a duration |
| RetryDelay.UncappedMonotoneIff | internal/activityhelpers/retry.go:74-87 | without a maximum, and with a coefficient of at least 1.0, the delay is non-decreasing between two attempts if and only if the conversion does not overflow downwards between them from above an hour |
| RetryDelay.UncappedShrinkingIff | internal/activityhelpers/retry.go:74-87 | without a maximum, and with a coefficient from 0 to 1.0, the delay is non-increasing between two attempts if and only if it does not drop below 1ns from less than an hour, nor return from an overflow to more than an hour |
| RetryDelay.UncappedCounterexample | internal/activityhelpers/retry.go:76-83 | an uncapped policy under which attempt 2 waits 2^62ns and attempt 3 an hour |
| Canonical.Canonicalize | examples/go/activitypolicyinterceptor/interceptor.go:438-447 | the in-place sort arranges any violations by rank, keeps the order within a policy, and permutes them |
| Canonical.SwapKeepsSelections | examples/go/activitypolicyinterceptor/interceptor.go:443-445 | exchanging neighbours of different rank keeps every per-policy order |
| Canonical.StableSortIsCanonical | examples/go/activitypolicyinterceptor/interceptor.go:438-447 | the stable arrangement by rank is unique, and a permutation |
| Interceptor.EvaluatePolicies | examples/go/activitypolicyinterceptor/interceptor.go:329-390 | reports exactly the policies violated in the sense of the specification, with their log fields, in canonical order |
| Interceptor.ReportIsCanonical | examples/go/activitypolicyinterceptor/interceptor.go:335-389 | the violations are collected in canonical order already |
| Interceptor.WorkflowOutbound.HandleViolations | examples/go/activitypolicyinterceptor/interceptor.go:258-317 | for any list of violations: an error unless the options map each policy in it to something else than Error, listing those not ignored, and one log entry for each of these in order |
| Interceptor.WorkflowOutbound.ExecuteActivity | examples/go/activitypolicyinterceptor/interceptor.go:205-234 | forwards, with a heartbeat of 30 seconds where neither timeout is set and otherwise unmodified, if and only if the options map every violated policy to something else than Error; otherwise forwards nothing and returns the aggregated error |
| Interceptor.WorkflowOutbound.ExecuteLocalActivity | examples/go/activitypolicyinterceptor/interceptor.go:236-256 | the same for a local activity, always unmodified |
| Interceptor.ReportedAreViolated | specs/activitypolicyinterceptor/README.md:57-108 | a policy is reported if and only if it is evaluated and violated |
| Interceptor.SurfacedExactly | specs/activitypolicyinterceptor/README.md:114-114 | the error lists all violated policies that the options do not map to Ignore, each once, in canonical order |
| Interceptor.AllowedOnTheMap | specs/activitypolicyinterceptor/README.md:34-41 | a policy that the options do not mention is at Error |
| Interceptor.LoggedOnTheMap | specs/activitypolicyinterceptor/README.md:43-47 | violations are logged unless their policy is mapped to Ignore, and as failing unless it is mapped to something else than Error |
| Interceptor.RegularActivityAllowedIff | examples/go/activitypolicyinterceptor/interceptor.go:205-234 | the decision on a regular activity in terms of its options: timeout set, attempts unlimited or at least three, and detections and pauses within the timeout, each only if enforced, with the defaults of 2 retries and 30 seconds |
| Interceptor.LocalActivityAllowedIff | examples/go/activitypolicyinterceptor/interceptor.go:236-256 | the same for a local activity, with a start-to-close timeout below 10 seconds and no heartbeat |
| Interceptor.ReportedMinimumIsLeast | examples/go/activitypolicyinterceptor/interceptor.go:365-387 | the minimum in the log fields is the least schedule-to-close timeout that meets the policy |
| Interceptor.ReportedValuesAreOutOfBounds | examples/go/activitypolicyinterceptor/interceptor.go:338-363 | the other log fields are the values of the call that are out of bounds |
| Interceptor.CanonicalOrderExample | specs/activitypolicyinterceptor/README.md:114-114 | two local calls that violate three policies each, listed in the documented order |
| Guarantee.TimeoutsPolicyExact | specs/activitypolicyinterceptor/README.md:83-96 | for any N: attempt N + 1 starts on the crash timeline if and only if the timeouts policy passes and the limit leaves room |
| Guarantee.ForwardedActivityGetsRetriesIff | examples/go/activitypolicyinterceptor/interceptor.go:205-234 | an activity let through gets its required retries if and only if its limit leaves room, and always for up to two |
| Guarantee.ForwardedLocalActivityGetsRetriesIff | examples/go/activitypolicyinterceptor/interceptor.go:236-256 | the same of a local activity |
| Guarantee.AttemptLimitGap | examples/go/activitypolicyinterceptor/interceptor.go:345-352 | options that pass every policy at Error, with three retries required and three attempts allowed, whose third retry never starts |
| Guarantee.PassingIsMonotone | examples/go/activitypolicyinterceptor/interceptor.go:365-387 | a passing call still passes with a larger budget, fewer retries, or a smaller delay or backoff |
| Guarantee.ModelPauseNeverLonger | specs/activitypolicyinterceptor/model/src/lib.rs:107-126 | for every configuration the intended interval of the formal model, in any finer unit, never exceeds that of the interceptor |
| Guarantee.FirstTwoPauses | examples/go/activitypolicyinterceptor/interceptor.go:403-426 | in any unit the first intervals are equal, and the second ones differ by the fraction of a millisecond that the model rounds off |
| Guarantee.ThirdPausesCanDiffer | specs/activitypolicyinterceptor/model/src/lib.rs:107-126 | a configuration whose third intervals are 17 and 18 |
| Guarantee.ModelStartsNoLater | examples/go/activitypolicyinterceptor/interceptor.go:428-436 | for every configuration, in any unit, the required budget of the interceptor covers the start of attempt N + 1 in the formal model |
| Guarantee.ModelStartsExactly | examples/go/activitypolicyinterceptor/interceptor.go:428-436 | for up to two retries, in any unit, it is that start plus what is rounded off the second interval |
| Guarantee.ForwardedConfigRetriesInModel | examples/go/activitypolicyinterceptor/interceptor.go:205-234 | a configuration let through, in any unit and with any cap, starts its N-th retry with the intended intervals, and in the `u32` model too unless the early exit of the interval loop does harm |
| Guarantee.GoAndModelDecideAlikeIff | specs/activitypolicyinterceptor/model/src/lib.rs:93-105 | for two retries and every accepted configuration, in any unit, the timeouts policy and the closed form decide alike if and only if neither the 32-bit cast, nor the rounding of the second interval, nor an initial interval of zero matters; and the policy is never the laxer one |
| Guarantee.RoundingCounterexample | examples/go/activitypolicyinterceptor/interceptor.go:365-387 | in nanoseconds, a configuration that the closed form passes and the timeouts policy rejects for a tenth of a millisecond |
| Guarantee.ZeroIntervalCounterexample | examples/go/activitypolicyinterceptor/interceptor.go:405-411 | one that the policy rejects because it takes an initial interval of zero for one second |
| Guarantee.AcceptedIffPolicies | specs/activitypolicyinterceptor/model/src/lib.rs:32-70 | the configurations that the model calls accepted are the well-formed ones whose calls meet the first two policies of the interceptor and the 2.1 ratio or set a heartbeat |
| Checkpoint.RecordServer.ProcessRecordsActivity | src/not_using_activity_heartbeat_details/activity.go:22-38 | the calls and heartbeats of one attempt, and whether it succeeds, for any details and any fault |
| Checkpoint.SuccessMeansAllProcessed | src/not_using_activity_heartbeat_details/README.md:5-8 | over all runs, with heartbeats lost or stale: no record is touched before all earlier ones were processed, and a success means that all were |
| Checkpoint.FailsIff | src/not_using_activity_heartbeat_details/activity.go:31-37 | an attempt fails exactly when its fault strikes a record that is left, or crashes before the result |
| Checkpoint.FaultStrikesAt | src/not_using_activity_heartbeat_details/activity.go:31-36 | an attempt hit by a fault has processed and heartbeated the records before, and called the one it was hit at unless it crashed first |
| Checkpoint.CleanAttemptFinishes | src/not_using_activity_heartbeat_details/README.md:5-8 | whatever happened before, with heartbeats lost or stale, an attempt without a fault succeeds and all records have been processed |
| Checkpoint.CallsConserved | src/not_using_activity_heartbeat_details/README.md:8-8 | if heartbeats are kept, each record is heartbeated once in order, and every call is one of these or wasted by a fault |
| Checkpoint.NoRedundantWork | src/not_using_activity_heartbeat_details/README.md:8-8 | then calls are at most the records plus the failed attempts |
| Checkpoint.WorkConserved | src/not_using_activity_heartbeat_details/activity.go:22-38 | with heartbeats lost or stale, the calls are the records completed, without a gap, plus those completed again, plus the calls wasted by faults; after a success all records are completed |
| Checkpoint.WorkIsBounded | src/not_using_activity_heartbeat_details/README.md:8-8 | then calls are at most the records, plus how far each attempt starts behind the records completed, plus the wasted calls |
| Idempotency.GetIdempotencyToken | internal/activityhelpers/idempotency.go:25-36 | the successive writes hash workflow ID, run ID and activity ID in this order with NUL between, independent of the attempt |
| Idempotency.DecodesIff | internal/activityhelpers/idempotency.go:27-34 | the encoding can be read back if and only if workflow ID and run ID are free of NUL |
| Idempotency.PreimageInjective | internal/activityhelpers/idempotency.go:27-29 | NUL-free identities, of any lengths, have different encodings |
| Idempotency.NulMakesCollision | internal/activityhelpers/idempotency.go:27-29 | an identity with a NUL anywhere shares its encoding with another |
| Idempotency.UniqueAmongAllIff | internal/activityhelpers/idempotency.go:27-34 | an encoding is unique among all identities if and only if the identity is free of NUL |
| HttpHeaders.CaseDoesNotMatter | internal/activityhelpers/http.go:127-134 | header names that differ only in case name the same header |
| HttpHeaders.CanonicalKeyIsCanonical | internal/activityhelpers/http.go:127-134 | the canonical form of a name is its own canonical form, so what is set is found |
| HttpHeaders.OnlyCaseIsLost | internal/activityhelpers/http.go:127-134 | names with the same canonical form differ only in case |
| HttpHeaders.CanonicalKeyAt | internal/activityhelpers/http.go:127-134 | the canonical form has capitals at the start and after hyphens, and small letters elsewhere |
| Payments.SetIdempotencyHeader | internal/activityhelpers/http.go:126-135 | the token is set under the configured or default header, in whatever case it is written, exactly when the header is empty and there is a token |
| Payments.BuildChargeRequest | examples/go/payments/activity.go:98-111 | a fresh request with the content type as its only header |
| Payments.ChargePayment | examples/go/payments/activity.go:55-96 | an attempt charges at most once, under the token of its activity, and returns that charge exactly on a well-formed 2xx or 3xx reply; otherwise the first obstacle is the error; upstream and result are those that the protocol is proved about |
| Payments.AttemptIsHistory | examples/go/payments/activity.go:55-96 | from any history of the protocol an attempt, whatever becomes of its exchange, is a sequence of protocol events that leaves the same upstream and the same result |
| Payments.AttemptReturns | examples/go/payments/activity.go:55-96 | each result of an attempt, each error by kind, occurs exactly for its exchanges; the upstream changes exactly when a request with a new token gets through |
| Payments.RedeliveryChangesNothing | examples/go/payments/activity.go:53-54 | a request can reach the upstream at any time after it was sent, and reaching it again changes nothing |
| Payments.ChargedAtMostOnce | examples/go/payments/activity.go:44-54 | in every history each activity has at most one charge, every returned ID is that charge, and attempts return the same charge if and only if they belong to the same activity |
| Payments.EveryChargeHasOneActivity | internal/activityhelpers/idempotency.go:11-16 | each charge belongs to exactly one activity that asked for it |
| Updates.MyWorkflowV2.Validate | src/assuming_signal_update_order/workflow.go:54-59 | accepts exactly IDs that are above the last one byte by byte |
| Updates.MyWorkflowV2.Update | src/assuming_signal_update_order/workflow.go:47-61 | an update is accepted exactly if its ID is above the last one byte by byte, and changes the state only then |
| Updates.LessIsBytewise | src/assuming_signal_update_order/workflow.go:55-55 | the order of IDs: one is below another exactly if at the first difference it ends or has the lower byte |
| Updates.AcceptedIdsIncrease | src/assuming_signal_update_order/workflow.go:42-61 | accepted IDs strictly increase, and the last accepted change is the state |
| Updates.AcceptedAboveAllBefore | src/assuming_signal_update_order/workflow.go:54-59 | a change is accepted exactly when its ID is not empty and above all IDs delivered before, rejected ones included |
| Updates.EmptyIdIsStart | src/assuming_signal_update_order/workflow.go:44-45 | the result stays empty exactly when no change has an ID |
| Updates.EndsAtGreatest | src/assuming_signal_update_order/workflow.go:54-59 | the last ID is the greatest delivered |
| Updates.TopIsLast | src/assuming_signal_update_order/workflow.go:54-59 | the ID of a delivered change is the last one accepted if and only if no delivered ID is above it |
| Updates.ResultIsFirstGreatest | src/assuming_signal_update_order/workflow.go:66-68 | the result is the data of the first change delivered with the greatest ID |
| Updates.HighestIdWins | src/assuming_signal_update_order/workflow_test.go:42-47 | a change with a unique highest ID wins whatever the order |
| Updates.OrderIrrelevantIff | src/assuming_signal_update_order/workflow_test.go:13-49 | the result is the same for every permutation if and only if all delivered changes whose nonempty ID no other exceeds carry the same data |
| Updates.OrderMattersForSharedId | src/assuming_signal_update_order/workflow.go:54-59 | two changes under one ID with different data: the first one delivered wins in either order |
| KubernetesJob.StartKubernetesJob | examples/go/kubernetes/activity.go:65-92 | with other clients between its calls, an attempt fails exactly when a call is refused and otherwise returns the UID of the name |
| KubernetesJob.AttemptIsHistory | examples/go/kubernetes/activity.go:65-92 | from any history of the protocol an attempt, with refusals and interference between its calls, is a sequence of protocol events that leaves the same cluster and the same result |
| KubernetesJob.OutcomeReturns | examples/go/kubernetes/activity.go:74-92 | each error occurs exactly when its call is refused, any other attempt returns the UID of the name, and a free name is created |
| KubernetesJob.LateCreationIsHarmless | examples/go/kubernetes/activity.go:62-64 | a creation that takes effect after its attempt returned changes nothing |
| KubernetesJob.OneJobPerName | examples/go/kubernetes/activity.go:62-64 | in every history at most one Job of a name is created, and successful attempts return the same UID if and only if they are for the same name |

## Left out

- Temporal, gRPC, Kubernetes and HTTP clients, goroutines and contexts: only the outcomes of their calls are modelled.
- Floating-point rounding: coefficients and powers are exact; only the out-of-range conversion is kept.
- Overflow of Go duration sums: durations are unbounded integers.
- Debug builds of the Rust model, which panic where a release build wraps.
- Texts of messages, explanations and log attributes, and the order of extra log fields.
- The finite grids and the command line of the formal model: the theorems range over all configurations.
- Severities under names that are no policy, and ranks of unknown policies: policies are an enumeration.
- Crash delays other than 1ms under the `u32` guard: the original has no others.
- Header names follow the canonicalisation that Go documents for its standard library; several values under one name are not modelled.
- Auto-heartbeat, requirements 23 to 26: it starts and stops a helper goroutine.
- The Python interceptor: the same policies with other rounding.
- HTTP status, transport-error and gRPC error classification: tables settled by reading a branch.
- Retry-After parsing: it is in the Go standard library.
- SHA-256: a parameter, taken not to collide on the identities in play, and not to be empty.
- Canonicalize: the library sort is written as insertion sort, which it is for lists this short.
- ProcessRecordsActivity: attempts follow one another; a timed-out attempt that keeps running beside its retry is not modelled.
- ChargePayment: one exchange per attempt with an upstream that deduplicates by key, as its documentation assumes; overlap is in the protocol half of the module.
- StartKubernetesJob: jobs are not deleted, and a Get after AlreadyExists finds the job.
- AwaitKubernetesJob: a polling loop around one lookup.
- MyWorkflowV1: accepts everything.
