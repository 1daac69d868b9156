/**
 An activity that processes records in order and heartbeats the index of the last one, so that a retry
 resumes after it. Attempts may fail or crash anywhere, and the details a retry is given may be lost,
 undecodable, or any heartbeat recorded before, since heartbeats are sent in batches.
 */
module Checkpoint {
  import opened Words

  /** One call of processRecord. */
  datatype RecordCall = RecordCall(index: nat, ok: bool)

  /** The heartbeat details a new attempt reads. */
  datatype Details = NoDetails | Undecodable | LastProcessed(index: nat)

  /** What goes wrong in an attempt, after k records processed and heartbeated by it. */
  datatype Fault =
    | Clean
    | CrashBefore(k: nat)  // before the next call, or before the result is reported
    | FailAt(k: nat)       // the next call returns an error
    | CrashAfter(k: nat)   // after the next call, before its heartbeat

  datatype Try = Try(details: Details, fault: Fault)

  /** All calls made and all heartbeats recorded so far, over all attempts. */
  datatype World = World(calls: seq<RecordCall>, recorded: seq<nat>)

  function StartIndex(d: Details): nat {
    match d
    case LastProcessed(i) => i + 1
    case _ => 0
  }

  /** Records left to an attempt over n records. */
  function Left(n: nat, d: Details): nat {
    if StartIndex(d) < n then n - StartIndex(d) else 0
  }

  /** Records that an attempt processes and heartbeats. */
  function Completed(n: nat, t: Try): (m: nat)
    ensures m <= Left(n, t.details)
  {
    if t.fault.Clean? || t.fault.k >= Left(n, t.details) then Left(n, t.details) else t.fault.k
  }

  /** The fault leaves one more call behind, made but not heartbeated. */
  predicate Wasted(n: nat, t: Try) {
    (t.fault.FailAt? || t.fault.CrashAfter?) && t.fault.k < Left(n, t.details)
  }

  predicate Succeeds(n: nat, t: Try) {
    t.fault.Clean? || t.fault.k > Left(n, t.details) || (!t.fault.CrashBefore? && t.fault.k == Left(n, t.details))
  }

  function Block(start: nat, m: nat): seq<RecordCall> {
    seq(m, i requires 0 <= i < m => RecordCall(start + i, true))
  }

  function Indexes(start: nat, m: nat): seq<nat> {
    seq(m, i requires 0 <= i < m => start + i)
  }

  function AfterTry(n: nat, w: World, t: Try): World {
    var start, m := StartIndex(t.details), Completed(n, t);
    World(w.calls + Block(start, m) + (if Wasted(n, t) then [RecordCall(start + m, t.fault.CrashAfter?)] else []),
          w.recorded + Indexes(start, m))
  }

  /** The activity, on the server that stores its heartbeats. */
  class RecordServer {
    var calls: seq<RecordCall>
    var recorded: seq<nat>

    function State(): World
      reads this
    {
      World(calls, recorded)
    }

    constructor ()
      ensures State() == World([], [])
    {
      calls, recorded := [], [];
    }

    method ProcessRecordsActivity(recordIds: seq<string>, details: Details, fault: Fault) returns (ok: bool)
      modifies this
      ensures State() == AfterTry(|recordIds|, old(State()), Try(details, fault))
      ensures ok == Succeeds(|recordIds|, Try(details, fault))
    {
      var startIndex := 0;
      if !details.NoDetails? {
        if details.LastProcessed? {
          startIndex := details.index + 1;
        }
      }
      ghost var n, t := |recordIds|, Try(details, fault);
      var i := startIndex;
      while i < |recordIds|
        invariant startIndex <= i && (i <= n || i == startIndex)
        invariant fault.Clean? || i - startIndex <= fault.k || Left(n, details) == 0
        invariant calls == old(calls) + Block(startIndex, i - startIndex)
        invariant recorded == old(recorded) + Indexes(startIndex, i - startIndex)
      {
        var strikes := !fault.Clean? && fault.k == i - startIndex;
        if strikes && fault.CrashBefore? {
          return false;
        }
        calls := calls + [RecordCall(i, !(strikes && fault.FailAt?))];
        if strikes {
          return false;
        }
        recorded := recorded + [i];
        i := i + 1;
      }
      ok := !(fault.CrashBefore? && fault.k == i - startIndex);
    }
  }

  // ---------------------------------------------------------------- runs

  /** The world after any number of attempts. */
  function AfterTries(n: nat, tries: seq<Try>): World {
    if tries == [] then World([], [])
    else AfterTry(n, AfterTries(n, tries[..|tries| - 1]), tries[|tries| - 1])
  }

  /** Details are lost, or undecodable, or some heartbeat recorded before. */
  ghost predicate DetailsGenuine(w: World, d: Details) {
    d.LastProcessed? ==> d.index in w.recorded
  }

  /** Details are the last heartbeat. */
  ghost predicate DetailsKept(w: World, d: Details) {
    d == if w.recorded == [] then NoDetails else LastProcessed(w.recorded[|w.recorded| - 1])
  }

  ghost predicate Genuine(n: nat, tries: seq<Try>) {
    forall k :: 0 <= k < |tries| ==> DetailsGenuine(AfterTries(n, tries[..k]), tries[k].details)
  }

  ghost predicate NeverLost(n: nat, tries: seq<Try>) {
    forall k :: 0 <= k < |tries| ==> DetailsKept(AfterTries(n, tries[..k]), tries[k].details)
  }

  /** All records below `i` have been processed. */
  ghost predicate AllProcessed(calls: seq<RecordCall>, i: nat) {
    forall j: nat :: j < i ==> RecordCall(j, true) in calls
  }

  /** No record is touched, even unsuccessfully, before all earlier ones have been processed. */
  ghost predicate InIndexOrder(calls: seq<RecordCall>) {
    forall k :: 0 <= k < |calls| ==> AllProcessed(calls[..k], calls[k].index)
  }

  ghost predicate RecordedProcessed(w: World) {
    forall i :: i in w.recorded ==> AllProcessed(w.calls, i + 1)
  }

  ghost predicate Sound(w: World) {
    InIndexOrder(w.calls) && RecordedProcessed(w)
  }

  lemma InOrderAppend(calls: seq<RecordCall>, c: RecordCall)
    requires InIndexOrder(calls) && AllProcessed(calls, c.index)
    ensures InIndexOrder(calls + [c])
    ensures c.ok ==> AllProcessed(calls + [c], c.index + 1)
  {
    forall k | 0 <= k < |calls + [c]|
      ensures AllProcessed((calls + [c])[..k], (calls + [c])[k].index)
    {
      assert (calls + [c])[..k] == calls[..k];
      if k == |calls| {
        assert calls[..k] == calls;
      }
    }
    forall j: nat | c.ok && j < c.index + 1
      ensures RecordCall(j, true) in calls + [c]
    {
      if j == c.index {
        assert (calls + [c])[|calls|] == c;
      }
    }
  }

  lemma {:induction false} BlockInOrder(calls: seq<RecordCall>, start: nat, m: nat)
    requires InIndexOrder(calls) && AllProcessed(calls, start)
    ensures InIndexOrder(calls + Block(start, m)) && AllProcessed(calls + Block(start, m), start + m)
  {
    if m == 0 {
      assert calls + Block(start, 0) == calls;
    } else {
      BlockInOrder(calls, start, m - 1);
      assert calls + Block(start, m) == calls + Block(start, m - 1) + [RecordCall(start + m - 1, true)];
      InOrderAppend(calls + Block(start, m - 1), RecordCall(start + m - 1, true));
    }
  }

  lemma ProcessedStays(calls: seq<RecordCall>, more: seq<RecordCall>, i: nat, j: nat)
    requires AllProcessed(calls, i) && j <= i
    ensures AllProcessed(calls + more, j)
  {}

  lemma RecordedStayProcessed(w: World, start: nat, m: nat, more: seq<RecordCall>)
    requires RecordedProcessed(w) && AllProcessed(w.calls + Block(start, m), start + m)
    ensures RecordedProcessed(World(w.calls + Block(start, m) + more, w.recorded + Indexes(start, m)))
  {
    forall i | i in w.recorded + Indexes(start, m)
      ensures AllProcessed(w.calls + Block(start, m) + more, i + 1)
    {
      if i in w.recorded {
        ProcessedStays(w.calls, Block(start, m), i + 1, i + 1);
        ProcessedStays(w.calls + Block(start, m), more, i + 1, i + 1);
      } else {
        assert i in Indexes(start, m);
        ProcessedStays(w.calls + Block(start, m), more, start + m, i + 1);
      }
    }
  }

  lemma TryInOrder(calls: seq<RecordCall>, start: nat, m: nat, more: seq<RecordCall>)
    requires InIndexOrder(calls) && AllProcessed(calls, start)
    requires more == [] || more == [RecordCall(start + m, true)] || more == [RecordCall(start + m, false)]
    ensures InIndexOrder(calls + Block(start, m) + more)
    ensures AllProcessed(calls + Block(start, m), start + m) && AllProcessed(calls + Block(start, m) + more, start + m)
  {
    BlockInOrder(calls, start, m);
    ProcessedStays(calls + Block(start, m), more, start + m, start + m);
    if more == [] {
      assert calls + Block(start, m) + more == calls + Block(start, m);
    } else {
      InOrderAppend(calls + Block(start, m), more[0]);
      assert more == [more[0]];
    }
  }

  lemma TryKeepsSound(n: nat, w: World, t: Try)
    requires Sound(w) && DetailsGenuine(w, t.details)
    ensures Sound(AfterTry(n, w, t))
    ensures AllProcessed(AfterTry(n, w, t).calls, StartIndex(t.details) + Completed(n, t))
  {
    var start, m := StartIndex(t.details), Completed(n, t);
    var more := if Wasted(n, t) then [RecordCall(start + m, t.fault.CrashAfter?)] else [];
    assert AfterTry(n, w, t) == World(w.calls + Block(start, m) + more, w.recorded + Indexes(start, m));
    assert AllProcessed(w.calls, start);
    TryInOrder(w.calls, start, m, more);
    RecordedStayProcessed(w, start, m, more);
  }

  lemma {:induction false} RunsStaySound(n: nat, tries: seq<Try>)
    requires Genuine(n, tries)
    ensures Sound(AfterTries(n, tries))
  {
    if tries != [] {
      var front, last := tries[..|tries| - 1], tries[|tries| - 1];
      GenuinePrefix(n, tries);
      RunsStaySound(n, front);
      TryKeepsSound(n, AfterTries(n, front), last);
    }
  }

  lemma GenuinePrefix(n: nat, tries: seq<Try>)
    requires tries != [] && Genuine(n, tries)
    ensures Genuine(n, tries[..|tries| - 1])
    ensures DetailsGenuine(AfterTries(n, tries[..|tries| - 1]), tries[|tries| - 1].details)
  {
    forall k | 0 <= k < |tries| - 1
      ensures tries[..|tries| - 1][..k] == tries[..k]
    {}
  }

  /** However often the activity is retried and whatever heartbeat each retry is given, records are
      first processed in index order, and a successful return means that every one was processed. */
  lemma {:induction false} SuccessMeansAllProcessed(n: nat, tries: seq<Try>)
    requires tries != [] && Genuine(n, tries)
    ensures InIndexOrder(AfterTries(n, tries).calls)
    ensures Succeeds(n, tries[|tries| - 1]) ==> AllProcessed(AfterTries(n, tries).calls, n)
  {
    var front, last := tries[..|tries| - 1], tries[|tries| - 1];
    GenuinePrefix(n, tries);
    RunsStaySound(n, front);
    TryKeepsSound(n, AfterTries(n, front), last);
  }

  /** An attempt fails only by its fault: the error or crash at a record that is left, or the crash before
      the result is reported. */
  lemma FailsIff(n: nat, t: Try)
    ensures !Succeeds(n, t)
            <==> && !t.fault.Clean?
                 && (t.fault.k < Left(n, t.details) || (t.fault.CrashBefore? && t.fault.k == Left(n, t.details)))
  {}

  /** A fault strikes at the record it names: the records before it are processed and heartbeated, and the
      call itself is made unless the crash comes first. */
  lemma FaultStrikesAt(n: nat, w: World, t: Try)
    requires !t.fault.Clean? && t.fault.k < Left(n, t.details)
    ensures var start := StartIndex(t.details);
            AfterTry(n, w, t) == World(
              w.calls + Block(start, t.fault.k)
              + (match t.fault
                 case FailAt(k) => [RecordCall(start + k, false)]
                 case CrashAfter(k) => [RecordCall(start + k, true)]
                 case _ => []),
              w.recorded + Indexes(start, t.fault.k))
  {}

  /** Retrying gets there: whatever happened before, and whatever heartbeat it is given, an attempt
      without a fault succeeds, and then all records have been processed. */
  lemma CleanAttemptFinishes(n: nat, tries: seq<Try>)
    requires tries != [] && Genuine(n, tries) && tries[|tries| - 1].fault.Clean?
    ensures Succeeds(n, tries[|tries| - 1]) && AllProcessed(AfterTries(n, tries).calls, n)
  {
    SuccessMeansAllProcessed(n, tries);
  }

  // ---------------------------------------------------------------- how much work is repeated

  /** Attempts that left a call without its heartbeat. */
  function WastedCalls(n: nat, tries: seq<Try>): nat {
    if tries == [] then 0
    else WastedCalls(n, tries[..|tries| - 1]) + if Wasted(n, tries[|tries| - 1]) then 1 else 0
  }

  function FailedTries(n: nat, tries: seq<Try>): nat {
    if tries == [] then 0
    else FailedTries(n, tries[..|tries| - 1]) + if Succeeds(n, tries[|tries| - 1]) then 0 else 1
  }

  /** Heartbeats so far are those of the first records, once each and in order. */
  ghost predicate RecordedInOrder(n: nat, w: World) {
    |w.recorded| <= n && w.recorded == Indexes(0, |w.recorded|)
  }

  lemma {:induction false} KeptTryConserves(n: nat, w: World, t: Try)
    requires RecordedInOrder(n, w) && DetailsKept(w, t.details)
    ensures var v := AfterTry(n, w, t);
            && RecordedInOrder(n, v)
            && |v.recorded| == |w.recorded| + Completed(n, t)
            && |v.calls| == |w.calls| + Completed(n, t) + (if Wasted(n, t) then 1 else 0)
            && (Succeeds(n, t) ==> |v.recorded| == n && !Wasted(n, t))
  {
    assert StartIndex(t.details) == |w.recorded|;
    var m := Completed(n, t);
    assert Indexes(0, |w.recorded|) + Indexes(|w.recorded|, m) == Indexes(0, |w.recorded| + m);
  }

  lemma NeverLostPrefix(n: nat, tries: seq<Try>)
    requires tries != [] && NeverLost(n, tries)
    ensures NeverLost(n, tries[..|tries| - 1])
    ensures DetailsKept(AfterTries(n, tries[..|tries| - 1]), tries[|tries| - 1].details)
  {
    forall k | 0 <= k < |tries| - 1
      ensures tries[..|tries| - 1][..k] == tries[..k]
    {}
  }

  /** If checkpoints are never lost, each record is heartbeated once, in order, and every call is either
      such a record or wasted by a fault. */
  lemma {:induction false} CallsConserved(n: nat, tries: seq<Try>)
    requires NeverLost(n, tries)
    ensures RecordedInOrder(n, AfterTries(n, tries))
    ensures |AfterTries(n, tries).calls| == |AfterTries(n, tries).recorded| + WastedCalls(n, tries)
    ensures WastedCalls(n, tries) <= FailedTries(n, tries)
  {
    if tries != [] {
      var front := tries[..|tries| - 1];
      NeverLostPrefix(n, tries);
      CallsConserved(n, front);
      KeptTryConserves(n, AfterTries(n, front), tries[|tries| - 1]);
    }
  }

  /** So the calls are at most the records plus the failed attempts, and after a success exactly the
      records plus the wasted calls. */
  lemma {:induction false} NoRedundantWork(n: nat, tries: seq<Try>)
    requires NeverLost(n, tries)
    ensures |AfterTries(n, tries).calls| <= n + FailedTries(n, tries)
    ensures tries != [] && Succeeds(n, tries[|tries| - 1])
            ==> |AfterTries(n, tries).calls| == n + WastedCalls(n, tries)
  {
    CallsConserved(n, tries);
    if tries != [] {
      var front := tries[..|tries| - 1];
      NeverLostPrefix(n, tries);
      CallsConserved(n, front);
      KeptTryConserves(n, AfterTries(n, front), tries[|tries| - 1]);
    }
  }

  // ---------------------------------------------------------------- when heartbeats are lost or stale

  /** One more than the greatest index recorded. */
  function Frontier(recorded: seq<nat>): nat {
    if recorded == [] then 0
    else Max(Frontier(recorded[..|recorded| - 1]), recorded[|recorded| - 1] + 1)
  }

  /** How far behind the frontier an attempt starts. */
  function Lost(w: World, t: Try): nat {
    Max(0, Frontier(w.recorded) - StartIndex(t.details))
  }

  function TotalLost(n: nat, tries: seq<Try>): nat {
    if tries == [] then 0
    else
      var front := tries[..|tries| - 1];
      TotalLost(n, front) + Lost(AfterTries(n, front), tries[|tries| - 1])
  }

  /** Records that attempts complete although an earlier one did. */
  function Repeated(n: nat, tries: seq<Try>): nat {
    if tries == [] then 0
    else
      var front, last := tries[..|tries| - 1], tries[|tries| - 1];
      Repeated(n, front) + Min(Completed(n, last), Lost(AfterTries(n, front), last))
  }

  lemma {:induction false} FrontierIsAbove(recorded: seq<nat>)
    ensures forall i :: i in recorded ==> i < Frontier(recorded)
  {
    if recorded != [] {
      FrontierIsAbove(recorded[..|recorded| - 1]);
      assert recorded == recorded[..|recorded| - 1] + [recorded[|recorded| - 1]];
    }
  }

  lemma {:induction false} FrontierMoves(recorded: seq<nat>, start: nat, m: nat)
    requires start <= Frontier(recorded)
    ensures Frontier(recorded + Indexes(start, m)) == Max(Frontier(recorded), start + m)
  {
    if m == 0 {
      assert recorded + Indexes(start, 0) == recorded;
    } else {
      FrontierMoves(recorded, start, m - 1);
      var next := recorded + Indexes(start, m);
      assert next[..|next| - 1] == recorded + Indexes(start, m - 1) && next[|next| - 1] == start + m - 1;
    }
  }

  /** Every record below the frontier has been heartbeated; none beyond it has, by FrontierIsAbove. */
  ghost predicate Gapless(recorded: seq<nat>) {
    forall i: nat :: i < Frontier(recorded) ==> i in recorded
  }

  lemma GaplessStays(recorded: seq<nat>, start: nat, m: nat)
    requires Gapless(recorded) && start <= Frontier(recorded)
    ensures Gapless(recorded + Indexes(start, m))
  {
    FrontierMoves(recorded, start, m);
    forall i: nat | i < Frontier(recorded + Indexes(start, m))
      ensures i in recorded + Indexes(start, m)
    {
      if i >= Frontier(recorded) {
        assert Indexes(start, m)[i - start] == i;
      }
    }
  }

  lemma TryMovesFrontier(n: nat, w: World, t: Try)
    requires DetailsGenuine(w, t.details) && Frontier(w.recorded) <= n && Gapless(w.recorded)
    ensures var v := AfterTry(n, w, t);
            && Frontier(v.recorded) <= n && Gapless(v.recorded)
            && Frontier(v.recorded) == Frontier(w.recorded) + Completed(n, t) - Min(Completed(n, t), Lost(w, t))
            && |v.calls| == |w.calls| + Completed(n, t) + (if Wasted(n, t) then 1 else 0)
            && (Succeeds(n, t) ==> Frontier(v.recorded) == n)
  {
    FrontierIsAbove(w.recorded);
    assert StartIndex(t.details) <= Frontier(w.recorded);
    FrontierMoves(w.recorded, StartIndex(t.details), Completed(n, t));
    GaplessStays(w.recorded, StartIndex(t.details), Completed(n, t));
  }

  /** Whatever heartbeats each retry is given, all calls are accounted for: the records completed so far,
      those completed again, and the calls wasted by faults. */
  lemma {:induction false} WorkConserved(n: nat, tries: seq<Try>)
    requires Genuine(n, tries)
    ensures Frontier(AfterTries(n, tries).recorded) <= n && Gapless(AfterTries(n, tries).recorded)
    ensures |AfterTries(n, tries).calls|
            == Frontier(AfterTries(n, tries).recorded) + Repeated(n, tries) + WastedCalls(n, tries)
    ensures tries != [] && Succeeds(n, tries[|tries| - 1]) ==> Frontier(AfterTries(n, tries).recorded) == n
    ensures Repeated(n, tries) <= TotalLost(n, tries)
  {
    if tries != [] {
      var front := tries[..|tries| - 1];
      GenuinePrefix(n, tries);
      WorkConserved(n, front);
      TryMovesFrontier(n, AfterTries(n, front), tries[|tries| - 1]);
    }
  }

  /** So an attempt that starts behind the records already completed costs at most the distance. */
  lemma WorkIsBounded(n: nat, tries: seq<Try>)
    requires Genuine(n, tries)
    ensures |AfterTries(n, tries).calls| <= n + TotalLost(n, tries) + WastedCalls(n, tries)
    ensures tries != [] && Succeeds(n, tries[|tries| - 1])
            ==> |AfterTries(n, tries).calls| == n + Repeated(n, tries) + WastedCalls(n, tries)
  {
    WorkConserved(n, tries);
  }
}
