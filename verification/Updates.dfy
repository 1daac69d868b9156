/**
 A workflow that rejects out-of-order updates by their IDs, which Go compares byte by byte. Its result
 does not depend on the order of delivery; the last theorem says exactly when.
 */
module Updates {
  import opened Idempotency

  type Id = seq<byte>

  datatype Change = Change(id: Id, data: string)

  /** Go's `<` on strings. */
  predicate Less(a: Id, b: Id) {
    if b == [] then false
    else if a == [] then true
    else a[0] < b[0] || (a[0] == b[0] && Less(a[1..], b[1..]))
  }

  predicate AtMost(a: Id, b: Id) {
    a == b || Less(a, b)
  }

  lemma {:induction false} LessIsTotal(a: Id, b: Id)
    ensures Less(a, b) || a == b || Less(b, a)
    ensures !(Less(a, b) && AtMost(b, a))
  {
    if a != [] && b != [] {
      LessIsTotal(a[1..], b[1..]);
      if a[0] == b[0] && a[1..] == b[1..] {
        assert a == [a[0]] + a[1..] == b;
      }
    }
  }

  /** Byte by byte: the first string ends, or has the lower byte, where the two first differ. */
  lemma {:induction false} LessIsBytewise(a: Id, b: Id)
    ensures Less(a, b)
            <==> exists k: nat :: k <= |a| && k < |b| && a[..k] == b[..k] && (k == |a| || a[k] < b[k])
  {
    if a != [] && b != [] {
      LessIsBytewise(a[1..], b[1..]);
      if a[0] == b[0] && Less(a, b) {
        var k: nat :| k <= |a[1..]| && k < |b[1..]| && a[1..][..k] == b[1..][..k]
                      && (k == |a[1..]| || a[1..][k] < b[1..][k]);
        assert a[..k + 1] == [a[0]] + a[1..][..k] && b[..k + 1] == [b[0]] + b[1..][..k];
      } else if a[0] < b[0] {
        assert a[..0] == b[..0];
      }
      if k: nat :| k <= |a| && k < |b| && a[..k] == b[..k] && (k == |a| || a[k] < b[k]) {
        if k > 0 {
          assert a[0] == a[..k][0] == b[..k][0] == b[0];
          assert a[1..][..k - 1] == a[..k][1..] == b[..k][1..] == b[1..][..k - 1];
        }
      }
    } else if a == [] && b != [] {
      assert a[..0] == b[..0];
    }
  }

  lemma {:induction false} LessIsTransitive(a: Id, b: Id, c: Id)
    requires Less(a, b) && Less(b, c)
    ensures Less(a, c)
  {
    if a != [] {
      if a[0] == b[0] && b[0] == c[0] {
        LessIsTransitive(a[1..], b[1..], c[1..]);
      }
    }
  }

  datatype State = State(lastId: Id, lastData: string)

  const START: State := State([], "")

  predicate Accepts(s: State, c: Change) {
    Less(s.lastId, c.id)
  }

  /** One update: the handler runs only if the validator passes. */
  function Deliver(s: State, c: Change): State {
    if Accepts(s, c) then State(c.id, c.data) else s
  }

  function DeliverAll(cs: seq<Change>): State {
    if cs == [] then START else Deliver(DeliverAll(cs[..|cs| - 1]), cs[|cs| - 1])
  }

  class MyWorkflowV2 {
    var lastId: Id
    var lastData: string

    function Current(): State
      reads this
    {
      State(lastId, lastData)
    }

    constructor ()
      ensures Current() == START
    {
      lastId, lastData := [], "";
    }

    /** The validator rejects any ID up to the last one. */
    method Validate(c: Change) returns (ok: bool)
      ensures ok == Accepts(Current(), c)
      ensures ok <==> exists k: nat :: k <= |lastId| && k < |c.id| && lastId[..k] == c.id[..k]
                                       && (k == |lastId| || lastId[k] < c.id[k])
    {
      LessIsTotal(c.id, lastId);
      LessIsBytewise(lastId, c.id);
      if AtMost(c.id, lastId) {
        return false;
      }
      return true;
    }

    method Handle(c: Change)
      modifies this
      ensures Current() == State(c.id, c.data)
    {
      lastId := c.id;
      lastData := c.data;
    }

    method Update(c: Change) returns (accepted: bool)
      modifies this
      ensures Current() == Deliver(old(Current()), c)
      ensures accepted == Accepts(old(Current()), c)
      ensures accepted <==> exists k: nat :: k <= |old(lastId)| && k < |c.id| && old(lastId)[..k] == c.id[..k]
                                             && (k == |old(lastId)| || old(lastId)[k] < c.id[k])
      ensures lastId == (if accepted then c.id else old(lastId))
      ensures lastData == (if accepted then c.data else old(lastData))
    {
      accepted := Validate(c);
      if accepted {
        Handle(c);
      }
    }
  }

  // ---------------------------------------------------------------- whole sequences of deliveries

  /** The changes that are accepted, in order. */
  function Accepted(cs: seq<Change>): seq<Change> {
    if cs == [] then []
    else
      Accepted(cs[..|cs| - 1])
      + if Accepts(DeliverAll(cs[..|cs| - 1]), cs[|cs| - 1]) then [cs[|cs| - 1]] else []
  }

  lemma {:induction false} AcceptedIdsIncrease(cs: seq<Change>)
    ensures var a := Accepted(cs);
            && (forall i, j :: 0 <= i < j < |a| ==> Less(a[i].id, a[j].id))
            && DeliverAll(cs) == if a == [] then START else State(a[|a| - 1].id, a[|a| - 1].data)
  {
    if cs != [] {
      var front, c := cs[..|cs| - 1], cs[|cs| - 1];
      AcceptedIdsIncrease(front);
      var a := Accepted(front);
      if Accepts(DeliverAll(front), c) {
        forall i | 0 <= i < |a|
          ensures Less(a[i].id, c.id)
        {
          if i < |a| - 1 {
            LessIsTransitive(a[i].id, a[|a| - 1].id, c.id);
          }
        }
      }
    }
  }

  /** A change is accepted exactly when its ID is not empty and above all IDs delivered before, accepted or
      not. */
  lemma AcceptedAboveAllBefore(cs: seq<Change>, k: nat)
    requires k < |cs|
    ensures Accepted(cs[..k + 1])
            == Accepted(cs[..k])
               + if cs[k].id != [] && forall j :: 0 <= j < k ==> Less(cs[j].id, cs[k].id) then [cs[k]] else []
  {
    var front, c := cs[..k], cs[k];
    assert cs[..k + 1][..k] == front;
    EndsAtGreatest(front);
    var last := DeliverAll(front).lastId;
    if Less(last, c.id) {
      forall j | 0 <= j < k
        ensures Less(cs[j].id, c.id)
      {
        assert front[j] in front;
        if cs[j].id != last {
          LessIsTransitive(cs[j].id, last, c.id);
        }
      }
    } else if last != [] {
      var d :| d in front && d.id == last;
      var j :| 0 <= j < k && front[j] == d;
      assert cs[j].id == last;
    } else {
      LessIsTotal([], c.id);
    }
  }

  /** `id` is the greatest ID among the changes, or empty when there is none above the empty ID. */
  ghost predicate IsGreatest(id: Id, cs: seq<Change>) {
    && (id == [] || exists c :: c in cs && c.id == id)
    && forall c :: c in cs ==> AtMost(c.id, id)
  }

  lemma GreatestIsUnique(a: Id, b: Id, cs: seq<Change>, ds: seq<Change>)
    requires IsGreatest(a, cs) && IsGreatest(b, ds)
    requires forall c :: c in cs <==> c in ds
    ensures a == b
  {
    LessIsTotal(a, b);
    LessIsTotal(a, []);
    LessIsTotal(b, []);
  }

  /** However changes are delivered, the last ID is the greatest one. */
  lemma {:induction false} EndsAtGreatest(cs: seq<Change>)
    ensures IsGreatest(DeliverAll(cs).lastId, cs)
  {
    if cs != [] {
      var front, c := cs[..|cs| - 1], cs[|cs| - 1];
      EndsAtGreatest(front);
      var before := DeliverAll(front);
      LessIsTotal(before.lastId, c.id);
      forall d | d in front
        ensures AtMost(d.id, DeliverAll(cs).lastId)
      {
        if Accepts(before, c) && d.id != before.lastId {
          LessIsTransitive(d.id, before.lastId, c.id);
        }
      }
      assert forall d :: d in cs <==> d in front || d == c;
    }
  }

  /** The result is the data of the first delivered change that carries the greatest ID. */
  lemma {:induction false} ResultIsFirstGreatest(cs: seq<Change>)
    ensures DeliverAll(cs) == START
            || exists k :: 0 <= k < |cs| && cs[k] == Change(DeliverAll(cs).lastId, DeliverAll(cs).lastData)
                           && forall j :: 0 <= j < k ==> cs[j].id != cs[k].id
  {
    if cs != [] {
      var front, c := cs[..|cs| - 1], cs[|cs| - 1];
      ResultIsFirstGreatest(front);
      if Accepts(DeliverAll(front), c) {
        EndsAtGreatest(front);
        forall j | 0 <= j < |front|
          ensures cs[j].id != c.id
        {
          assert front[j] in front;
          LessIsTotal(DeliverAll(front).lastId, c.id);
        }
      } else if DeliverAll(front) != START {
        var k :| 0 <= k < |front| && front[k] == Change(DeliverAll(front).lastId, DeliverAll(front).lastData)
                 && forall j :: 0 <= j < k ==> front[j].id != front[k].id;
        assert cs[k] == front[k];
        assert forall j :: 0 <= j < k ==> cs[j] == front[j];
      }
    }
  }

  /** All deliveries that carry the greatest ID, if it is not empty, say the same; true in particular of
      distinct IDs. */
  ghost predicate GreatestAgrees(cs: seq<Change>) {
    forall c, d :: c in cs && d in cs && c.id == d.id && c.id != [] && Tops(c.id, cs) ==> c.data == d.data
  }

  /** No delivery has a greater ID. */
  ghost predicate Tops(id: Id, cs: seq<Change>) {
    forall e :: e in cs ==> AtMost(e.id, id)
  }

  /** The ID that tops the deliveries, where it is one of theirs, is the last one accepted. */
  lemma TopIsLast(cs: seq<Change>, c: Change)
    requires c in cs
    ensures Tops(c.id, cs) <==> c.id == DeliverAll(cs).lastId
  {
    EndsAtGreatest(cs);
    if Tops(c.id, cs) {
      GreatestIsUnique(c.id, DeliverAll(cs).lastId, cs, cs);
    }
  }

  lemma SameElements(cs: seq<Change>, ds: seq<Change>)
    requires multiset(cs) == multiset(ds)
    ensures forall c :: c in cs <==> c in ds
  {
    forall c
      ensures c in cs <==> c in ds
    {
      assert c in cs <==> multiset(cs)[c] > 0;
      assert c in ds <==> multiset(ds)[c] > 0;
    }
  }

  /** A change with the greatest ID decides the result when it is delivered first. */
  lemma {:induction false} FirstGreatestStays(c: Change, cs: seq<Change>)
    requires c.id != [] && forall d :: d in cs ==> AtMost(d.id, c.id)
    ensures DeliverAll([c] + cs) == State(c.id, c.data)
  {
    if cs == [] {
      assert [c] + cs == [c];
      assert [c][..0] == [];
    } else {
      var front := cs[..|cs| - 1];
      FirstGreatestStays(c, front);
      assert ([c] + cs)[..|[c] + cs| - 1] == [c] + front;
      LessIsTotal(c.id, cs[|cs| - 1].id);
    }
  }

  lemma BringToFront(cs: seq<Change>, c: Change) returns (ds: seq<Change>)
    requires c in cs
    ensures multiset([c] + ds) == multiset(cs)
  {
    var k :| 0 <= k < |cs| && cs[k] == c;
    ds := cs[..k] + cs[k + 1..];
    assert cs == cs[..k] + [c] + cs[k + 1..];
  }

  lemma OrderIrrelevantIfGreatestAgrees(cs: seq<Change>, ds: seq<Change>)
    requires GreatestAgrees(cs) && multiset(cs) == multiset(ds)
    ensures DeliverAll(ds) == DeliverAll(cs)
  {
    SameElements(cs, ds);
    EndsAtGreatest(cs);
    EndsAtGreatest(ds);
    GreatestIsUnique(DeliverAll(cs).lastId, DeliverAll(ds).lastId, cs, ds);
    ResultIsFirstGreatest(cs);
    ResultIsFirstGreatest(ds);
    EmptyIdIsStart(cs);
    EmptyIdIsStart(ds);
    if DeliverAll(cs) != START {
      var k :| 0 <= k < |cs| && cs[k] == Change(DeliverAll(cs).lastId, DeliverAll(cs).lastData);
      TopIsLast(cs, cs[k]);
    }
  }

  /** Nothing is accepted, and the result stays empty, exactly when no change has an ID. */
  lemma {:induction false} EmptyIdIsStart(cs: seq<Change>)
    ensures DeliverAll(cs).lastId == [] <==> DeliverAll(cs) == State([], "")
    ensures DeliverAll(cs) == State([], "") <==> forall c :: c in cs ==> c.id == []
  {
    if cs != [] {
      EmptyIdIsStart(cs[..|cs| - 1]);
      assert cs == cs[..|cs| - 1] + [cs[|cs| - 1]];
    }
  }

  /** Whatever the order of delivery, the change with the highest ID wins, if only one has that ID. */
  lemma HighestIdWins(cs: seq<Change>, c: Change)
    requires c in cs && c.id != []
    requires forall d :: d in cs ==> AtMost(d.id, c.id) && (d.id == c.id ==> d == c)
    ensures DeliverAll(cs) == State(c.id, c.data)
  {
    EndsAtGreatest(cs);
    ResultIsFirstGreatest(cs);
    GreatestIsUnique(DeliverAll(cs).lastId, c.id, cs, cs);
  }

  ghost predicate OrderIrrelevant(cs: seq<Change>) {
    forall ds :: multiset(ds) == multiset(cs) ==> DeliverAll(ds) == DeliverAll(cs)
  }

  lemma GreatestAgreesIfOrderIrrelevant(cs: seq<Change>)
    requires OrderIrrelevant(cs)
    ensures GreatestAgrees(cs)
  {
    forall c | c in cs && c.id != [] && Tops(c.id, cs)
      ensures c.data == DeliverAll(cs).lastData
    {
      var rest := BringToFront(cs, c);
      SameElements([c] + rest, cs);
      assert forall d :: d in rest ==> d in [c] + rest;
      FirstGreatestStays(c, rest);
      assert DeliverAll([c] + rest) == DeliverAll(cs);
    }
  }

  /** The result is the same for every permutation of the deliveries if and only if the changes that
      carry the greatest ID agree. */
  lemma OrderIrrelevantIff(cs: seq<Change>)
    ensures OrderIrrelevant(cs) <==> GreatestAgrees(cs)
  {
    if GreatestAgrees(cs) {
      forall ds | multiset(ds) == multiset(cs)
        ensures DeliverAll(ds) == DeliverAll(cs)
      {
        OrderIrrelevantIfGreatestAgrees(cs, ds);
      }
    }
    if OrderIrrelevant(cs) {
      GreatestAgreesIfOrderIrrelevant(cs);
    }
  }

  /** Two changes under one ID: whichever is delivered first stays. */
  lemma OrderMattersForSharedId()
    ensures var c, d := Change([1], "c"), Change([1], "d");
            && DeliverAll([c, d]).lastData == "c" && DeliverAll([d, c]).lastData == "d"
            && multiset([c, d]) == multiset([d, c]) && !OrderIrrelevant([c, d])
  {
    var c, d := Change([1], "c"), Change([1], "d");
    assert [c, d] == [c] + [d] && [d, c] == [d] + [c];
    FirstGreatestStays(c, [d]);
    FirstGreatestStays(d, [c]);
    assert DeliverAll([d, c]) != DeliverAll([c, d]);
  }
}
