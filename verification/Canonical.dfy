/**
 Policies, violations, and the stable in-place sort that puts violations in canonical order.
 The sort is specified twice over: by what a stable sort must keep (`Select` per policy, and order by
 rank), and by the one sequence that has these properties.
 */
module Canonical {

  datatype Policy =
    | ScheduleToCloseRequired
    | MaxAttemptsTooLow
    | LocalActivityStartToCloseTooLong
    | TimeoutsPermitRetries

  /** The extra log fields of a violation; durations in nanoseconds. */
  datatype Extra =
    | NoExtra
    | MaxAttempts(attempts: int)
    | StartToClose(duration: int)
    | Retries(required: int, detectionDelay: int, minScheduleToClose: int)

  datatype Violation = Violation(policy: Policy, extra: Extra)

  const CANONICAL_ORDER: seq<Policy> :=
    [ScheduleToCloseRequired, MaxAttemptsTooLow, LocalActivityStartToCloseTooLong, TimeoutsPermitRetries]

  function Rank(p: Policy): (r: nat)
    ensures r < |CANONICAL_ORDER| && CANONICAL_ORDER[r] == p
  {
    match p
    case ScheduleToCloseRequired => 0
    case MaxAttemptsTooLow => 1
    case LocalActivityStartToCloseTooLong => 2
    case TimeoutsPermitRetries => 3
  }

  /** The violations of one policy, in the order they have in `s`. */
  function Select(s: seq<Violation>, p: Policy): seq<Violation> {
    if s == [] then []
    else Select(s[..|s| - 1], p) + if s[|s| - 1].policy == p then [s[|s| - 1]] else []
  }

  ghost predicate Sorted(s: seq<Violation>) {
    forall i, j :: 0 <= i < j < |s| ==> Rank(s[i].policy) <= Rank(s[j].policy)
  }

  ghost predicate SameSelections(s: seq<Violation>, t: seq<Violation>) {
    forall p :: Select(s, p) == Select(t, p)
  }

  /** All violations of the first policy, then all of the second, and so on. */
  function InCanonicalOrder(s: seq<Violation>): seq<Violation> {
    Select(s, ScheduleToCloseRequired) + Select(s, MaxAttemptsTooLow)
    + Select(s, LocalActivityStartToCloseTooLong) + Select(s, TimeoutsPermitRetries)
  }

  lemma {:induction false} SelectConcat(s: seq<Violation>, t: seq<Violation>, p: Policy)
    ensures Select(s + t, p) == Select(s, p) + Select(t, p)
  {
    if t == [] {
      assert s + t == s;
    } else {
      assert (s + t)[..|s + t| - 1] == s + t[..|t| - 1];
      SelectConcat(s, t[..|t| - 1], p);
    }
  }

  /** Exchanging neighbours of different policies leaves every selection alone. */
  lemma SwapKeepsSelections(s: seq<Violation>, t: seq<Violation>, j: nat)
    requires 1 <= j < |s| && s[j - 1].policy != s[j].policy
    requires t == s[j - 1 := s[j]][j := s[j - 1]]
    ensures SameSelections(s, t)
  {
    var front, back := s[..j - 1], s[j + 1..];
    assert s == front + [s[j - 1]] + [s[j]] + back;
    assert t == front + [s[j]] + [s[j - 1]] + back;
    forall p
      ensures Select(s, p) == Select(t, p)
    {
      SelectAround(front, s[j - 1], s[j], back, p);
      SelectAround(front, s[j], s[j - 1], back, p);
    }
  }

  lemma SelectAround(front: seq<Violation>, v: Violation, w: Violation, back: seq<Violation>, p: Policy)
    ensures Select(front + [v] + [w] + back, p)
            == Select(front, p) + Select([v], p) + Select([w], p) + Select(back, p)
    ensures Select([v], p) == if v.policy == p then [v] else []
  {
    SelectConcat(front + [v] + [w], back, p);
    SelectConcat(front + [v], [w], p);
    SelectConcat(front, [v], p);
    assert [v][..0] == [];
  }

  lemma {:induction false} NothingSelected(s: seq<Violation>, p: Policy)
    requires forall v :: v in s ==> v.policy != p
    ensures Select(s, p) == []
  {
    if s != [] {
      NothingSelected(s[..|s| - 1], p);
    }
  }

  lemma AppendInCanonicalOrder(front: seq<Violation>, last: Violation)
    requires forall p: Policy :: Rank(p) > Rank(last.policy) ==> Select(front, p) == []
    ensures InCanonicalOrder(front + [last]) == InCanonicalOrder(front) + [last]
  {
    assert (front + [last])[..|front|] == front;
    forall p: Policy
      ensures Select(front + [last], p) == Select(front, p) + if p == last.policy then [last] else []
    {}
    match last.policy {
      case ScheduleToCloseRequired =>
      case MaxAttemptsTooLow =>
      case LocalActivityStartToCloseTooLong =>
      case TimeoutsPermitRetries =>
    }
  }

  /** A sorted sequence is its own canonical arrangement. */
  lemma {:induction false} SortedIsCanonical(s: seq<Violation>)
    requires Sorted(s)
    ensures s == InCanonicalOrder(s)
  {
    if s != [] {
      var front, last := s[..|s| - 1], s[|s| - 1];
      SortedIsCanonical(front);
      forall p: Policy | Rank(p) > Rank(last.policy)
        ensures Select(front, p) == []
      {
        NothingSelected(front, p);
      }
      AppendInCanonicalOrder(front, last);
      assert s == front + [last];
    }
  }

  /** Selecting a policy keeps all copies of its violations, and nothing else. */
  lemma {:induction false} SelectCounts(s: seq<Violation>, p: Policy, v: Violation)
    ensures multiset(Select(s, p))[v] == if v.policy == p then multiset(s)[v] else 0
  {
    if s != [] {
      SelectCounts(s[..|s| - 1], p, v);
      assert s == s[..|s| - 1] + [s[|s| - 1]];
    }
  }

  lemma CanonicalOrderPermutes(s: seq<Violation>)
    ensures multiset(InCanonicalOrder(s)) == multiset(s)
  {
    forall v: Violation
      ensures multiset(InCanonicalOrder(s))[v] == multiset(s)[v]
    {
      SelectCounts(s, ScheduleToCloseRequired, v);
      SelectCounts(s, MaxAttemptsTooLow, v);
      SelectCounts(s, LocalActivityStartToCloseTooLong, v);
      SelectCounts(s, TimeoutsPermitRetries, v);
    }
  }

  /** The only stable arrangement by rank is the canonical one, and it is a permutation. */
  lemma StableSortIsCanonical(s: seq<Violation>, t: seq<Violation>)
    requires Sorted(t) && SameSelections(s, t)
    ensures t == InCanonicalOrder(s) && multiset(t) == multiset(s)
  {
    SortedIsCanonical(t);
    CanonicalOrderPermutes(s);
  }

  method Swap(a: array<Violation>, j: nat)
    requires 1 <= j < a.Length
    requires a[j - 1].policy != a[j].policy
    modifies a
    ensures a[..] == old(a[..])[j - 1 := old(a[j])][j := old(a[j - 1])]
    ensures SameSelections(a[..], old(a[..]))
  {
    ghost var was := a[..];
    a[j - 1], a[j] := a[j], a[j - 1];
    assert a[..] == was[j - 1 := was[j]][j := was[j - 1]];
    SwapKeepsSelections(was, a[..], j);
  }

  /** All but position `hole` are in order up to and including `last`, and what follows the hole does
      not rank below it. */
  ghost predicate SortedAround(s: seq<Violation>, hole: nat, last: nat)
    requires hole <= last < |s|
  {
    && (forall x, y :: 0 <= x < y <= last && x != hole && y != hole ==> Rank(s[x].policy) <= Rank(s[y].policy))
    && (forall y :: hole < y <= last ==> Rank(s[hole].policy) <= Rank(s[y].policy))
  }

  lemma HoleMovesDown(s: seq<Violation>, t: seq<Violation>, hole: nat, last: nat)
    requires 1 <= hole <= last < |s| && SortedAround(s, hole, last)
    requires Rank(s[hole].policy) < Rank(s[hole - 1].policy)
    requires t == s[hole - 1 := s[hole]][hole := s[hole - 1]]
    ensures SortedAround(t, hole - 1, last)
  {}

  lemma HoleCloses(s: seq<Violation>, hole: nat, last: nat)
    requires hole <= last < |s| && SortedAround(s, hole, last)
    requires hole == 0 || Rank(s[hole - 1].policy) <= Rank(s[hole].policy)
    ensures Sorted(s[..last + 1])
  {}

  /** Moves the violation at `i` down into the sorted part before it. */
  method Insert(a: array<Violation>, i: nat)
    requires i < a.Length && Sorted(a[..i])
    modifies a
    ensures Sorted(a[..i + 1]) && SameSelections(a[..], old(a[..]))
  {
    assert forall x :: 0 <= x < i ==> a[x] == a[..i][x];
    var j := i;
    while j > 0 && Rank(a[j].policy) < Rank(a[j - 1].policy)
      invariant 0 <= j <= i
      invariant SameSelections(a[..], old(a[..]))
      invariant SortedAround(a[..], j, i)
    {
      ghost var before := a[..];
      Swap(a, j);
      HoleMovesDown(before, a[..], j, i);
      j := j - 1;
    }
    HoleCloses(a[..], j, i);
  }

  /** Stable sort by insertion, in place. */
  method Canonicalize(a: array<Violation>)
    modifies a
    ensures a[..] == InCanonicalOrder(old(a[..]))
    ensures multiset(a[..]) == multiset(old(a[..])) && Sorted(a[..])
  {
    for i := 0 to a.Length
      invariant SameSelections(a[..], old(a[..]))
      invariant Sorted(a[..i])
    {
      Insert(a, i);
    }
    assert a[..] == a[..a.Length];
    StableSortIsCanonical(old(a[..]), a[..]);
  }
}
