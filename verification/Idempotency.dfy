/**
 The idempotency token of an activity: a hash over workflow ID, run ID and activity ID, separated by
 NUL bytes. The hash is a parameter; what is proved is which identities its input can tell apart.
 */
module Idempotency {
  import opened Wrappers

  type byte = x: int | 0 <= x < 256

  datatype Identity = Identity(workflowId: seq<byte>, runId: seq<byte>, activityId: seq<byte>)

  /** The part of the activity info that matters, and the attempt number, which must not. */
  datatype ActivityInfo = ActivityInfo(identity: Identity, attempt: nat)

  type Hash = seq<byte> -> string

  function Preimage(id: Identity): seq<byte> {
    id.workflowId + [0] + id.runId + [0] + id.activityId
  }

  function Token(hash: Hash, id: Identity): string {
    hash(Preimage(id))
  }

  class HashState {
    var written: seq<byte>

    constructor ()
      ensures written == []
    {
      written := [];
    }

    method Write(bytes: seq<byte>)
      modifies this
      ensures written == old(written) + bytes
    {
      written := written + bytes;
    }
  }

  /** The token depends on the identity only: every attempt has the same. */
  method GetIdempotencyToken(hash: Hash, info: ActivityInfo) returns (token: string)
    ensures token == Token(hash, info.identity)
    ensures var id := info.identity; token == hash(id.workflowId + [0] + id.runId + [0] + id.activityId)
  {
    var h := new HashState();
    h.Write(info.identity.workflowId);
    h.Write([0]);
    h.Write(info.identity.runId);
    h.Write([0]);
    h.Write(info.identity.activityId);
    assert h.written == Preimage(info.identity);
    token := hash(h.written);
  }

  // ---------------------------------------------------------------- decoding

  predicate NulFree(s: seq<byte>) {
    0 !in s
  }

  /** What precedes and what follows the first NUL. */
  function SplitAtNul(s: seq<byte>): Option<(seq<byte>, seq<byte>)> {
    if s == [] then None
    else if s[0] == 0 then Some(([], s[1..]))
    else match SplitAtNul(s[1..])
      case None => None
      case Some((front, back)) => Some(([s[0]] + front, back))
  }

  function Decode(s: seq<byte>): Option<Identity> {
    match SplitAtNul(s)
    case None => None
    case Some((workflowId, rest)) =>
      match SplitAtNul(rest)
      case None => None
      case Some((runId, activityId)) => Some(Identity(workflowId, runId, activityId))
  }

  lemma {:induction false} SplitFindsFirstNul(front: seq<byte>, back: seq<byte>)
    requires NulFree(front)
    ensures SplitAtNul(front + [0] + back) == Some((front, back))
  {
    if front == [] {
      assert (front + [0] + back)[1..] == back;
    } else {
      SplitFindsFirstNul(front[1..], back);
      assert (front + [0] + back)[1..] == front[1..] + [0] + back;
      assert [front[0]] + front[1..] == front;
    }
  }

  lemma {:induction false} SplitFrontIsNulFree(s: seq<byte>)
    ensures SplitAtNul(s).Some? ==> NulFree(SplitAtNul(s).value.0)
  {
    if s != [] && s[0] != 0 {
      SplitFrontIsNulFree(s[1..]);
    }
  }

  /** The encoding can be read back exactly when workflow ID and run ID have no NUL; an activity ID may
      even have one. */
  lemma DecodesIff(id: Identity)
    ensures Decode(Preimage(id)) == Some(id) <==> NulFree(id.workflowId) && NulFree(id.runId)
  {
    var rest := id.runId + [0] + id.activityId;
    assert Preimage(id) == id.workflowId + [0] + rest;
    if NulFree(id.workflowId) && NulFree(id.runId) {
      SplitFindsFirstNul(id.workflowId, rest);
      SplitFindsFirstNul(id.runId, id.activityId);
    }
    SplitFrontIsNulFree(Preimage(id));
    if SplitAtNul(Preimage(id)).Some? {
      SplitFrontIsNulFree(SplitAtNul(Preimage(id)).value.1);
    }
  }

  /** Over IDs without NUL bytes, empty ones included, the encoding is injective. */
  lemma PreimageInjective(a: Identity, b: Identity)
    requires NulFree(a.workflowId) && NulFree(a.runId) && NulFree(b.workflowId) && NulFree(b.runId)
    requires Preimage(a) == Preimage(b)
    ensures a == b
  {
    DecodesIff(a);
    DecodesIff(b);
  }

  // ---------------------------------------------------------------- collisions

  function Nuls(s: seq<byte>): nat {
    multiset(s)[0]
  }

  /** Where the first NUL is, another cut is possible. */
  lemma CutAtNul(s: seq<byte>) returns (front: seq<byte>, back: seq<byte>)
    requires !NulFree(s)
    ensures s == front + [0] + back
  {
    var k :| 0 <= k < |s| && s[k] == 0;
    front, back := s[..k], s[k + 1..];
  }

  /** An identity shares its encoding with another one: found for each place a NUL can be. */
  lemma NulMakesCollision(id: Identity) returns (other: Identity)
    requires !(NulFree(id.workflowId) && NulFree(id.runId) && NulFree(id.activityId))
    ensures other != id && Preimage(other) == Preimage(id)
  {
    if !NulFree(id.workflowId) {
      var front, back := CutAtNul(id.workflowId);
      other := Identity(front, back, id.runId + [0] + id.activityId);
    } else if !NulFree(id.runId) {
      var front, back := CutAtNul(id.runId);
      other := Identity(id.workflowId, front, back + [0] + id.activityId);
    } else {
      var front, back := CutAtNul(id.activityId);
      other := Identity(id.workflowId, id.runId + [0] + front, back);
      assert |other.runId| > |id.runId|;
    }
  }

  /** An identity is told apart from all others, whatever bytes those have, exactly when it has no NUL. */
  lemma UniqueAmongAllIff(id: Identity)
    ensures (forall other :: Preimage(other) == Preimage(id) ==> other == id)
            <==> NulFree(id.workflowId) && NulFree(id.runId) && NulFree(id.activityId)
  {
    if NulFree(id.workflowId) && NulFree(id.runId) && NulFree(id.activityId) {
      forall other | Preimage(other) == Preimage(id)
        ensures other == id
      {
        assert Nuls(Preimage(id)) == 2;
        assert Nuls(Preimage(other)) == Nuls(other.workflowId) + 1 + Nuls(other.runId) + 1 + Nuls(other.activityId);
        PreimageInjective(id, other);
      }
    } else {
      var other := NulMakesCollision(id);
    }
  }
}
