/**
 Charging a payment at most once from an activity that may run any number of times. Each attempt posts
 a request under the idempotency token of its activity to an upstream that coalesces by key. The second
 half is the protocol: attempts in any interleaving, overlapping retries included, over a network that
 may delay, repeat or drop requests and replies.
 */
module Payments {
  import opened HttpHeaders
  import opened Wrappers
  import opened Idempotency

  // ---------------------------------------------------------------- the upstream service

  /** `charges[i]` is the key under which charge i was made. */
  datatype Upstream = Upstream(charges: seq<string>, byKey: map<string, nat>)

  const FRESH: Upstream := Upstream([], map[])

  /** Deduplication: a known key gets the charge it has, any other a new one. */
  function Receive(u: Upstream, key: string): (Upstream, nat) {
    if key in u.byKey then (u, u.byKey[key])
    else (Upstream(u.charges + [key], u.byKey[key := |u.charges|]), |u.charges|)
  }

  // ---------------------------------------------------------------- one attempt, as written

  /** The state in which a reply body arrives: intact, with a field of the wrong type, or cut off. */
  datatype Damage = Intact | WrongType | Truncated

  datatype Response = Response(status: int, chargeId: nat, damage: Damage)

  /** What the network does to a request; a response needs a request that got through. */
  datatype Exchange =
    | RequestLost
    | ResponseLost
    | Responded(status: int, damage: Damage)

  datatype Failure =
    | BuildRequest
    | Transport
    | Status(code: int)
    | DecodeResponse(nonRetryable: bool)

  class PaymentsApi {
    var state: Upstream

    constructor ()
      ensures state == FRESH
    {
      state := FRESH;
    }

    method Post(key: string, exchange: Exchange) returns (r: Option<Response>)
      modifies this
      ensures state == if exchange.RequestLost? then old(state) else Receive(old(state), key).0
      ensures r == if exchange.Responded?
                   then Some(Response(exchange.status, Receive(old(state), key).1, exchange.damage)) else None
    {
      if exchange.RequestLost? {
        return None;
      }
      var (next, id) := Receive(state, key);
      state := next;
      match exchange {
        case Responded(status, damage) => return Some(Response(status, id, damage));
        case _ => return None;
      }
    }
  }

  /** The header under which a client sends its token. */
  function HeaderName(configured: string): string {
    if configured == "" then DEFAULT_IDEMPOTENCY_HEADER else configured
  }

  /** `httpClient.Do` up to the exchange: the token is set unless the caller has set the header, under
      that name in any case, or there is no token because this is not an activity. */
  method SetIdempotencyHeader(configured: string, req: HttpRequest, token: string)
    modifies req
    ensures req.header == if old(req.Get(HeaderName(configured))) == "" && token != ""
                          then old(req.header)[CanonicalKey(HeaderName(configured)) := token] else old(req.header)
    ensures req.Get(HeaderName(configured))
            == if old(req.Get(HeaderName(configured))) != "" then old(req.Get(HeaderName(configured))) else token
    ensures configured == "" && "Idempotency-Key" !in old(req.header) && token != ""
            ==> req.header == old(req.header)["Idempotency-Key" := token]
  {
    DefaultHeaderIsCanonical();
    var header := configured;
    if header == "" {
      header := DEFAULT_IDEMPOTENCY_HEADER;
    }
    if req.Get(header) == "" {
      if token != "" {
        req.Set(header, token);
      }
    }
  }

  method BuildChargeRequest(buildable: bool) returns (r: Option<HttpRequest>)
    ensures r.Some? <==> buildable
    ensures r.Some? ==> fresh(r.value) && r.value.header == map[CanonicalKey(CONTENT_TYPE) := "application/json"]
  {
    if !buildable {
      return None;
    }
    var req := new HttpRequest();
    req.Set(CONTENT_TYPE, "application/json");
    r := Some(req);
  }

  /** The content type is not taken for the idempotency key. */
  lemma ContentTypeIsNoKey()
    ensures CanonicalKey(CONTENT_TYPE) != CanonicalKey(DEFAULT_IDEMPOTENCY_HEADER)
  {
    if CanonicalKey(CONTENT_TYPE) == CanonicalKey(DEFAULT_IDEMPOTENCY_HEADER) {
      OnlyCaseIsLost(CONTENT_TYPE, DEFAULT_IDEMPOTENCY_HEADER);
    }
  }

  /** Why an attempt that fails does so; the first obstacle counts. */
  function FailureOf(buildable: bool, exchange: Exchange): Failure {
    if !buildable then BuildRequest
    else if !exchange.Responded? then Transport
    else if !(200 <= exchange.status < 400) then Status(exchange.status)
    else DecodeResponse(exchange.damage.WrongType?)
  }

  /** What an attempt does to the upstream, and its result. */
  function Attempt(hash: Hash, u: Upstream, id: Identity, buildable: bool, exchange: Exchange)
    : (Upstream, Result<nat, Failure>)
  {
    var (after, charge) := Receive(u, Token(hash, id));
    (if buildable && !exchange.RequestLost? then after else u,
     if Succeeds(buildable, exchange) then Ok(charge) else Err(FailureOf(buildable, exchange)))
  }

  /** A 2xx or 3xx reply with a well-formed body. */
  predicate Succeeds(buildable: bool, exchange: Exchange) {
    buildable && exchange.Responded? && 200 <= exchange.status < 400 && exchange.damage.Intact?
  }

  /** What is returned, and why: the charge of a 2xx or 3xx reply with a well-formed body; otherwise what
      went wrong first, and a body is not worth a retry only if a field has the wrong type. */
  lemma AttemptReturns(hash: Hash, u: Upstream, id: Identity, buildable: bool, exchange: Exchange)
    ensures var r := Attempt(hash, u, id, buildable, exchange).1;
            && (r == Err(BuildRequest) <==> !buildable)
            && (r == Err(Transport) <==> buildable && (exchange.RequestLost? || exchange.ResponseLost?))
            && (buildable && exchange.Responded? ==>
                  var good := 200 <= exchange.status < 400;
                  && (!good <==> r == Err(Status(exchange.status)))
                  && (good && exchange.damage == Intact <==> r.Ok?)
                  && (good && exchange.damage == WrongType <==> r == Err(DecodeResponse(true)))
                  && (good && exchange.damage == Truncated <==> r == Err(DecodeResponse(false))))
    ensures var (after, r) := Attempt(hash, u, id, buildable, exchange);
            && (r.Ok? ==> Token(hash, id) in after.byKey && after.byKey[Token(hash, id)] == r.value)
            && (after == u <==> !buildable || exchange.RequestLost? || Token(hash, id) in u.byKey)
  {
    assert Token(hash, id) !in u.byKey ==> |Receive(u, Token(hash, id)).0.charges| == |u.charges| + 1;
  }

  /** One attempt: at most one request, under the token of its activity; it succeeds exactly on a 2xx or
      3xx reply with a well-formed body, and then returns the charge of that reply. */
  method ChargePayment(api: PaymentsApi, hash: Hash, info: ActivityInfo, buildable: bool, exchange: Exchange)
    returns (r: Result<nat, Failure>)
    requires Token(hash, info.identity) != ""
    modifies api
    ensures (api.state, r) == Attempt(hash, old(api.state), info.identity, buildable, exchange)
  {
    ContentTypeIsNoKey();
    var built := BuildChargeRequest(buildable);
    if built.None? {
      return Err(BuildRequest);
    }
    var req := built.value;
    var token := GetIdempotencyToken(hash, info);
    SetIdempotencyHeader(DEFAULT_IDEMPOTENCY_HEADER, req, token);
    var response := api.Post(req.Get(DEFAULT_IDEMPOTENCY_HEADER), exchange);
    if response.None? {
      return Err(Transport);
    }
    if response.value.status < 200 || response.value.status >= 400 {
      return Err(Status(response.value.status));
    }
    if !response.value.damage.Intact? {
      return Err(DecodeResponse(response.value.damage.WrongType?));
    }
    return Ok(response.value.chargeId);
  }

  // ---------------------------------------------------------------- attempts in any interleaving

  /** Attempts are numbered; a retry of an activity is a new attempt for the same identity. Whatever is
      sent stays in the network: an event that is lost simply never happens, one that is repeated
      happens again. */
  datatype Net = Net(
    upstream: Upstream,
    sent: map<nat, Identity>,
    replies: set<(nat, nat)>,
    results: map<nat, nat>)

  datatype Event =
    | Send(attempt: nat, id: Identity)
    | Deliver(attempt: nat)                  // the request reaches the upstream, and is answered
    | Return(attempt: nat, chargeId: nat)    // a reply is decoded, and the attempt returns

  predicate Enabled(n: Net, e: Event) {
    match e
    case Send(a, _) => a !in n.sent
    case Deliver(a) => a in n.sent
    case Return(a, charge) => (a, charge) in n.replies && a !in n.results
  }

  function Happen(hash: Hash, n: Net, e: Event): Net
    requires Enabled(n, e)
  {
    match e
    case Send(a, id) => n.(sent := n.sent[a := id])
    case Deliver(a) =>
      var (u, charge) := Receive(n.upstream, Token(hash, n.sent[a]));
      n.(upstream := u, replies := n.replies + {(a, charge)})
    case Return(a, charge) => n.(results := n.results[a := charge])
  }

  const QUIET: Net := Net(FRESH, map[], {}, map[])

  /** The network after a history of events, or None if some event was not possible. */
  function After(hash: Hash, events: seq<Event>): Option<Net> {
    if events == [] then Some(QUIET)
    else match After(hash, events[..|events| - 1])
      case None => None
      case Some(n) =>
        if Enabled(n, events[|events| - 1]) then Some(Happen(hash, n, events[|events| - 1])) else None
  }

  /** Keys and charges correspond one to one; every reply and result is the charge of its key. */
  ghost predicate Consistent(hash: Hash, n: Net) {
    && (forall k :: k in n.upstream.byKey ==>
          n.upstream.byKey[k] < |n.upstream.charges| && n.upstream.charges[n.upstream.byKey[k]] == k)
    && (forall i :: 0 <= i < |n.upstream.charges| ==>
          n.upstream.charges[i] in n.upstream.byKey && n.upstream.byKey[n.upstream.charges[i]] == i)
    && (forall k :: k in n.upstream.byKey ==> exists a :: a in n.sent && Token(hash, n.sent[a]) == k)
    && (forall r :: r in n.replies ==> BelongsTo(hash, n, r.0, r.1))
    && (forall a :: a in n.results ==> BelongsTo(hash, n, a, n.results[a]))
  }

  predicate BelongsTo(hash: Hash, n: Net, a: nat, charge: nat) {
    && a in n.sent && Token(hash, n.sent[a]) in n.upstream.byKey
    && n.upstream.byKey[Token(hash, n.sent[a])] == charge
  }

  lemma EventKeepsConsistent(hash: Hash, n: Net, e: Event)
    requires Consistent(hash, n) && Enabled(n, e)
    ensures Consistent(hash, Happen(hash, n, e))
  {
    var m := Happen(hash, n, e);
    forall k | k in m.upstream.byKey
      ensures exists a :: a in m.sent && Token(hash, m.sent[a]) == k
    {
      if k in n.upstream.byKey {
        var a :| a in n.sent && Token(hash, n.sent[a]) == k;
        assert a in m.sent && m.sent[a] == n.sent[a];
      } else {
        assert e.attempt in m.sent;
      }
    }
    forall r | r in m.replies
      ensures BelongsTo(hash, m, r.0, r.1)
    {
      assert r in n.replies ==> BelongsTo(hash, n, r.0, r.1);
    }
    forall a | a in m.results
      ensures BelongsTo(hash, m, a, m.results[a])
    {
      if a in n.results {
        assert BelongsTo(hash, n, a, n.results[a]);
      } else {
        assert BelongsTo(hash, n, a, (a, m.results[a]).1);
      }
    }
  }

  lemma {:induction false} HistoriesAreConsistent(hash: Hash, events: seq<Event>)
    ensures After(hash, events).Some? ==> Consistent(hash, After(hash, events).value)
  {
    if events != [] {
      var front := events[..|events| - 1];
      HistoriesAreConsistent(hash, front);
      if After(hash, front).Some? && Enabled(After(hash, front).value, events[|events| - 1]) {
        EventKeepsConsistent(hash, After(hash, front).value, events[|events| - 1]);
      }
    }
  }

  /** No two of the activities at hand, with NUL-free IDs, hash to the same token. */
  ghost predicate CollisionFree(hash: Hash, n: Net) {
    && (forall a :: a in n.sent ==> NulFree(n.sent[a].workflowId) && NulFree(n.sent[a].runId))
    && (forall a, b :: a in n.sent && b in n.sent && Token(hash, n.sent[a]) == Token(hash, n.sent[b])
                       ==> Preimage(n.sent[a]) == Preimage(n.sent[b]))
  }

  /** The charges that were made for an activity. */
  ghost function ChargesOf(hash: Hash, n: Net, id: Identity): set<nat> {
    set i | 0 <= i < |n.upstream.charges| && n.upstream.charges[i] == Token(hash, id)
  }

  /** At-most-once charging. In every history each activity has at most one charge; an attempt that
      returns has the charge of its own activity, which is then the only one; and two attempts return
      the same charge if and only if they are attempts of the same activity. */
  lemma ChargedAtMostOnce(hash: Hash, events: seq<Event>, n: Net)
    requires After(hash, events) == Some(n) && CollisionFree(hash, n)
    ensures forall id :: |ChargesOf(hash, n, id)| <= 1
    ensures forall a :: a in n.results ==> a in n.sent && ChargesOf(hash, n, n.sent[a]) == {n.results[a]}
    ensures forall a, b :: a in n.results && b in n.results ==>
              (n.results[a] == n.results[b] <==> n.sent[a] == n.sent[b])
  {
    HistoriesAreConsistent(hash, events);
    forall id
      ensures |ChargesOf(hash, n, id)| <= 1
    {
      var key := Token(hash, id);
      if key in n.upstream.byKey {
        assert ChargesOf(hash, n, id) == {n.upstream.byKey[key]};
      } else {
        assert ChargesOf(hash, n, id) == {};
      }
    }
    forall a | a in n.results
      ensures a in n.sent && ChargesOf(hash, n, n.sent[a]) == {n.results[a]}
    {
      assert BelongsTo(hash, n, a, n.results[a]);
    }
    forall a, b | a in n.results && b in n.results && n.results[a] == n.results[b]
      ensures n.sent[a] == n.sent[b]
    {
      assert BelongsTo(hash, n, a, n.results[a]) && BelongsTo(hash, n, b, n.results[b]);
      PreimageInjective(n.sent[a], n.sent[b]);
    }
  }

  /** No charge is made that no attempt asked for, and each belongs to exactly one activity. */
  lemma EveryChargeHasOneActivity(hash: Hash, events: seq<Event>, n: Net, i: nat)
    requires After(hash, events) == Some(n) && CollisionFree(hash, n) && i < |n.upstream.charges|
    ensures exists a :: a in n.sent && i in ChargesOf(hash, n, n.sent[a])
    ensures forall a, b :: a in n.sent && b in n.sent
                           && i in ChargesOf(hash, n, n.sent[a]) && i in ChargesOf(hash, n, n.sent[b])
                           ==> n.sent[a] == n.sent[b]
  {
    HistoriesAreConsistent(hash, events);
    var a :| a in n.sent && Token(hash, n.sent[a]) == n.upstream.charges[i];
    assert i in ChargesOf(hash, n, n.sent[a]);
    forall a, b | a in n.sent && b in n.sent
                  && i in ChargesOf(hash, n, n.sent[a]) && i in ChargesOf(hash, n, n.sent[b])
      ensures n.sent[a] == n.sent[b]
    {
      PreimageInjective(n.sent[a], n.sent[b]);
    }
  }

  // ---------------------------------------------------------------- attempts as written, in the protocol

  /** The events that an attempt with a given exchange stands for. */
  function EventsOf(
    hash: Hash, u: Upstream, a: nat, id: Identity, buildable: bool, exchange: Exchange): seq<Event>
  {
    if !buildable then []
    else
      [Send(a, id)]
      + (if exchange.RequestLost? then [] else [Deliver(a)])
      + (if Succeeds(buildable, exchange) then [Return(a, Receive(u, Token(hash, id)).1)] else [])
  }

  lemma AfterEvent(hash: Hash, events: seq<Event>, e: Event)
    requires After(hash, events).Some? && Enabled(After(hash, events).value, e)
    ensures After(hash, events + [e]) == Some(Happen(hash, After(hash, events).value, e))
  {
    assert (events + [e])[..|events + [e]| - 1] == events;
  }

  /** ChargePayment is a run of the protocol: in any history, an attempt under a new number adds its
      events, and leaves the upstream, the results and the identities as the method does. */
  lemma AttemptIsHistory(
    hash: Hash, events: seq<Event>, n: Net, a: nat, id: Identity, buildable: bool, exchange: Exchange)
    requires After(hash, events) == Some(n) && a !in n.sent
    ensures var (after, r) := Attempt(hash, n.upstream, id, buildable, exchange);
            var m := After(hash, events + EventsOf(hash, n.upstream, a, id, buildable, exchange));
            && m.Some?
            && m.value.upstream == after
            && m.value.results == (if r.Ok? then n.results[a := r.value] else n.results)
            && m.value.sent == (if buildable then n.sent[a := id] else n.sent)
  {
    if !buildable {
      assert events + [] == events;
    } else {
      HistoriesAreConsistent(hash, events);
      assert a in n.results ==> BelongsTo(hash, n, a, n.results[a]);
      var sent := events + [Send(a, id)];
      AfterEvent(hash, events, Send(a, id));
      if !exchange.RequestLost? {
        var delivered := sent + [Deliver(a)];
        AfterEvent(hash, sent, Deliver(a));
        if Succeeds(buildable, exchange) {
          var charge := Receive(n.upstream, Token(hash, id)).1;
          AfterEvent(hash, delivered, Return(a, charge));
          assert events + EventsOf(hash, n.upstream, a, id, buildable, exchange) == delivered + [Return(a, charge)];
        } else {
          assert events + EventsOf(hash, n.upstream, a, id, buildable, exchange) == delivered;
        }
      } else {
        assert events + EventsOf(hash, n.upstream, a, id, buildable, exchange) == sent;
      }
    }
  }

  /** A request may reach the upstream at any time after it was sent, and any number of times: once it has
      been answered, again makes no difference. */
  lemma RedeliveryChangesNothing(hash: Hash, events: seq<Event>, n: Net, a: nat)
    requires After(hash, events) == Some(n) && a in n.sent
    ensures After(hash, events + [Deliver(a)]).Some?
    ensures After(hash, events + [Deliver(a)] + [Deliver(a)]) == After(hash, events + [Deliver(a)])
  {
    AfterEvent(hash, events, Deliver(a));
    AfterEvent(hash, events + [Deliver(a)], Deliver(a));
  }
}
