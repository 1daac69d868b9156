/**
 Starting a Kubernetes Job by create-or-get, so that any attempt of the activity may be repeated.
 Creation is atomic and jobs are not deleted. The second half is the protocol: attempts and other
 clients in any interleaving, with lost replies, refused calls, crashes and creations that take effect
 after the attempt is over.
 */
module KubernetesJob {
  import opened Wrappers

  datatype Key = Key(namespace: string, name: string)

  /** Jobs by name with their UIDs, and the keys created, in order of creation. */
  datatype Cluster = Cluster(jobs: map<Key, nat>, nextUid: nat, created: seq<Key>)

  /** An atomic creation; it fails on a name that exists. */
  function CreateIn(c: Cluster, key: Key): Cluster {
    if key in c.jobs then c
    else Cluster(c.jobs[key := c.nextUid], c.nextUid + 1, c.created + [key])
  }

  function CreateAll(c: Cluster, keys: seq<Key>): Cluster
    decreases |keys|
  {
    if keys == [] then c else CreateAll(CreateIn(c, keys[0]), keys[1..])
  }

  // ---------------------------------------------------------------- one attempt, as written

  datatype CreateReply = Created(uid: nat) | AlreadyExists | CreateFailed

  datatype Failure = CreateJob | GetJob

  class JobsClient {
    var cluster: Cluster

    constructor (cluster: Cluster)
      ensures this.cluster == cluster
    {
      this.cluster := cluster;
    }

    /** `refused`: a transient error, before anything is done. */
    method Create(key: Key, refused: bool) returns (reply: CreateReply)
      modifies this
      ensures cluster == if refused then old(cluster) else CreateIn(old(cluster), key)
      ensures reply == if refused then CreateFailed
                       else if key in old(cluster).jobs then AlreadyExists else Created(old(cluster).nextUid)
    {
      if refused {
        return CreateFailed;
      }
      reply := if key in cluster.jobs then AlreadyExists else Created(cluster.nextUid);
      cluster := CreateIn(cluster, key);
    }

    method Get(key: Key, refused: bool) returns (uid: Option<nat>)
      ensures uid == if refused || key !in cluster.jobs then None else Some(cluster.jobs[key])
    {
      if refused || key !in cluster.jobs {
        return None;
      }
      uid := Some(cluster.jobs[key]);
    }

    /** What other clients create in the meantime. */
    method Interfere(keys: seq<Key>)
      modifies this
      ensures cluster == CreateAll(old(cluster), keys)
    {
      cluster := CreateAll(cluster, keys);
    }
  }

  /** What an attempt makes of the cluster, and its result: the creation, what other clients create
      before the lookup if there is one, and the UID that the name has then. */
  function Outcome(c: Cluster, key: Key, createRefused: bool, getRefused: bool, meanwhile: seq<Key>)
    : (Cluster, Result<nat, Failure>)
  {
    if createRefused then (c, Err(CreateJob))
    else if key !in c.jobs then (CreateIn(c, key), Ok(c.nextUid))
    else (CreateAll(c, meanwhile), if getRefused then Err(GetJob) else Ok(c.jobs[key]))
  }

  /** What is returned, and why: the error of the call that was refused, or else the UID of the name in the
      cluster left behind. An attempt creates the name exactly if it was free and the creation went
      through, and no other. */
  lemma OutcomeReturns(c: Cluster, key: Key, createRefused: bool, getRefused: bool, meanwhile: seq<Key>)
    ensures var (after, r) := Outcome(c, key, createRefused, getRefused, meanwhile);
            && (r == Err(CreateJob) <==> createRefused)
            && (r == Err(GetJob) <==> !createRefused && getRefused && key in c.jobs)
            && (r.Ok? ==> key in after.jobs && after.jobs[key] == r.value)
            && (createRefused ==> after == c)
            && (!createRefused && key !in c.jobs ==> after.created == c.created + [key])
  {
    if key in c.jobs {
      JobsStay(c, meanwhile, key);
    }
  }

  /** An attempt, with interference between its two calls. It fails only where a call was refused, and
      otherwise returns the UID that the name has in the cluster, then and ever after. */
  method StartKubernetesJob(
    jobs: JobsClient, key: Key, createRefused: bool, getRefused: bool, meanwhile: seq<Key>)
    returns (r: Result<nat, Failure>)
    modifies jobs
    ensures (jobs.cluster, r) == Outcome(old(jobs.cluster), key, createRefused, getRefused, meanwhile)
    ensures r.Ok? ==> key in jobs.cluster.jobs && jobs.cluster.jobs[key] == r.value
  {
    var reply := jobs.Create(key, createRefused);
    match reply {
      case Created(uid) =>
        return Ok(uid);
      case AlreadyExists =>
        ghost var before := jobs.cluster;
        jobs.Interfere(meanwhile);
        JobsStay(before, meanwhile, key);
        var existing := jobs.Get(key, getRefused);
        if existing.None? {
          return Err(GetJob);
        }
        return Ok(existing.value);
      case CreateFailed =>
        return Err(CreateJob);
    }
  }

  lemma {:induction false} JobsStay(c: Cluster, keys: seq<Key>, key: Key)
    requires key in c.jobs
    ensures key in CreateAll(c, keys).jobs && CreateAll(c, keys).jobs[key] == c.jobs[key]
    decreases |keys|
  {
    if keys != [] {
      JobsStay(CreateIn(c, keys[0]), keys[1..], key);
    }
  }

  // ---------------------------------------------------------------- attempts in any interleaving

  /** Where an attempt is. */
  datatype Progress = Creating | Getting | Returned(uid: nat) | Failed

  datatype Attempt = Attempt(key: Key, progress: Progress)

  datatype System = System(cluster: Cluster, attempts: map<nat, Attempt>)

  datatype Event =
    | Begin(attempt: nat, key: Key)
    | CreateAnswered(attempt: nat)   // applied or rejected, and the answer arrives
    | CreateApplied(attempt: nat)    // applied, at any time after the attempt began; no answer arrives
    | GetAnswered(attempt: nat)
    | GiveUp(attempt: nat)           // refused call, lost answer or crash
    | OtherClient(key: Key)

  predicate At(s: System, a: nat, p: Progress) {
    a in s.attempts && s.attempts[a].progress == p
  }

  predicate Enabled(s: System, e: Event) {
    match e
    case Begin(a, _) => a !in s.attempts
    case CreateAnswered(a) => At(s, a, Creating)
    case CreateApplied(a) => a in s.attempts
    case GetAnswered(a) => At(s, a, Getting)
    case GiveUp(a) => At(s, a, Creating) || At(s, a, Getting)
    case OtherClient(_) => true
  }

  function Move(s: System, a: nat, c: Cluster, p: Progress): System
    requires a in s.attempts
  {
    System(c, s.attempts[a := Attempt(s.attempts[a].key, p)])
  }

  /** A Get is answered with the UID of the name; without deletions it is there (see Consistent). */
  function Happen(s: System, e: Event): System
    requires Enabled(s, e)
  {
    match e
    case Begin(a, key) => s.(attempts := s.attempts[a := Attempt(key, Creating)])
    case CreateAnswered(a) =>
      var key := s.attempts[a].key;
      if key in s.cluster.jobs then Move(s, a, s.cluster, Getting)
      else Move(s, a, CreateIn(s.cluster, key), Returned(s.cluster.nextUid))
    case CreateApplied(a) => s.(cluster := CreateIn(s.cluster, s.attempts[a].key))
    case GetAnswered(a) =>
      var key := s.attempts[a].key;
      Move(s, a, s.cluster, if key in s.cluster.jobs then Returned(s.cluster.jobs[key]) else Failed)
    case GiveUp(a) => Move(s, a, s.cluster, Failed)
    case OtherClient(key) => s.(cluster := CreateIn(s.cluster, key))
  }

  /** The system after a history of events, from any cluster; None if some event was not possible. */
  function After(initial: Cluster, events: seq<Event>): Option<System> {
    if events == [] then Some(System(initial, map[]))
    else match After(initial, events[..|events| - 1])
      case None => None
      case Some(s) =>
        if Enabled(s, events[|events| - 1]) then Some(Happen(s, events[|events| - 1])) else None
  }

  /** UIDs are distinct, and the next one is new. */
  ghost predicate WellFormed(c: Cluster) {
    && (forall k :: k in c.jobs ==> c.jobs[k] < c.nextUid)
    && (forall j, k :: j in c.jobs && k in c.jobs && c.jobs[j] == c.jobs[k] ==> j == k)
  }

  ghost predicate Distinct(keys: seq<Key>) {
    forall i, j :: 0 <= i < j < |keys| ==> keys[i] != keys[j]
  }

  /** What is known of the cluster, given the one at the start. */
  ghost predicate Sound(initial: Cluster, c: Cluster) {
    && WellFormed(c)
    && (forall k :: k in initial.jobs ==> k in c.jobs && c.jobs[k] == initial.jobs[k])
    && Distinct(c.created)
    && (forall k :: k in c.created ==> k in c.jobs && k !in initial.jobs)
  }

  ghost predicate Consistent(initial: Cluster, s: System) {
    Sound(initial, s.cluster) && forall a :: a in s.attempts ==> AttemptConsistent(s, a)
  }

  ghost predicate AttemptConsistent(s: System, a: nat)
    requires a in s.attempts
  {
    var key := s.attempts[a].key;
    match s.attempts[a].progress
    case Getting => key in s.cluster.jobs
    case Returned(uid) => key in s.cluster.jobs && s.cluster.jobs[key] == uid
    case _ => true
  }

  lemma CreateKeepsSound(initial: Cluster, c: Cluster, key: Key)
    requires Sound(initial, c)
    ensures Sound(initial, CreateIn(c, key))
    ensures forall k :: k in c.jobs ==> k in CreateIn(c, key).jobs && CreateIn(c, key).jobs[k] == c.jobs[k]
  {}

  lemma {:induction false} EventKeepsConsistent(initial: Cluster, s: System, e: Event)
    requires Consistent(initial, s) && Enabled(s, e)
    ensures Consistent(initial, Happen(s, e))
    ensures e.GetAnswered? ==> Happen(s, e).attempts[e.attempt].progress.Returned?
  {
    var t := Happen(s, e);
    var key := if e.Begin? || e.OtherClient? then e.key else s.attempts[e.attempt].key;
    CreateKeepsSound(initial, s.cluster, key);
    forall a | a in t.attempts
      ensures AttemptConsistent(t, a)
    {
      if a in s.attempts {
        assert AttemptConsistent(s, a);
      }
    }
  }

  lemma {:induction false} HistoriesAreConsistent(initial: Cluster, events: seq<Event>)
    requires WellFormed(initial) && initial.created == []
    ensures After(initial, events).Some? ==> Consistent(initial, After(initial, events).value)
  {
    if events != [] {
      var front := events[..|events| - 1];
      HistoriesAreConsistent(initial, front);
      if After(initial, front).Some? && Enabled(After(initial, front).value, events[|events| - 1]) {
        EventKeepsConsistent(initial, After(initial, front).value, events[|events| - 1]);
      }
    }
  }

  /** In every history at most one Job of a name is created, and none if it was there before; attempts
      that return do so with the same UID exactly when they are about the same name. */
  lemma OneJobPerName(initial: Cluster, events: seq<Event>, s: System)
    requires WellFormed(initial) && initial.created == []
    requires After(initial, events) == Some(s)
    ensures Distinct(s.cluster.created) && forall k :: k in s.cluster.created ==> k !in initial.jobs
    ensures forall a, b :: a in s.attempts && b in s.attempts
                           && s.attempts[a].progress.Returned? && s.attempts[b].progress.Returned?
                           ==> (s.attempts[a].progress == s.attempts[b].progress
                                <==> s.attempts[a].key == s.attempts[b].key)
  {
    HistoriesAreConsistent(initial, events);
    forall a | a in s.attempts
      ensures AttemptConsistent(s, a)
    {}
  }

  // ---------------------------------------------------------------- attempts as written, in the protocol

  function OtherClients(keys: seq<Key>): seq<Event> {
    seq(|keys|, i requires 0 <= i < |keys| => OtherClient(keys[i]))
  }

  /** The events that an attempt stands for. */
  function EventsOf(c: Cluster, a: nat, key: Key, createRefused: bool, getRefused: bool, meanwhile: seq<Key>)
    : seq<Event>
  {
    [Begin(a, key)]
    + if createRefused then [GiveUp(a)]
      else if key !in c.jobs then [CreateAnswered(a)]
      else [CreateAnswered(a)] + OtherClients(meanwhile) + [if getRefused then GiveUp(a) else GetAnswered(a)]
  }

  lemma AfterEvent(initial: Cluster, events: seq<Event>, e: Event)
    requires After(initial, events).Some? && Enabled(After(initial, events).value, e)
    ensures After(initial, events + [e]) == Some(Happen(After(initial, events).value, e))
  {
    assert (events + [e])[..|events + [e]| - 1] == events;
  }

  lemma {:induction false} AfterOtherClients(initial: Cluster, events: seq<Event>, s: System, keys: seq<Key>)
    requires After(initial, events) == Some(s)
    ensures After(initial, events + OtherClients(keys)) == Some(s.(cluster := CreateAll(s.cluster, keys)))
    decreases |keys|
  {
    if keys == [] {
      assert events + OtherClients(keys) == events;
    } else {
      AfterEvent(initial, events, OtherClient(keys[0]));
      var t := s.(cluster := CreateIn(s.cluster, keys[0]));
      AfterOtherClients(initial, events + [OtherClient(keys[0])], t, keys[1..]);
      assert events + OtherClients(keys) == events + [OtherClient(keys[0])] + OtherClients(keys[1..]);
    }
  }

  lemma AfterExisting(
    initial: Cluster, events: seq<Event>, s: System, a: nat, key: Key, refused: bool, meanwhile: seq<Key>)
    requires After(initial, events) == Some(s) && At(s, a, Creating)
    requires s.attempts[a].key == key && key in s.cluster.jobs
    ensures var last := if refused then GiveUp(a) else GetAnswered(a);
            var found := if refused then Failed else Returned(s.cluster.jobs[key]);
            After(initial, events + ([CreateAnswered(a)] + OtherClients(meanwhile) + [last]))
            == Some(Move(s, a, CreateAll(s.cluster, meanwhile), found))
  {
    var last := if refused then GiveUp(a) else GetAnswered(a);
    var found := if refused then Failed else Returned(s.cluster.jobs[key]);
    var answered := events + [CreateAnswered(a)];
    var disturbed := answered + OtherClients(meanwhile);
    AfterEvent(initial, events, CreateAnswered(a));
    AfterOtherClients(initial, answered, Move(s, a, s.cluster, Getting), meanwhile);
    JobsStay(s.cluster, meanwhile, key);
    AfterEvent(initial, disturbed, last);
    assert s.attempts[a := Attempt(key, Getting)][a := Attempt(key, found)] == s.attempts[a := Attempt(key, found)];
    assert events + ([CreateAnswered(a)] + OtherClients(meanwhile) + [last]) == disturbed + [last];
  }

  /** StartKubernetesJob is a run of the protocol: in any history, an attempt under a new number adds its
      events, leaves the cluster as the method does, and stands where its result says. */
  lemma AttemptIsHistory(
    initial: Cluster, events: seq<Event>, s: System, a: nat, key: Key,
    createRefused: bool, getRefused: bool, meanwhile: seq<Key>)
    requires After(initial, events) == Some(s) && a !in s.attempts
    ensures var (after, r) := Outcome(s.cluster, key, createRefused, getRefused, meanwhile);
            After(initial, events + EventsOf(s.cluster, a, key, createRefused, getRefused, meanwhile))
            == Some(System(after, s.attempts[a := Attempt(key, if r.Ok? then Returned(r.value) else Failed)]))
  {
    var begun := events + [Begin(a, key)];
    var tail := EventsOf(s.cluster, a, key, createRefused, getRefused, meanwhile)[1..];
    AfterEvent(initial, events, Begin(a, key));
    forall p
      ensures s.attempts[a := Attempt(key, Creating)][a := Attempt(key, p)] == s.attempts[a := Attempt(key, p)]
    {}
    assert events + EventsOf(s.cluster, a, key, createRefused, getRefused, meanwhile) == begun + tail;
    if createRefused {
      AfterEvent(initial, begun, GiveUp(a));
    } else if key !in s.cluster.jobs {
      AfterEvent(initial, begun, CreateAnswered(a));
    } else {
      AfterExisting(initial, begun, Happen(s, Begin(a, key)), a, key, getRefused, meanwhile);
    }
  }

  /** A creation may take effect at any time after the attempt began, even when the attempt is over: if it
      returned a UID, that changes nothing. */
  lemma LateCreationIsHarmless(initial: Cluster, events: seq<Event>, s: System, a: nat)
    requires WellFormed(initial) && initial.created == []
    requires After(initial, events) == Some(s) && a in s.attempts
    ensures After(initial, events + [CreateApplied(a)]).Some?
    ensures s.attempts[a].progress.Returned? ==> After(initial, events + [CreateApplied(a)]) == Some(s)
  {
    HistoriesAreConsistent(initial, events);
    assert AttemptConsistent(s, a);
    AfterEvent(initial, events, CreateApplied(a));
  }
}
