/** The graph cache as a value: what each discovery event does to it, the invariant every
    event keeps, and the exact conditions under which an event is refused. */
module CacheSpec {
  import opened GraphTypes

  datatype Cache = Cache(
    participants: seq<Guid>,
    nodes: seq<CachedNode>,
    endpoints: seq<CachedEndpoint>)

  const EMPTY_CACHE := Cache([], [], [])

  datatype Event =
    | SnapshotTaken(snapshot: Snapshot)
    | ParticipantAlive(participant: Guid)
    | ParticipantGone(participant: Guid)
    | EndpointAlive(guid: Guid, owner: Guid, topic: CString, typeName: CString, writer: bool)
    | EndpointGone(guid: Guid)

  /** The first index of g in s, or |s| when it is absent. */
  function IndexOf(s: seq<Guid>, g: Guid): (i: nat)
    ensures i <= |s|
    ensures i < |s| ==> s[i] == g
    ensures forall k :: 0 <= k < i ==> s[k] != g
  {
    if s == [] || s[0] == g then 0 else 1 + IndexOf(s[1..], g)
  }

  function EndpointGuids(s: seq<CachedEndpoint>): (r: seq<Guid>)
    ensures |r| == |s|
    ensures forall i :: 0 <= i < |s| ==> r[i] == s[i].item.guid
  {
    seq(|s|, i requires 0 <= i < |s| => s[i].item.guid)
  }

  function WithParticipant(s: seq<Guid>, p: Guid): seq<Guid> {
    if p in s then s else s + [p]
  }

  function Drop(s: seq<Guid>, p: Guid): seq<Guid> {
    var i := IndexOf(s, p);
    if i < |s| then RemoveAt(s, i) else s
  }

  function Upserted(s: seq<CachedEndpoint>, e: CachedEndpoint): seq<CachedEndpoint> {
    var i := IndexOf(EndpointGuids(s), e.item.guid);
    if i < |s| then s[i := e] else s + [e]
  }

  function DropEndpoint(s: seq<CachedEndpoint>, g: Guid): seq<CachedEndpoint> {
    var i := IndexOf(EndpointGuids(s), g);
    if i < |s| then RemoveAt(s, i) else s
  }

  predicate SnapshotFits(limits: Limits, s: Snapshot) {
    |s.nodes| <= limits.cacheMaxNodes &&
    forall i :: 0 <= i < |s.nodes| ==> s.nodes[i].Fits(limits)
  }

  predicate HasRoomFor(limits: Limits, c: Cache, p: Guid) {
    p in c.participants || |c.participants| < limits.cacheMaxParticipants
  }

  /** Whether the cache takes the event; a refused event changes nothing. */
  predicate Accepts(limits: Limits, c: Cache, e: Event) {
    match e
    case SnapshotTaken(s) =>
      SnapshotFits(limits, s) &&
      |Without(c.nodes, s.participant)| + |s.nodes| <= limits.cacheMaxNodes &&
      HasRoomFor(limits, c, s.participant)
    case ParticipantAlive(p) => HasRoomFor(limits, c, p)
    case ParticipantGone(_) => true
    case EndpointAlive(g, _, topic, typeName, _) =>
      StringFits(topic) && StringFits(typeName) &&
      (g in EndpointGuids(c.endpoints) || |c.endpoints| < limits.cacheMaxEndpoints)
    case EndpointGone(_) => true
  }

  function EndpointOf(e: Event): CachedEndpoint
    requires e.EndpointAlive? && e.topic.Text? && e.typeName.Text?
  {
    Owned(e.owner, EndpointInfo(e.guid, e.topic.chars, e.typeName.chars, e.writer))
  }

  function Step(limits: Limits, c: Cache, e: Event): Cache {
    if !Accepts(limits, c, e) then c
    else match e
      case SnapshotTaken(s) =>
        Cache(WithParticipant(c.participants, s.participant),
              Without(c.nodes, s.participant) + Tag(s.participant, s.nodes),
              c.endpoints)
      case ParticipantAlive(p) => c.(participants := WithParticipant(c.participants, p))
      case ParticipantGone(p) =>
        Cache(Drop(c.participants, p), Without(c.nodes, p), Without(c.endpoints, p))
      case EndpointAlive(_, _, _, _, _) => c.(endpoints := Upserted(c.endpoints, EndpointOf(e)))
      case EndpointGone(g) => c.(endpoints := DropEndpoint(c.endpoints, g))
  }

  ghost predicate Inv(limits: Limits, c: Cache) {
    |c.participants| <= limits.cacheMaxParticipants && Distinct(c.participants) &&
    |c.nodes| <= limits.cacheMaxNodes &&
    (forall n :: n in c.nodes ==> n.participant in c.participants && n.item.Fits(limits)) &&
    |c.endpoints| <= limits.cacheMaxEndpoints && Distinct(EndpointGuids(c.endpoints)) &&
    (forall e :: e in c.endpoints ==>
      |e.item.topic| <= GRAPH_STRING_BOUND && |e.item.typeName| <= GRAPH_STRING_BOUND)
  }

  // ---------- lemmas about the pieces ----------

  lemma {:induction false} DropMembers(s: seq<Guid>, p: Guid)
    requires Distinct(s)
    ensures Distinct(Drop(s, p)) && |Drop(s, p)| <= |s|
    ensures forall q :: q in Drop(s, p) <==> q in s && q != p
  {
    var i := IndexOf(s, p);
    if i < |s| {
      RemoveAtFromDistinct(s, i);
    }
  }

  lemma {:induction false} DistinctGuidsDistinctEndpoints(s: seq<CachedEndpoint>)
    requires Distinct(EndpointGuids(s))
    ensures Distinct(s)
    ensures forall d, e :: d in s && e in s && d.item.guid == e.item.guid ==> d == e
  {
    assert forall i, j :: 0 <= i < j < |s| ==> EndpointGuids(s)[i] != EndpointGuids(s)[j];
  }

  lemma {:induction false} DropEndpointMembers(s: seq<CachedEndpoint>, g: Guid)
    requires Distinct(EndpointGuids(s))
    ensures Distinct(EndpointGuids(DropEndpoint(s, g))) && |DropEndpoint(s, g)| <= |s|
    ensures forall e :: e in DropEndpoint(s, g) <==> e in s && e.item.guid != g
  {
    var i := IndexOf(EndpointGuids(s), g);
    if i < |s| {
      assert EndpointGuids(RemoveAt(s, i)) == RemoveAt(EndpointGuids(s), i);
      RemoveAtFromDistinct(EndpointGuids(s), i);
      assert forall k :: 0 <= k < |s| && k != i ==> EndpointGuids(s)[k] != g;
      DistinctGuidsDistinctEndpoints(s);
      RemoveAtFromDistinct(s, i);
    }
  }

  lemma {:induction false} UpsertedMembers(s: seq<CachedEndpoint>, e: CachedEndpoint)
    requires Distinct(EndpointGuids(s))
    ensures Distinct(EndpointGuids(Upserted(s, e)))
    ensures |Upserted(s, e)| == if e.item.guid in EndpointGuids(s) then |s| else |s| + 1
    ensures forall x :: x in Upserted(s, e) <==> x == e || (x in s && x.item.guid != e.item.guid)
  {
    var g, r := EndpointGuids(s), Upserted(s, e);
    var i := IndexOf(g, e.item.guid);
    if i < |s| {
      assert s == s[..i] + [s[i]] + s[i + 1..];
      assert r == s[..i] + [e] + s[i + 1..];
      assert EndpointGuids(r) == g;
      assert forall k :: 0 <= k < |s| && k != i ==> g[k] != e.item.guid;
    } else {
      assert EndpointGuids(r) == g + [e.item.guid];
    }
  }

  lemma {:induction false} WithoutKeepsDistinct(s: seq<CachedEndpoint>, p: Guid)
    requires Distinct(EndpointGuids(s))
    ensures Distinct(EndpointGuids(Without(s, p)))
  {
    if s != [] {
      var front, last := s[..|s| - 1], s[|s| - 1];
      assert EndpointGuids(front) == EndpointGuids(s)[..|front|];
      WithoutKeepsDistinct(front, p);
      WithoutMembers(front, p);
      if last.participant != p {
        var kept := Without(front, p);
        forall k | 0 <= k < |kept| ensures EndpointGuids(kept)[k] != last.item.guid {
          assert kept[k] in front;
          var j :| 0 <= j < |front| && front[j] == kept[k];
          assert EndpointGuids(s)[j] != EndpointGuids(s)[|front|];
        }
        assert EndpointGuids(kept + [last]) == EndpointGuids(kept) + [last.item.guid];
      }
    }
  }

  lemma {:induction false} IndexOfAppended(s: seq<Guid>, g: Guid)
    requires g !in s
    ensures IndexOf(s + [g], g) == |s| == IndexOf(s, g)
  {
    if s != [] {
      IndexOfAppended(s[1..], g);
      assert (s + [g])[1..] == s[1..] + [g];
    }
  }

  // ---------- the invariant ----------

  /** Every event, whether taken or refused, keeps the limits, the uniqueness of participants
      and endpoint GUIDs, and that the participant of every cached node is cached. */
  lemma {:induction false} StepKeepsInv(limits: Limits, c: Cache, e: Event)
    requires Inv(limits, c)
    ensures Inv(limits, Step(limits, c, e))
  {
    if Accepts(limits, c, e) {
      match e
      case SnapshotTaken(s) => SnapshotKeepsInv(limits, c, s);
      case ParticipantAlive(p) =>
      case ParticipantGone(p) => LossKeepsInv(limits, c, p);
      case EndpointAlive(_, _, _, _, _) => EndpointsKeepInv(limits, c, e);
      case EndpointGone(_) => EndpointsKeepInv(limits, c, e);
    }
  }

  lemma {:induction false} SnapshotKeepsInv(limits: Limits, c: Cache, s: Snapshot)
    requires Inv(limits, c) && Accepts(limits, c, SnapshotTaken(s))
    ensures Inv(limits, Step(limits, c, SnapshotTaken(s)))
  {
    WithoutMembers(c.nodes, s.participant);
  }

  lemma {:induction false} LossKeepsInv(limits: Limits, c: Cache, p: Guid)
    requires Inv(limits, c)
    ensures Inv(limits, Step(limits, c, ParticipantGone(p)))
  {
    hide Drop;
    DropMembers(c.participants, p);
    WithoutMembers(c.nodes, p);
    WithoutMembers(c.endpoints, p);
    WithoutKeepsDistinct(c.endpoints, p);
    SplitSizes(c.nodes, p);
    SplitSizes(c.endpoints, p);
  }

  lemma {:induction false} EndpointsKeepInv(limits: Limits, c: Cache, e: Event)
    requires Inv(limits, c) && Accepts(limits, c, e) && (e.EndpointAlive? || e.EndpointGone?)
    ensures Inv(limits, Step(limits, c, e))
  {
    hide Upserted, DropEndpoint;
    if e.EndpointAlive? {
      UpsertedMembers(c.endpoints, EndpointOf(e));
    } else {
      DropEndpointMembers(c.endpoints, e.guid);
    }
  }

  lemma {:induction false} RefusalChangesNothing(limits: Limits, c: Cache, e: Event)
    ensures !Accepts(limits, c, e) ==> Step(limits, c, e) == c
  {
  }

  // ---------- snapshots ----------

  /** What an accepted snapshot does, read through the participants: its own participant now has
      exactly the announced nodes in the announced order, and nobody else's nodes moved. */
  lemma {:induction false} SnapshotReplacesExactly(limits: Limits, c: Cache, s: Snapshot, q: Guid)
    requires Accepts(limits, c, SnapshotTaken(s))
    ensures var d := Step(limits, c, SnapshotTaken(s));
            Of(d.nodes, q) == (if q == s.participant then s.nodes else Of(c.nodes, q)) &&
            Without(d.nodes, s.participant) == Without(c.nodes, s.participant) &&
            |d.nodes| == |c.nodes| - |Of(c.nodes, s.participant)| + |s.nodes| &&
            s.participant in d.participants && d.endpoints == c.endpoints
  {
    hide Accepts, Of, Without, Tag;
    var p := s.participant;
    OfConcat(Without(c.nodes, p), Tag(p, s.nodes), q);
    WithoutConcat(Without(c.nodes, p), Tag(p, s.nodes), p);
    OfTag(s.nodes, p, q);
    OfTag(s.nodes, p, p);
    OfWithout(c.nodes, p, q);
    SplitSizes(c.nodes, p);
  }

  /** Taking the same snapshot twice in a row is accepted and changes nothing. */
  lemma {:induction false} SnapshotIsIdempotent(limits: Limits, c: Cache, s: Snapshot)
    requires Accepts(limits, c, SnapshotTaken(s))
    ensures var d := Step(limits, c, SnapshotTaken(s));
            Accepts(limits, d, SnapshotTaken(s)) && Step(limits, d, SnapshotTaken(s)) == d
  {
    SnapshotReplacesExactly(limits, c, s, s.participant);
  }

  /** The acceptance test in terms of what a caller can count: the snapshot fits the static bounds,
      the nodes of all other participants plus the new ones fit, and the participant is known or
      there is room for it. Equivalently, growing a participant's node list is what can be refused. */
  lemma {:induction false} SnapshotRefusedExactly(limits: Limits, c: Cache, s: Snapshot)
    requires Inv(limits, c) && SnapshotFits(limits, s)
    ensures !Accepts(limits, c, SnapshotTaken(s)) <==>
            |c.nodes| + |s.nodes| - |Of(c.nodes, s.participant)| > limits.cacheMaxNodes ||
            (s.participant !in c.participants && |c.participants| == limits.cacheMaxParticipants)
  {
    SplitSizes(c.nodes, s.participant);
  }
}
