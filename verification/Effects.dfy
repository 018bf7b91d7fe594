/** What each discovery event does to the graph cache, read off its contents: which participants, nodes and
    endpoints there are before and after, and when there is room. The numbers 256 are the bounds of the protocol. */
module Effects {
  import opened GraphTypes
  import opened CacheSpec
  import opened CacheRuns

  // ---------- when there is room ----------

  predicate IsCarried(value: CString) {
    value.Text? && |value.chars| <= 256
  }

  predicate IsCarriedNode(limits: Limits, n: NodeInfo) {
    |n.name| <= 256 && |n.namespace_| <= 256 &&
    |n.readers| <= limits.maxEndpointsPerNode && |n.writers| <= limits.maxEndpointsPerNode
  }

  /** The participant is known, or one more fits. */
  predicate ParticipantHasRoom(limits: Limits, c: Cache, p: Guid) {
    p in c.participants || |c.participants| < limits.cacheMaxParticipants
  }

  /** Every node is within the bounds, the nodes of all participants then fit, and so does the participant. */
  predicate SnapshotHasRoom(limits: Limits, c: Cache, s: Snapshot) {
    (forall i :: 0 <= i < |s.nodes| ==> IsCarriedNode(limits, s.nodes[i])) &&
    |c.nodes| - |Of(c.nodes, s.participant)| + |s.nodes| <= limits.cacheMaxNodes &&
    ParticipantHasRoom(limits, c, s.participant)
  }

  /** Both strings are within the bounds, and the GUID is cached or one more endpoint fits. */
  predicate EndpointHasRoom(limits: Limits, c: Cache, g: Guid, topic: CString, typeName: CString) {
    IsCarried(topic) && IsCarried(typeName) &&
    ((exists e :: e in c.endpoints && e.item.guid == g) || |c.endpoints| < limits.cacheMaxEndpoints)
  }

  // ---------- from the contents before to the contents after ----------

  /** The participant has exactly the announced nodes, in order; nothing else about nodes or endpoints changes. */
  ghost predicate SnapshotSeen(limits: Limits, c: Cache, s: Snapshot, d: Cache) {
    if SnapshotHasRoom(limits, c, s) then
      (forall q :: Of(d.nodes, q) == if q == s.participant then s.nodes else Of(c.nodes, q)) &&
      (forall q :: q in d.participants <==> q in c.participants || q == s.participant) && d.endpoints == c.endpoints
    else d == c
  }

  ghost predicate ParticipantSeen(limits: Limits, c: Cache, p: Guid, d: Cache) {
    if ParticipantHasRoom(limits, c, p) then
      (forall q :: q in d.participants <==> q in c.participants || q == p) && d.nodes == c.nodes && d.endpoints == c.endpoints
    else d == c
  }

  /** The participant, its nodes and its endpoints are gone, and nothing else is. */
  ghost predicate ParticipantLost(c: Cache, p: Guid, d: Cache) {
    (forall q :: q in d.participants <==> q in c.participants && q != p) &&
    (forall q :: Of(d.nodes, q) == if q == p then [] else Of(c.nodes, q)) &&
    (forall e :: e in d.endpoints <==> e in c.endpoints && e.participant != p)
  }

  /** The GUID has exactly the announced entry; every other entry stays. */
  ghost predicate EndpointSeen(limits: Limits, c: Cache, g: Guid, owner: Guid, topic: CString, typeName: CString, writer: bool, d: Cache) {
    if EndpointHasRoom(limits, c, g, topic, typeName) then
      d.participants == c.participants && d.nodes == c.nodes &&
      forall e :: e in d.endpoints <==>
        e == Owned(owner, EndpointInfo(g, topic.chars, typeName.chars, writer)) || (e in c.endpoints && e.item.guid != g)
    else d == c
  }

  /** The GUID has no entry; every other entry stays. */
  ghost predicate EndpointLost(c: Cache, g: Guid, d: Cache) {
    d.participants == c.participants && d.nodes == c.nodes &&
    forall e :: e in d.endpoints <==> e in c.endpoints && e.item.guid != g
  }

  ghost predicate EventEffect(limits: Limits, c: Cache, e: Event, d: Cache) {
    match e
    case SnapshotTaken(s) => SnapshotSeen(limits, c, s, d)
    case ParticipantAlive(p) => ParticipantSeen(limits, c, p, d)
    case ParticipantGone(p) => ParticipantLost(c, p, d)
    case EndpointAlive(g, owner, topic, typeName, writer) => EndpointSeen(limits, c, g, owner, topic, typeName, writer, d)
    case EndpointGone(g) => EndpointLost(c, g, d)
  }

  predicate EventHasRoom(limits: Limits, c: Cache, e: Event) {
    match e
    case SnapshotTaken(s) => SnapshotHasRoom(limits, c, s)
    case ParticipantAlive(p) => ParticipantHasRoom(limits, c, p)
    case ParticipantGone(_) => true
    case EndpointAlive(g, _, topic, typeName, _) => EndpointHasRoom(limits, c, g, topic, typeName)
    case EndpointGone(_) => true
  }

  /** Events are taken exactly when there is room. */
  lemma {:induction false} TakenIffRoom(limits: Limits, c: Cache, e: Event)
    requires Inv(limits, c)
    ensures Accepts(limits, c, e) <==> EventHasRoom(limits, c, e)
  {
    match e
    case SnapshotTaken(s) =>
      SplitSizes(c.nodes, s.participant);
      assert forall i :: 0 <= i < |s.nodes| ==> (s.nodes[i].Fits(limits) <==> IsCarriedNode(limits, s.nodes[i]));
    case ParticipantAlive(_) =>
    case ParticipantGone(_) =>
    case EndpointAlive(g, _, _, _, _) => GuidIsCached(c.endpoints, g);
    case EndpointGone(_) =>
  }

  lemma {:induction false} GuidIsCached(s: seq<CachedEndpoint>, g: Guid)
    ensures g in EndpointGuids(s) <==> exists e :: e in s && e.item.guid == g
  {
    if g in EndpointGuids(s) {
      var i :| 0 <= i < |s| && EndpointGuids(s)[i] == g;
      assert s[i] in s;
    }
    if e :| e in s && e.item.guid == g {
      var i :| 0 <= i < |s| && s[i] == e;
      assert EndpointGuids(s)[i] == g;
    }
  }

  /** And they have the effect that is described. */
  lemma {:induction false} EventHasEffect(limits: Limits, c: Cache, e: Event)
    requires Inv(limits, c)
    ensures EventEffect(limits, c, e, Step(limits, c, e))
    ensures Accepts(limits, c, e) <==> EventHasRoom(limits, c, e)
  {
    hide Inv, Step, SnapshotHasRoom, ParticipantHasRoom;
    var d := Step(limits, c, e);
    TakenIffRoom(limits, c, e);
    RefusalChangesNothing(limits, c, e);
    forall q ensures q in d.participants <==>
      ((e == ParticipantAlive(q) || SnapshotOf(e, q)) && Accepts(limits, c, e)) || (q in c.participants && e != ParticipantGone(q))
    {
      ParticipantAfterStep(limits, c, e, q);
    }
    forall q ensures Of(d.nodes, q) ==
      if SnapshotOf(e, q) && Accepts(limits, c, e) then e.snapshot.nodes else if e == ParticipantGone(q) then [] else Of(c.nodes, q)
    {
      NodesAfterStep(limits, c, e, q);
    }
    forall x ensures x in d.endpoints <==>
      if UpsertOf(e, x.item.guid) && Accepts(limits, c, e) then x == EndpointOf(e)
      else x in c.endpoints && e != EndpointGone(x.item.guid) && e != ParticipantGone(x.participant)
    {
      EndpointsAfterStep(limits, c, e, x);
    }
    UntouchedParts(limits, c, e);
  }

  lemma {:induction false} UntouchedParts(limits: Limits, c: Cache, e: Event)
    ensures var d := Step(limits, c, e);
      (e.SnapshotTaken? || e.ParticipantAlive? ==> d.endpoints == c.endpoints) &&
      (e.ParticipantAlive? || e.EndpointAlive? || e.EndpointGone? ==> d.nodes == c.nodes) &&
      (e.EndpointAlive? || e.EndpointGone? ==> d.participants == c.participants)
  {
  }
}
