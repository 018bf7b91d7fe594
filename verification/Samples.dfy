/** What the samples that the discovery readers deliver do to the graph cache, in terms of the cache contents, one
    sample at a time and over whole sequences of samples. */
module Samples {
  import opened GraphTypes
  import opened CacheSpec
  import opened QuerySpec
  import opened Effects

  /** One element taken from a discovery reader, with the parts of its sample info that are looked at. */
  datatype Sample =
    | NullSample
    | GraphSample(valid: bool, snapshot: Snapshot)
    | ParticipantSample(valid: bool, alive: bool, key: Guid)
    | EndpointSample(valid: bool, alive: bool, key: Guid, participantKey: Guid,
                     topic: CString, typeName: CString, writer: bool)

  /** A null sample, a sample of the own participant, or one that is neither valid nor disposed. */
  predicate IsIdle(own: Guid, s: Sample) {
    match s
    case NullSample => true
    case GraphSample(valid, snapshot) => !valid || snapshot.participant == own
    case ParticipantSample(valid, alive, key) => (!valid && alive) || key == own
    case EndpointSample(valid, alive, _, participantKey, _, _, _) => (!valid && alive) || participantKey == own
  }

  /** From the cache c before a sample to the cache d after it; an idle sample changes nothing. */
  ghost predicate SampleEffect(limits: Limits, own: Guid, c: Cache, s: Sample, d: Cache) {
    (s.GraphSample? && s.valid && s.snapshot.participant != own ==> SnapshotSeen(limits, c, s.snapshot, d)) &&
    (s.ParticipantSample? && s.valid && s.key != own ==> ParticipantSeen(limits, c, s.key, d)) &&
    (s.ParticipantSample? && !s.valid && !s.alive && s.key != own ==> ParticipantLost(c, s.key, d)) &&
    (s.EndpointSample? && s.valid && s.participantKey != own ==>
      EndpointSeen(limits, c, s.key, s.participantKey, s.topic, s.typeName, s.writer, d)) &&
    (s.EndpointSample? && !s.valid && !s.alive && s.participantKey != own ==> EndpointLost(c, s.key, d)) &&
    (IsIdle(own, s) ==> d == c)
  }

  /** The caches before, between and after a sequence of samples. */
  ghost predicate Trace(limits: Limits, own: Guid, samples: seq<Sample>, caches: seq<Cache>) {
    |caches| == |samples| + 1 &&
    forall i :: 0 <= i < |samples| ==> SampleEffect(limits, own, caches[i], samples[i], caches[i + 1])
  }

  // ---------- over sequences of samples ----------

  /** Sample i brings a list of nodes for p that is taken. */
  ghost predicate BringsNodes(limits: Limits, own: Guid, samples: seq<Sample>, caches: seq<Cache>, i: nat, p: Guid)
    requires i < |samples| && |caches| == |samples| + 1
  {
    samples[i].GraphSample? && samples[i].valid && samples[i].snapshot.participant == p && p != own &&
    SnapshotHasRoom(limits, caches[i], samples[i].snapshot)
  }

  /** Sample i reports the loss of p. */
  predicate ReportsLoss(own: Guid, s: Sample, p: Guid) {
    s == ParticipantSample(false, false, p) && p != own
  }

  lemma {:induction false} NodesStay(limits: Limits, own: Guid, samples: seq<Sample>, caches: seq<Cache>, k: nat, n: nat, p: Guid)
    requires Trace(limits, own, samples, caches) && k <= n <= |samples|
    requires forall i :: k <= i < n ==> !BringsNodes(limits, own, samples, caches, i, p)
    requires forall i :: k <= i < n ==> !ReportsLoss(own, samples[i], p) || Of(caches[k].nodes, p) == []
    ensures Of(caches[n].nodes, p) == Of(caches[k].nodes, p)
    decreases n
  {
    hide SnapshotHasRoom, ParticipantHasRoom, EndpointHasRoom;
    if k < n {
      NodesStay(limits, own, samples, caches, k, n - 1, p);
      assert SampleEffect(limits, own, caches[n - 1], samples[n - 1], caches[n]);
      assert !BringsNodes(limits, own, samples, caches, n - 1, p);
    }
  }

  /** A remote process dies: once a participant is reported as neither valid nor alive, no cached node and no visible
      endpoint belongs to it, until a graph sample of it is taken again; whatever else is received. */
  lemma {:induction false} LostParticipantStaysHidden(limits: Limits, own: Guid, samples: seq<Sample>, caches: seq<Cache>, k: nat, n: nat, p: Guid)
    requires Trace(limits, own, samples, caches) && k < n <= |samples|
    requires samples[k] == ParticipantSample(false, false, p) && p != own
    requires forall i :: k < i < n ==> !BringsNodes(limits, own, samples, caches, i, p)
    ensures forall m :: m in caches[n].nodes ==> m.participant != p
    ensures forall e :: e in Visible(caches[n]) ==> e.participant != p
  {
    hide SnapshotHasRoom, ParticipantHasRoom, EndpointHasRoom, BringsNodes;
    assert SampleEffect(limits, own, caches[k], samples[k], caches[k + 1]);
    NodesStay(limits, own, samples, caches, k + 1, n, p);
    OfMembers(caches[n].nodes, p);
    forall m | m in caches[n].nodes ensures m.participant != p {
      assert m == Owned(m.participant, m.item);
    }
  }

  /** A list of nodes that was taken is what the cache holds for its participant, until the next one or the loss. */
  lemma {:induction false} LastNodesRule(limits: Limits, own: Guid, samples: seq<Sample>, caches: seq<Cache>, k: nat, n: nat, p: Guid)
    requires Trace(limits, own, samples, caches) && k < n <= |samples| && BringsNodes(limits, own, samples, caches, k, p)
    requires forall i :: k < i < n ==> !BringsNodes(limits, own, samples, caches, i, p) && !ReportsLoss(own, samples[i], p)
    ensures Of(caches[n].nodes, p) == samples[k].snapshot.nodes
  {
    assert SampleEffect(limits, own, caches[k], samples[k], caches[k + 1]);
    NodesStay(limits, own, samples, caches, k + 1, n, p);
  }

  /** Sample i announces the endpoint with GUID g, and the announcement is taken. */
  ghost predicate BringsEndpoint(limits: Limits, own: Guid, samples: seq<Sample>, caches: seq<Cache>, i: nat, g: Guid)
    requires i < |samples| && |caches| == |samples| + 1
  {
    samples[i].EndpointSample? && samples[i].valid && samples[i].participantKey != own && samples[i].key == g &&
    EndpointHasRoom(limits, caches[i], g, samples[i].topic, samples[i].typeName)
  }

  predicate ReportsDisposal(own: Guid, s: Sample, g: Guid) {
    s.EndpointSample? && !s.valid && !s.alive && s.participantKey != own && s.key == g
  }

  function EntryOf(s: Sample): CachedEndpoint
    requires s.EndpointSample? && s.topic.Text? && s.typeName.Text?
  {
    Owned(s.participantKey, EndpointInfo(s.key, s.topic.chars, s.typeName.chars, s.writer))
  }

  lemma {:induction false} EntryStays(limits: Limits, own: Guid, samples: seq<Sample>, caches: seq<Cache>, k: nat, n: nat, e: CachedEndpoint)
    requires Trace(limits, own, samples, caches) && k <= n <= |samples|
    requires forall i :: k <= i < n ==> !BringsEndpoint(limits, own, samples, caches, i, e.item.guid)
    requires forall i :: k <= i < n ==>
      e !in caches[k].endpoints || (!ReportsDisposal(own, samples[i], e.item.guid) && !ReportsLoss(own, samples[i], e.participant))
    ensures e in caches[n].endpoints <==> e in caches[k].endpoints
    decreases n
  {
    hide SnapshotHasRoom, ParticipantHasRoom, EndpointHasRoom;
    if k < n {
      EntryStays(limits, own, samples, caches, k, n - 1, e);
      assert SampleEffect(limits, own, caches[n - 1], samples[n - 1], caches[n]);
      assert !BringsEndpoint(limits, own, samples, caches, n - 1, e.item.guid);
    }
  }

  /** An announcement that was taken is the one entry under its GUID, until the next one, its disposal or the loss
      of its participant. */
  lemma {:induction false} LastAnnouncementRules(limits: Limits, own: Guid, samples: seq<Sample>, caches: seq<Cache>, k: nat, n: nat, g: Guid, e: CachedEndpoint)
    requires Trace(limits, own, samples, caches) && k < n <= |samples| && BringsEndpoint(limits, own, samples, caches, k, g)
    requires forall i :: k < i < n ==>
      !BringsEndpoint(limits, own, samples, caches, i, g) && !ReportsDisposal(own, samples[i], g) &&
      !ReportsLoss(own, samples[i], samples[k].participantKey)
    requires e.item.guid == g
    ensures e in caches[n].endpoints <==> e == EntryOf(samples[k])
  {
    assert SampleEffect(limits, own, caches[k], samples[k], caches[k + 1]);
    EntryStays(limits, own, samples, caches, k + 1, n, e);
  }

  /** A disposed endpoint has no entry until it is announced again. */
  lemma {:induction false} DisposedEndpointStaysGone(limits: Limits, own: Guid, samples: seq<Sample>, caches: seq<Cache>, k: nat, n: nat, g: Guid)
    requires Trace(limits, own, samples, caches) && k < n <= |samples| && ReportsDisposal(own, samples[k], g)
    requires forall i :: k < i < n ==> !BringsEndpoint(limits, own, samples, caches, i, g)
    ensures forall e :: e in caches[n].endpoints ==> e.item.guid != g
  {
    hide EndpointHasRoom;
    assert SampleEffect(limits, own, caches[k], samples[k], caches[k + 1]);
    forall e: CachedEndpoint | e.item.guid == g ensures e !in caches[n].endpoints {
      assert e !in caches[k + 1].endpoints;
      EntryStays(limits, own, samples, caches, k + 1, n, e);
    }
  }
}
