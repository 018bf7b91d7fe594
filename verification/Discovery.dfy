/** The discovery callbacks: they take pending samples in batches and hand them to the cache. */
module Discovery {
  import opened GraphTypes
  import opened CacheSpec
  import opened CacheRuns
  import opened GraphCacheArrays
  import opened Effects
  import opened Samples

  /** What a sample means to a context whose own participant is `own`: an event, or nothing. */
  function Meaning(own: Guid, s: Sample): Option<Event> {
    match s
    case NullSample => None
    case GraphSample(valid, snapshot) =>
      if valid && snapshot.participant != own then Some(SnapshotTaken(snapshot)) else None
    case ParticipantSample(valid, alive, key) =>
      if key == own then None
      else if valid then Some(ParticipantAlive(key))
      else if !alive then Some(ParticipantGone(key))
      else None
    case EndpointSample(valid, alive, key, participantKey, topic, typeName, writer) =>
      if participantKey == own then None
      else if valid then Some(EndpointAlive(key, participantKey, topic, typeName, writer))
      else if !alive then Some(EndpointGone(key))
      else None
  }

  function Handled(limits: Limits, own: Guid, c: Cache, s: Sample): Cache {
    if Meaning(own, s).Some? then Step(limits, c, Meaning(own, s).value) else c
  }

  /** The samples handled one by one, in order. */
  function HandledAll(limits: Limits, own: Guid, c: Cache, samples: seq<Sample>): Cache {
    if samples == [] then c
    else Handled(limits, own, HandledAll(limits, own, c, samples[..|samples| - 1]), samples[|samples| - 1])
  }

  /** Handling a sample has the effect that is described for it. */
  lemma {:induction false} HandledHasEffect(limits: Limits, own: Guid, c: Cache, s: Sample)
    requires Inv(limits, c)
    ensures SampleEffect(limits, own, c, s, Handled(limits, own, c, s)) && Inv(limits, Handled(limits, own, c, s))
  {
    hide Inv, Step, SnapshotSeen, ParticipantSeen, ParticipantLost, EndpointSeen, EndpointLost;
    if Meaning(own, s).Some? {
      EventHasEffect(limits, c, Meaning(own, s).value);
      StepKeepsInv(limits, c, Meaning(own, s).value);
    }
  }

  /** The caches before, between and after the samples. */
  function Caches(limits: Limits, own: Guid, c: Cache, samples: seq<Sample>): (r: seq<Cache>)
    ensures |r| == |samples| + 1
    ensures forall i :: 0 <= i <= |samples| ==> r[i] == HandledAll(limits, own, c, samples[..i])
  {
    seq(|samples| + 1, i requires 0 <= i <= |samples| => HandledAll(limits, own, c, samples[..i]))
  }

  lemma {:induction false} HandledAllIsTrace(limits: Limits, own: Guid, c: Cache, samples: seq<Sample>)
    requires Inv(limits, c)
    ensures Trace(limits, own, samples, Caches(limits, own, c, samples))
    ensures Caches(limits, own, c, samples)[0] == c
    ensures Caches(limits, own, c, samples)[|samples|] == HandledAll(limits, own, c, samples)
  {
    hide Handled, SampleEffect, Inv;
    assert samples[..|samples|] == samples;
    forall i | 0 <= i < |samples|
      ensures SampleEffect(limits, own, HandledAll(limits, own, c, samples[..i]), samples[i], HandledAll(limits, own, c, samples[..i + 1]))
    {
      assert samples[..i + 1][..i] == samples[..i];
      HandledAllKeepsInv(limits, own, c, samples[..i]);
      HandledHasEffect(limits, own, HandledAll(limits, own, c, samples[..i]), samples[i]);
    }
  }

  lemma {:induction false} HandledAllKeepsInv(limits: Limits, own: Guid, c: Cache, samples: seq<Sample>)
    requires Inv(limits, c)
    ensures Inv(limits, HandledAll(limits, own, c, samples))
  {
    hide Inv, Handled;
    if samples != [] {
      HandledAllKeepsInv(limits, own, c, samples[..|samples| - 1]);
      HandledHasEffect(limits, own, HandledAll(limits, own, c, samples[..|samples| - 1]), samples[|samples| - 1]);
    }
  }

  lemma {:induction false} NothingHandled(limits: Limits, own: Guid, c: Cache)
    ensures HandledAll(limits, own, c, []) == c
  {
  }

  lemma {:induction false} HandledConcat(limits: Limits, own: Guid, c: Cache, s: seq<Sample>, t: seq<Sample>)
    ensures HandledAll(limits, own, c, s + t) == HandledAll(limits, own, HandledAll(limits, own, c, s), t)
  {
    if t == [] {
      assert s + t == s;
    } else {
      assert (s + t)[..|s + t| - 1] == s + t[..|t| - 1];
      HandledConcat(limits, own, c, s, t[..|t| - 1]);
    }
  }

  /** A DDS reader with its queue of pending samples. Which batches a take returns, and whether it
      fails, is up to DDS; it never returns nothing while samples are pending. */
  class Reader {
    var pending: seq<Sample>
    ghost var failures: nat      // takes that failed

    constructor (pending: seq<Sample>)
      ensures this.pending == pending && failures == 0
    {
      this.pending, failures := pending, 0;
    }

    method Take(batch: nat) returns (count: int, samples: seq<Sample>)
      requires 0 < batch
      modifies this
      ensures count <= batch
      ensures count < 0 ==> samples == [] && pending == old(pending)
      ensures count >= 0 ==> count == |samples| && old(pending) == samples + pending
      ensures count == 0 ==> pending == []
      ensures failures == old(failures) + if count < 0 then 1 else 0
    {
      count, samples := *, [];
      if count < 0 {
        failures := failures + 1;
      } else {
        if count == 0 || count > batch {
          count := batch;
        }
        if count > |pending| {
          count := |pending|;
        }
        samples, pending := pending[..count], pending[count..];
      }
    }
  }

  method HandleSample(cache: GraphCache, own: Guid, s: Sample)
    requires cache.Valid()
    modifies cache, cache.participants, cache.nodes, cache.endpoints
    ensures cache.Valid() && cache.State() == Handled(cache.limits, own, old(cache.State()), s)
    ensures SampleEffect(cache.limits, own, old(cache.State()), s, cache.State())
    ensures old(cache.guardTriggered) || cache.State() != old(cache.State()) ==> cache.guardTriggered
  {
    hide Inv, SampleEffect, SnapshotSeen, ParticipantSeen, ParticipantLost, EndpointSeen, EndpointLost,
      SnapshotHasRoom, ParticipantHasRoom, EndpointHasRoom, Accepts, GraphCache.TailsCleared;
    HandledHasEffect(cache.limits, own, cache.State(), s);
    match s {
      case NullSample =>
      case GraphSample(valid, snapshot) =>
        if valid && snapshot.participant != own {
          var _ := cache.ApplySnapshot(snapshot);
        }
      case ParticipantSample(valid, alive, key) =>
        if key != own {
          if valid {
            var _ := cache.AddParticipant(key);
          } else if !alive {
            cache.RemoveParticipant(key);
          }
        }
      case EndpointSample(valid, alive, key, participantKey, topic, typeName, writer) =>
        if participantKey != own {
          if valid {
            var _ := cache.UpsertEndpoint(key, participantKey, topic, typeName, writer);
          } else if !alive {
            cache.RemoveEndpointGuid(key);
          }
        }
    }
  }

  method HandleBatch(cache: GraphCache, own: Guid, samples: seq<Sample>)
    requires cache.Valid()
    modifies cache, cache.participants, cache.nodes, cache.endpoints
    ensures cache.Valid() && cache.State() == HandledAll(cache.limits, own, old(cache.State()), samples)
    ensures old(cache.guardTriggered) || cache.State() != old(cache.State()) ==> cache.guardTriggered
  {
    hide Handled, SampleEffect, Inv, GraphCache.TailsCleared;
    for i := 0 to |samples|
      invariant cache.Valid()
      invariant cache.State() == HandledAll(cache.limits, own, old(cache.State()), samples[..i])
      invariant old(cache.guardTriggered) || cache.State() != old(cache.State()) ==> cache.guardTriggered
    {
      assert samples[..i + 1][..i] == samples[..i];
      HandleSample(cache, own, samples[i]);
    }
    assert samples[..|samples|] == samples;
  }

  /** The loop of every discovery callback. It ends because the queue gets shorter, and it leaves the
      cache as if the consumed samples had been handled one by one, whatever the batches were; it stops
      only when everything pending is consumed or a take failed. No change goes unsignalled. */
  method DataAvailable(reader: Reader, cache: GraphCache, own: Guid, batch: nat) returns (failed: bool, ghost consumed: nat, ghost caches: seq<Cache>)
    requires cache.Valid() && 0 < batch
    modifies reader, cache, cache.participants, cache.nodes, cache.endpoints
    ensures cache.Valid()
    ensures consumed <= |old(reader.pending)| && reader.pending == old(reader.pending)[consumed..]
    ensures cache.State() == HandledAll(cache.limits, own, old(cache.State()), old(reader.pending)[..consumed])
    ensures Trace(cache.limits, own, old(reader.pending)[..consumed], caches)
    ensures caches[0] == old(cache.State()) && caches[consumed] == cache.State()
    ensures reader.failures == old(reader.failures) + if failed then 1 else 0
    ensures !failed ==> consumed == |old(reader.pending)|
    ensures old(cache.guardTriggered) || cache.State() != old(cache.State()) ==> cache.guardTriggered
  {
    hide HandledAll, Inv, SampleEffect, GraphCache.TailsCleared;
    consumed := 0;
    NothingHandled(cache.limits, own, cache.State());
    ghost var all, start := reader.pending, cache.State();
    var count, samples := reader.Take(batch);
    while count > 0
      invariant cache.Valid()
      invariant count == 0 ==> reader.pending == []
      invariant count >= 0 ==> count == |samples|
      invariant count < 0 ==> samples == []
      invariant consumed <= |all| && samples + reader.pending == all[consumed..]
      invariant cache.State() == HandledAll(cache.limits, own, start, all[..consumed])
      invariant reader.failures == old(reader.failures) + if count < 0 then 1 else 0
      invariant old(cache.guardTriggered) || cache.State() != start ==> cache.guardTriggered
      decreases |reader.pending| + |samples|
    {
      HandleBatch(cache, own, samples);
      HandledConcat(cache.limits, own, start, all[..consumed], samples);
      assert all[..consumed] + samples == all[..consumed + count];
      assert reader.pending == all[consumed..][count..] == all[consumed + count..];
      consumed := consumed + count;
      count, samples := reader.Take(batch);
    }
    failed := count < 0;
    HandledAllIsTrace(cache.limits, own, start, all[..consumed]);
    caches := Caches(cache.limits, own, start, all[..consumed]);
  }

  // ---------- own entries ----------

  /** Samples carry the participant that their endpoint GUID belongs to. */
  ghost predicate SamplesAtHome(samples: seq<Sample>, home: Guid -> Guid) {
    forall i :: 0 <= i < |samples| && samples[i].EndpointSample? ==> samples[i].participantKey == home(samples[i].key)
  }

  /** Whatever is received, nothing changes in what the cache holds about the own participant: its own
      samples are skipped, and nobody else's samples touch it. */
  lemma {:induction false} OwnEntriesUntouched(limits: Limits, own: Guid, c: Cache, samples: seq<Sample>, home: Guid -> Guid)
    requires Inv(limits, c) && SamplesAtHome(samples, home)
    requires forall d :: d in c.endpoints ==> d.participant == home(d.item.guid)
    ensures var r := HandledAll(limits, own, c, samples);
            ViewOf(r, own) == ViewOf(c, own) && Inv(limits, r) &&
            forall d :: d in r.endpoints ==> d.participant == home(d.item.guid)
  {
    hide Inv, Accepts, ViewOf;
    if samples != [] {
      var front, s := samples[..|samples| - 1], samples[|samples| - 1];
      OwnEntriesUntouched(limits, own, c, front, home);
      var b := HandledAll(limits, own, c, front);
      var e := Meaning(own, s);
      if e.Some? {
        StepKeepsInv(limits, b, e.value);
        if Accepts(limits, b, e.value) {
          assert EventOwner(e.value, home) != own;
          ViewAfterStep(limits, b, e.value, own, home);
        }
      }
    }
  }

  /** An endpoint sample of another participant that takes the GUID g away from whoever has it. */
  predicate Takes(own: Guid, s: Sample, g: Guid) {
    s.EndpointSample? && s.participantKey != own && s.key == g &&
    if s.valid then StringFits(s.topic) && StringFits(s.typeName) else !s.alive
  }

  lemma {:induction false} OwnEntryAfterSample(limits: Limits, own: Guid, c: Cache, s: Sample, x: EndpointInfo)
    requires Inv(limits, c)
    ensures Owned(own, x) in Handled(limits, own, c, s).endpoints <==> Owned(own, x) in c.endpoints && !Takes(own, s, x.guid)
  {
    hide Inv, Step, StringFits;
    var d: CachedEndpoint := Owned(own, x);
    if Meaning(own, s).Some? {
      EndpointsAfterStep(limits, c, Meaning(own, s).value, d);
      if d in c.endpoints {
        var k :| 0 <= k < |c.endpoints| && c.endpoints[k] == d;
        assert EndpointGuids(c.endpoints)[k] == x.guid;
      }
    }
  }

  /** Without any assumption on where samples come from: own nodes stay, nothing becomes an own entry, and an own
      endpoint entry stays exactly as long as no other participant's sample carries its GUID. */
  lemma {:induction false} OwnEntriesAfterSamples(limits: Limits, own: Guid, c: Cache, samples: seq<Sample>)
    requires Inv(limits, c)
    ensures var r := HandledAll(limits, own, c, samples);
      Inv(limits, r) && (own in r.participants <==> own in c.participants) && Of(r.nodes, own) == Of(c.nodes, own) &&
      forall x :: Owned(own, x) in r.endpoints <==>
        Owned(own, x) in c.endpoints && forall i :: 0 <= i < |samples| ==> !Takes(own, samples[i], x.guid)
  {
    hide Inv, Step, Accepts, Takes, StringFits, Of;
    if samples != [] {
      var front, s := samples[..|samples| - 1], samples[|samples| - 1];
      OwnEntriesAfterSamples(limits, own, c, front);
      var b := HandledAll(limits, own, c, front);
      if Meaning(own, s).Some? {
        StepKeepsInv(limits, b, Meaning(own, s).value);
        NodesAfterStep(limits, b, Meaning(own, s).value, own);
        ParticipantAfterStep(limits, b, Meaning(own, s).value, own);
      }
      assert samples == front + [s];
      forall x ensures Owned(own, x) in Handled(limits, own, b, s).endpoints <==> Owned(own, x) in b.endpoints && !Takes(own, s, x.guid) {
        OwnEntryAfterSample(limits, own, b, s, x);
      }
    }
  }

  /** So what the cache holds about the own participant is left as it was iff no sample of another participant
      carries the GUID of an own cached endpoint. */
  lemma {:induction false} OwnEntriesLostExactly(limits: Limits, own: Guid, c: Cache, samples: seq<Sample>)
    requires Inv(limits, c)
    ensures ViewOf(HandledAll(limits, own, c, samples), own) == ViewOf(c, own) <==>
            forall i, d :: 0 <= i < |samples| && d in c.endpoints && d.participant == own ==> !Takes(own, samples[i], d.item.guid)
  {
    hide Inv, HandledAll, Takes, Of;
    OwnEntriesAfterSamples(limits, own, c, samples);
    var r := HandledAll(limits, own, c, samples);
    forall x ensures x in ViewOf(r, own).endpoints <==> Owned(own, x) in r.endpoints {
    }
    forall x ensures x in ViewOf(c, own).endpoints <==> Owned(own, x) in c.endpoints {
    }
    forall d: CachedEndpoint | d in c.endpoints && d.participant == own ensures d == Owned(own, d.item) && d.item in ViewOf(c, own).endpoints {
    }
  }
}
