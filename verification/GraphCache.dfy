/** The graph cache as the program keeps it: three fixed arrays with counts, searched, compacted,
    shifted and appended to in place. Every method is tied to the event it implements. */
module GraphCacheArrays {
  import opened GraphTypes
  import opened CacheSpec
  import opened Effects

  class GraphCache {
    const limits: Limits
    const participants: array<Guid>
    const nodes: array<CachedNode>
    const endpoints: array<CachedEndpoint>
    var participantCount: nat
    var nodeCount: nat
    var endpointCount: nat
    /** The graph guard condition; set by every change that is taken. */
    var guardTriggered: bool

    ghost predicate Shape()
      reads this
    {
      participants.Length == limits.cacheMaxParticipants &&
      nodes.Length == limits.cacheMaxNodes &&
      endpoints.Length == limits.cacheMaxEndpoints &&
      participants as object != nodes && participants as object != endpoints && nodes as object != endpoints &&
      participantCount <= participants.Length && nodeCount <= nodes.Length && endpointCount <= endpoints.Length
    }

    /** Memory past the counts is cleared, except in the node array, which a snapshot does not clear. */
    ghost predicate TailsCleared()
      reads this, participants, endpoints
    {
      (forall i :: participantCount <= i < participants.Length ==> participants[i] == ZERO_GUID) &&
      (forall i :: endpointCount <= i < endpoints.Length ==> endpoints[i] == ZERO_ENDPOINT)
    }

    ghost predicate Valid()
      reads this, participants, nodes, endpoints
    {
      Shape() && TailsCleared() && Inv(limits, State())
    }

    ghost function State(): Cache
      reads this, participants, nodes, endpoints
      requires participantCount <= participants.Length && nodeCount <= nodes.Length && endpointCount <= endpoints.Length
    {
      Cache(participants[..participantCount], nodes[..nodeCount], endpoints[..endpointCount])
    }

    constructor (limits: Limits)
      ensures Valid() && State() == EMPTY_CACHE && this.limits == limits && !guardTriggered
      ensures fresh(participants) && fresh(nodes) && fresh(endpoints)
    {
      this.limits := limits;
      participants := new Guid[limits.cacheMaxParticipants](_ => ZERO_GUID);
      nodes := new CachedNode[limits.cacheMaxNodes](_ => ZERO_NODE);
      endpoints := new CachedEndpoint[limits.cacheMaxEndpoints](_ => ZERO_ENDPOINT);
      participantCount, nodeCount, endpointCount := 0, 0, 0;
      guardTriggered := false;
    }

    method FindParticipant(p: Guid) returns (index: nat)
      requires Valid()
      ensures index == IndexOf(State().participants, p)
    {
      index := 0;
      while index < participantCount && participants[index] != p
        invariant index <= participantCount
        invariant forall k :: 0 <= k < index ==> participants[k] != p
      {
        index := index + 1;
      }
    }

    method FindEndpoint(g: Guid) returns (index: nat)
      requires Valid()
      ensures index == IndexOf(EndpointGuids(State().endpoints), g)
    {
      index := 0;
      while index < endpointCount && endpoints[index].item.guid != g
        invariant index <= endpointCount
        invariant forall k :: 0 <= k < index ==> endpoints[k].item.guid != g
      {
        index := index + 1;
      }
    }

    /** The caller holds the cache lock; nothing is signalled here. */
    method AddParticipantLocked(p: Guid) returns (ret: Ret)
      requires Valid()
      modifies this`participantCount, participants
      ensures Valid()
      ensures ret == if old(Accepts(limits, State(), ParticipantAlive(p))) then Ok else Error
      ensures State() == old(Step(limits, State(), ParticipantAlive(p)))
    {
      ghost var before := State();
      StepKeepsInv(limits, before, ParticipantAlive(p));
      var index := FindParticipant(p);
      if index < participantCount {
        return Ok;
      }
      if participantCount == participants.Length {
        return Error;
      }
      participants[participantCount] := p;
      participantCount := participantCount + 1;
      assert participants[..participantCount] == before.participants + [p];
      return Ok;
    }

    method AddParticipant(p: Guid) returns (ret: Ret)
      requires Valid()
      modifies this, participants
      ensures Valid()
      ensures ret == if old(Accepts(limits, State(), ParticipantAlive(p))) then Ok else Error
      ensures State() == old(Step(limits, State(), ParticipantAlive(p)))
      ensures guardTriggered == (old(guardTriggered) || ret == Ok)
      ensures ret == if old(ParticipantHasRoom(limits, State(), p)) then Ok else Error
      ensures ParticipantSeen(limits, old(State()), p, State())
    {
      EventHasEffect(limits, State(), ParticipantAlive(p));
      ret := AddParticipantLocked(p);
      if ret == Ok {
        guardTriggered := true;
      }
    }

    method RemoveParticipant(p: Guid)
      requires Valid()
      modifies this, participants, nodes, endpoints
      ensures Valid() && guardTriggered
      ensures State() == old(Step(limits, State(), ParticipantGone(p)))
      ensures ParticipantLost(old(State()), p, State())
    {
      hide Inv, Without, Drop, ParticipantLost;
      EventHasEffect(limits, State(), ParticipantGone(p));
      StepKeepsInv(limits, State(), ParticipantGone(p));
      ForgetParticipant(p);
      ForgetNodesOf(p);
      ForgetEndpointsOf(p);
      guardTriggered := true;
    }

    method ForgetParticipant(p: Guid)
      requires Valid()
      modifies this`participantCount, participants
      ensures Shape() && TailsCleared()
      ensures State() == old(State()).(participants := Drop(old(State()).participants, p))
    {
      var index := FindParticipant(p);
      if index < participantCount {
        ShiftDown(participants, index, participantCount);
        participantCount := participantCount - 1;
        participants[participantCount] := ZERO_GUID;
      }
    }

    method ForgetNodesOf(p: Guid)
      requires Shape()
      modifies this`nodeCount, nodes
      ensures Shape()
      ensures State() == old(State()).(nodes := Without(old(State()).nodes, p))
      ensures forall i :: nodeCount <= i < old(nodeCount) ==> nodes[i] == ZERO_NODE
    {
      var kept := Compact(nodes, nodeCount, p);
      forall i | kept <= i < nodeCount {
        nodes[i] := ZERO_NODE;
      }
      nodeCount := kept;
    }

    method ForgetEndpointsOf(p: Guid)
      requires Shape() && TailsCleared()
      modifies this`endpointCount, endpoints
      ensures Shape() && TailsCleared()
      ensures State() == old(State()).(endpoints := Without(old(State()).endpoints, p))
    {
      var kept := Compact(endpoints, endpointCount, p);
      forall i | kept <= i < endpointCount {
        endpoints[i] := ZERO_ENDPOINT;
      }
      endpointCount := kept;
    }

    method ApplySnapshot(sample: Snapshot) returns (ret: Ret)
      requires Valid()
      modifies this, participants, nodes
      ensures Valid()
      ensures ret == if old(Accepts(limits, State(), SnapshotTaken(sample))) then Ok else Error
      ensures State() == old(Step(limits, State(), SnapshotTaken(sample)))
      ensures guardTriggered == (old(guardTriggered) || ret == Ok)
      ensures ret == if old(SnapshotHasRoom(limits, State(), sample)) then Ok else Error
      ensures SnapshotSeen(limits, old(State()), sample, State())
    {
      hide Inv, SnapshotFits, Without, Of, Tag, SnapshotHasRoom, SnapshotSeen;
      EventHasEffect(limits, State(), SnapshotTaken(sample));
      StepKeepsInv(limits, State(), SnapshotTaken(sample));
      var fits := CheckBounds(sample);
      if !fits {
        return Error;
      }
      var replaced := CountNodesOf(sample.participant);
      SplitSizes(State().nodes, sample.participant);
      if nodeCount - replaced + |sample.nodes| > nodes.Length {
        return Error;
      }
      var added := AddParticipantLocked(sample.participant);
      if added != Ok {
        return Error;
      }
      ReplaceNodes(sample.participant, sample.nodes);
      guardTriggered := true;
      return Ok;
    }

    /** The bounds checked before the lock is taken. */
    method CheckBounds(sample: Snapshot) returns (fits: bool)
      ensures fits == SnapshotFits(limits, sample)
    {
      if |sample.nodes| > limits.cacheMaxNodes {
        return false;
      }
      for i := 0 to |sample.nodes|
        invariant forall k :: 0 <= k < i ==> sample.nodes[k].Fits(limits)
      {
        var node := sample.nodes[i];
        if |node.readers| > limits.maxEndpointsPerNode || |node.writers| > limits.maxEndpointsPerNode {
          return false;
        }
        if !StringFits(Text(node.name)) || !StringFits(Text(node.namespace_)) {
          return false;
        }
      }
      return true;
    }

    method CountNodesOf(p: Guid) returns (replaced: nat)
      requires Shape()
      ensures replaced == |Of(State().nodes, p)|
    {
      replaced := 0;
      for i := 0 to nodeCount
        invariant replaced == |Of(nodes[..i], p)|
      {
        assert nodes[..i + 1][..i] == nodes[..i];
        if nodes[i].participant == p {
          replaced := replaced + 1;
        }
      }
    }

    /** Compacts the nodes of p away, then appends the announced ones. */
    method ReplaceNodes(p: Guid, incoming: seq<NodeInfo>)
      requires Shape() && |Without(State().nodes, p)| + |incoming| <= nodes.Length
      modifies this`nodeCount, nodes
      ensures Shape()
      ensures State() == old(State()).(nodes := Without(old(State()).nodes, p) + Tag(p, incoming))
    {
      var kept := Compact(nodes, nodeCount, p);
      nodeCount := kept;
      for i := 0 to |incoming|
        invariant nodeCount == kept + i <= nodes.Length
        invariant nodes[..nodeCount] == Without(old(State()).nodes, p) + Tag(p, incoming)[..i]
      {
        nodes[nodeCount] := Owned(p, incoming[i]);
        nodeCount := nodeCount + 1;
      }
    }

    method UpsertEndpoint(g: Guid, owner: Guid, topic: CString, typeName: CString, writer: bool) returns (ret: Ret)
      requires Valid()
      modifies this, endpoints
      ensures Valid()
      ensures ret == if old(Accepts(limits, State(), EndpointAlive(g, owner, topic, typeName, writer))) then Ok else Error
      ensures State() == old(Step(limits, State(), EndpointAlive(g, owner, topic, typeName, writer)))
      ensures guardTriggered == (old(guardTriggered) || ret == Ok)
      ensures ret == if old(EndpointHasRoom(limits, State(), g, topic, typeName)) then Ok else Error
      ensures EndpointSeen(limits, old(State()), g, owner, topic, typeName, writer, State())
    {
      hide Inv, Upserted, EndpointHasRoom, EndpointSeen;
      ghost var event := EndpointAlive(g, owner, topic, typeName, writer);
      EventHasEffect(limits, State(), event);
      StepKeepsInv(limits, State(), event);
      if !StringFits(topic) || !StringFits(typeName) {
        return Error;
      }
      var index := FindEndpoint(g);
      if index == endpointCount && endpointCount == endpoints.Length {
        return Error;
      }
      PutEndpoint(index, Owned(owner, EndpointInfo(g, topic.chars, typeName.chars, writer)));
      guardTriggered := true;
      return Ok;
    }

    /** Overwrites the entry that was found, or appends. */
    method PutEndpoint(index: nat, e: CachedEndpoint)
      requires Shape() && TailsCleared() && index == IndexOf(EndpointGuids(State().endpoints), e.item.guid) < endpoints.Length
      modifies this`endpointCount, endpoints
      ensures Shape() && TailsCleared()
      ensures State() == old(State()).(endpoints := Upserted(old(State()).endpoints, e))
    {
      if index == endpointCount {
        endpointCount := endpointCount + 1;
      }
      endpoints[index] := e;
      assert endpoints[..endpointCount] == Upserted(old(State()).endpoints, e);
    }

    method RemoveEndpointGuid(g: Guid)
      requires Valid()
      modifies this, endpoints
      ensures Valid() && guardTriggered
      ensures State() == old(Step(limits, State(), EndpointGone(g)))
      ensures EndpointLost(old(State()), g, State())
    {
      hide Inv, DropEndpoint, EndpointLost;
      EventHasEffect(limits, State(), EndpointGone(g));
      StepKeepsInv(limits, State(), EndpointGone(g));
      var index := FindEndpoint(g);
      CloseEndpoint(index, g);
      guardTriggered := true;
    }

    /** Shifts the later entries over the one that was found and clears the last place. */
    method CloseEndpoint(index: nat, ghost g: Guid)
      requires Shape() && TailsCleared() && index == IndexOf(EndpointGuids(State().endpoints), g)
      modifies this`endpointCount, endpoints
      ensures Shape() && TailsCleared()
      ensures State() == old(State()).(endpoints := DropEndpoint(old(State()).endpoints, g))
    {
      if index < endpointCount {
        ShiftDown(endpoints, index, endpointCount);
        endpointCount := endpointCount - 1;
        endpoints[endpointCount] := ZERO_ENDPOINT;
      }
      assert endpoints[..endpointCount] == DropEndpoint(old(State()).endpoints, g);
    }
  }

  /** Moves every element that does not belong to p to the front, in order; what was past
      the count, and so past every index written, stays. */
  method Compact<T>(a: array<Owned<T>>, count: nat, p: Guid) returns (destination: nat)
    requires count <= a.Length
    modifies a
    ensures destination <= count
    ensures a[..destination] == old(Without(a[..count], p))
    ensures a[count..] == old(a[count..])
  {
    destination := 0;
    for source := 0 to count
      invariant destination <= source
      invariant a[..destination] == old(Without(a[..source], p))
      invariant forall k :: source <= k < a.Length ==> a[k] == old(a[k])
    {
      assert old(a[..source + 1])[..source] == old(a[..source]);
      if a[source].participant != p {
        if destination != source {
          a[destination] := a[source];
        }
        destination := destination + 1;
      }
    }
  }

  /** Closes the gap at index by shifting the elements up to count one place down. */
  method ShiftDown<T>(a: array<T>, index: nat, count: nat)
    requires index < count <= a.Length
    modifies a
    ensures a[..count - 1] == old(RemoveAt(a[..count], index))
    ensures a[count..] == old(a[count..])
  {
    var i := index;
    while i + 1 < count
      invariant index <= i < count
      invariant forall k :: 0 <= k < index ==> a[k] == old(a[k])
      invariant forall k :: index <= k < i ==> a[k] == old(a[k + 1])
      invariant forall k :: i < k < a.Length ==> a[k] == old(a[k])
    {
      a[i] := a[i + 1];
      i := i + 1;
    }
  }
}
