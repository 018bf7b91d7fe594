/** A context as the program keeps it: the local node table, the own graph cache, and the calls that
    change the table and publish it. Every method is tied to the call it implements. */
module LocalGraphs {
  import opened GraphTypes
  import opened CacheSpec
  import opened GraphCacheArrays
  import opened SlotTables
  import opened NodeTables
  import L = LocalSpec
  import C = Lifecycle
  import D = Discovery
  import S = Samples

  class EndpointData {
    const guid: Guid
    const node: NodeData
    const writer: bool

    constructor (guid: Guid, node: NodeData, writer: bool)
      ensures this.guid == guid && this.node == node && this.writer == writer
    {
      this.guid, this.node, this.writer := guid, node, writer;
    }

    ghost function Value(): C.Endpoint<NodeData> {
      C.Endpoint(guid, node, writer)
    }
  }

  class LocalGraph {
    const limits: Limits
    const own: Guid
    const table: NodeTable
    const cache: GraphCache
    ghost var wire: Option<Snapshot>
    ghost var lastPublish: Option<Ret>

    ghost function CacheObjects(): set<object> {
      {cache as object, cache.participants, cache.nodes, cache.endpoints}
    }

    ghost function TableObjects(): set<object> {
      {table as object} + table.Arrays()
    }

    ghost predicate Shape() {
      table.limits == limits && cache.limits == limits &&
      this !in TableObjects() + CacheObjects() && TableObjects() !! CacheObjects()
    }

    ghost predicate Valid()
      reads this, TableObjects(), table.handles, CacheObjects()
    {
      Shape() && table.Valid() && cache.Valid() && L.LocalInv(limits, State())
    }

    ghost function State(): L.Context<NodeData>
      requires Shape() && table.Valid() && cache.Valid()
      reads this, TableObjects(), table.handles, CacheObjects()
    {
      L.Context(own, table.Table(), cache.State(), wire, lastPublish)
    }

    constructor (limits: Limits, own: Guid)
      ensures Valid() && this.limits == limits && this.own == own && table.handles == []
      ensures State() == L.Initial(limits, own)
      ensures fresh(TableObjects() + CacheObjects())
    {
      hide L.LocalInv, Step, Accepts, Inv, NodeTable.Valid, NodeTable.Table, GraphCache.Valid, GraphCache.State;
      this.limits, this.own := limits, own;
      var started := StartCache(limits, own);
      cache := started;
      table := new NodeTable(limits);
      wire, lastPublish := None, None;
      new;
      L.InitialInv<NodeData>(limits, own);
    }

    /** The cache as rmw_init leaves it: only the own participant is in it. */
    static method StartCache(limits: Limits, own: Guid) returns (cache: GraphCache)
      ensures cache.Valid() && cache.limits == limits && cache.State() == Step(limits, EMPTY_CACHE, ParticipantAlive(own))
      ensures fresh(cache) && fresh(cache.participants) && fresh(cache.nodes) && fresh(cache.endpoints)
    {
      cache := new GraphCache(limits);
      var _ := cache.AddParticipant(own);
    }

    lemma {:induction false} StorageIsAnnouncement()
      requires table.Valid()
      ensures table.slots.Valid() && table.nodeCount <= |table.slots.Contents()|
      ensures table.slots.Contents()[..table.nodeCount] == L.Infos(table.Table())
    {
    }

    /** Writes the announcement and, when that works, applies it to the own cache. The node list of the
        sample is the slot storage itself. */
    method PublishLocked(writeOk: bool) returns (ret: Ret)
      requires Shape() && table.Valid() && cache.Valid()
      modifies this, CacheObjects()
      ensures table.Valid() && cache.Valid() && State() == L.Publish(limits, old(State()), writeOk)
      ensures lastPublish == Some(ret) && table.Table() == old(table.Table())
    {
      hide Step, Accepts, NodeTable.Valid, NodeTable.Table, GraphCache.Valid, SlotTable.Contents, SlotTable.Valid;
      StorageIsAnnouncement();
      var sample := Snapshot(own, table.slots.Contents()[..table.nodeCount]);
      if writeOk {
        wire := Some(sample);
        ret := cache.ApplySnapshot(sample);
      } else {
        ret := Error;
      }
      lastPublish := Some(ret);
    }

    method AddNode(node: NodeData, name: string, namespace_: string, writeOk: bool) returns (ret: Ret)
      requires Valid() && node !in table.handles
      modifies this, TableObjects(), CacheObjects(), node
      ensures Valid()
      ensures L.Outcome(State(), ret) == L.Perform(limits, old(State()), L.AddNode(node, name, namespace_), writeOk)
      ensures table.handles == old(table.handles) + if ret == Ok then [node] else []
    {
      hide L.LocalInv, L.Changed, Step, Accepts, NodeTable.Valid, NodeTable.Table, GraphCache.Valid, GraphCache.State;
      ghost var before, call := State(), L.AddNode(node, name, namespace_);
      NotInHandles(node);
      L.PerformKeepsInv(limits, before, call, writeOk);
      ret := table.Claim(node, name, namespace_);
      if ret == Ok {
        ret := PublishClaimed(node, writeOk);
      }
    }

    /** Publishes the table; when that fails, the last node is taken back. */
    method PublishClaimed(node: NodeData, writeOk: bool) returns (ret: Ret)
      requires Shape() && table.Valid() && cache.Valid() && table.handles != [] && table.handles[|table.handles| - 1] == node
      modifies this, TableObjects(), CacheObjects(), node
      ensures Shape() && table.Valid() && cache.Valid() && lastPublish == Some(ret)
      ensures table.handles == if ret == Ok then old(table.handles) else old(table.handles)[..|old(table.handles)| - 1]
      ensures var t := old(table.Table());
        |t| == |old(table.handles)| && State() == L.Publish(limits, old(State()), writeOk).(table := if ret == Ok then t else t[..|t| - 1])
    {
      hide Step, Accepts, NodeTable.Valid, GraphCache.Valid, GraphCache.State;
      ret := PublishLocked(writeOk);
      if ret != Ok {
        table.Unclaim(node);
      }
    }

    lemma {:induction false} NotInHandles(node: NodeData)
      requires Shape() && table.Valid() && node !in table.handles
      ensures L.SlotOf(table.Table(), node) == |table.Table()| == |table.handles|
      ensures forall name, namespace_ :: L.Changed(table.Table(), L.AddNode(node, name, namespace_))[..|table.Table()|] == table.Table()
    {
    }

    method RemoveNode(node: NodeData, writeOk: bool) returns (ret: Ret)
      requires Valid()
      modifies this, TableObjects(), CacheObjects(), table.handles
      ensures Valid()
      ensures L.Outcome(State(), ret) == L.Perform(limits, old(State()), L.RemoveNode(node), writeOk)
      ensures ret != InvalidArgument ==> node in old(table.handles) && node !in table.handles && node.home == null
    {
      hide L.LocalInv, L.Changed, Step, Accepts, NodeTable.Valid, NodeTable.Table, GraphCache.Valid, GraphCache.State;
      L.PerformKeepsInv(limits, State(), L.RemoveNode(node), writeOk);
      ret := table.Release(node);
      if ret == Ok {
        ret := PublishLocked(writeOk);
      }
    }

    /** Publishes the table; when that fails, the last entry of the node's list is taken back. */
    method PublishAppended(node: NodeData, writer: bool, writeOk: bool) returns (ret: Ret)
      requires Shape() && table.Valid() && cache.Valid() && node in table.handles
      requires L.SlotOf(table.Table(), node) < |table.Table()| && table.Table()[L.SlotOf(table.Table(), node)].info.Gids(writer) != []
      modifies this, TableObjects(), CacheObjects()
      ensures Shape() && table.Valid() && cache.Valid() && table.handles == old(table.handles) && lastPublish == Some(ret)
      ensures var t, i := old(table.Table()), L.SlotOf(old(table.Table()), node);
        State() == L.Publish(limits, old(State()), writeOk).(table :=
          if ret == Ok then t else L.WithList(t, i, writer, t[i].info.Gids(writer)[..|t[i].info.Gids(writer)| - 1]))
    {
      hide L.SlotOf, L.WithList, Step, Accepts, NodeTable.Valid, NodeTable.Table, GraphCache.Valid, GraphCache.State;
      ret := PublishLocked(writeOk);
      if ret != Ok {
        table.DropLastGid(node, writer);
      }
    }

    method AddEndpoint(node: NodeData, guid: Guid, writer: bool, writeOk: bool) returns (ret: Ret)
      requires Valid()
      modifies this, TableObjects(), CacheObjects()
      ensures Valid() && table.handles == old(table.handles)
      ensures L.Outcome(State(), ret) == L.Perform(limits, old(State()), L.AddEndpoint(node, guid, writer), writeOk)
    {
      hide L.SlotOf, L.WithList, L.LocalInv, L.Changed, Step, Accepts, NodeTable.Valid, NodeTable.Table, GraphCache.Valid, GraphCache.State;
      ghost var before, call := State(), L.AddEndpoint(node, guid, writer);
      L.PerformKeepsInv(limits, before, call, writeOk);
      ret := table.AppendGid(node, guid, writer);
      if ret == Ok {
        L.AppendedList(limits, before.table, node, guid, writer);
        ret := PublishAppended(node, writer, writeOk);
      }
    }

    method RemoveEndpoint(node: NodeData, guid: Guid, writer: bool, writeOk: bool) returns (ret: Ret)
      requires Valid()
      modifies this, TableObjects(), CacheObjects()
      ensures Valid() && table.handles == old(table.handles)
      ensures L.Outcome(State(), ret) == L.Perform(limits, old(State()), L.RemoveEndpoint(node, guid, writer), writeOk)
    {
      hide L.LocalInv, L.Changed, Step, Accepts, NodeTable.Valid, NodeTable.Table, GraphCache.Valid, GraphCache.State;
      L.PerformKeepsInv(limits, State(), L.RemoveEndpoint(node, guid, writer), writeOk);
      ret := table.RemoveGid(node, guid, writer);
      if ret == Ok {
        ret := PublishLocked(writeOk);
      }
    }

    /** Creating a publisher or subscription once its DDS entity exists. */
    method CreateEndpoint(node: NodeData, guid: Guid, writer: bool, topic: string, typeName: string, writeOk: bool, undoOk: bool)
      returns (ret: Ret, endpoint: EndpointData?)
      requires Valid()
      modifies this, TableObjects(), CacheObjects()
      ensures Valid() && table.handles == old(table.handles)
      ensures L.Outcome(State(), ret) ==
              C.CreateEndpoint(limits, old(State()), C.Endpoint(guid, node, writer), topic, typeName, writeOk, undoOk)
      ensures ret == Ok ==> endpoint != null && fresh(endpoint) && endpoint.Value() == C.Endpoint(guid, node, writer)
      ensures ret != Ok ==> endpoint == null
    {
      hide L.LocalInv, L.Perform, L.Changed, Step, Accepts, StringFits, NodeTable.Valid, NodeTable.Table, GraphCache.Valid, GraphCache.State;
      endpoint := null;
      ret := AddEndpoint(node, guid, writer, writeOk);
      if ret == Ok {
        ret := UpsertOrUndo(node, guid, writer, topic, typeName, undoOk);
        if ret == Ok {
          endpoint := new EndpointData(guid, node, writer);
        }
      }
    }

    /** The second half of a creation: the own cache learns the endpoint, or the graph entry is taken back. */
    method UpsertOrUndo(node: NodeData, guid: Guid, writer: bool, topic: string, typeName: string, undoOk: bool) returns (ret: Ret)
      requires Valid()
      modifies this, TableObjects(), CacheObjects()
      ensures Valid() && table.handles == old(table.handles)
      ensures var event := EndpointAlive(guid, own, Text(topic), Text(typeName), writer);
        L.Outcome(State(), ret) ==
          if Accepts(limits, old(State()).cache, event) then L.Outcome(L.Receive(limits, old(State()), event), Ok)
          else L.Outcome(L.Perform(limits, old(State()), L.RemoveEndpoint(node, guid, writer), undoOk).context, Error)
    {
      hide L.LocalInv, L.Perform, Step, Accepts, StringFits, NodeTable.Valid, NodeTable.Table, GraphCache.Valid, GraphCache.State;
      ghost var event := EndpointAlive(guid, own, Text(topic), Text(typeName), writer);
      L.ReceiveKeepsInv(limits, State(), event);
      RefusalChangesNothing(limits, State().cache, event);
      ret := cache.UpsertEndpoint(guid, own, Text(topic), Text(typeName), writer);
      if ret != Ok {
        var _ := RemoveEndpoint(node, guid, writer, undoOk);
      }
    }

    /** Destroying a publisher or subscription, up to the deletion of its DDS entities. */
    method DestroyEndpoint(endpoint: EndpointData, writeOk: bool) returns (ret: Ret)
      requires Valid()
      modifies this, TableObjects(), CacheObjects()
      ensures Valid() && table.handles == old(table.handles)
      ensures L.Outcome(State(), ret) == C.DestroyEndpoint(limits, old(State()), endpoint.Value(), writeOk)
    {
      hide L.LocalInv, L.Perform, Step, Accepts, NodeTable.Valid, NodeTable.Table, GraphCache.Valid, GraphCache.State;
      L.ReceiveKeepsInv(limits, State(), EndpointGone(endpoint.guid));
      cache.RemoveEndpointGuid(endpoint.guid);
      ret := RemoveEndpoint(endpoint.node, endpoint.guid, endpoint.writer, writeOk);
    }

    /** A discovery callback of this context; without a take error everything pending is consumed. */
    method OnDataAvailable(reader: D.Reader, batch: nat) returns (failed: bool, ghost consumed: nat, ghost caches: seq<Cache>)
      requires Valid() && 0 < batch
      requires reader as object !in {this} + TableObjects() + CacheObjects()
      modifies reader, CacheObjects()
      ensures Valid() && table.handles == old(table.handles)
      ensures consumed <= |old(reader.pending)| && reader.pending == old(reader.pending)[consumed..]
      ensures State() == old(State()).(cache := D.HandledAll(limits, own, old(State()).cache, old(reader.pending)[..consumed]))
      ensures S.Trace(limits, own, old(reader.pending)[..consumed], caches)
      ensures caches[0] == old(State()).cache && caches[consumed] == State().cache
      ensures reader.failures == old(reader.failures) + if failed then 1 else 0
      ensures !failed ==> consumed == |old(reader.pending)|
    {
      hide S.SampleEffect, L.LocalInv, D.HandledAll, Step, Accepts, NodeTable.Valid, NodeTable.Table, GraphCache.Valid, GraphCache.State;
      ghost var pending, before := reader.pending, State();
      failed, consumed, caches := D.DataAvailable(reader, cache, own, batch);
      HandledKeepsInv(limits, before, pending[..consumed]);
    }
  }

  lemma {:induction false} HandledKeepsInv<H>(limits: Limits, s: L.Context<H>, samples: seq<S.Sample>)
    requires L.LocalInv(limits, s)
    ensures L.LocalInv(limits, s.(cache := D.HandledAll(limits, s.own, s.cache, samples)))
  {
    if samples != [] {
      var front, last := samples[..|samples| - 1], samples[|samples| - 1];
      HandledKeepsInv(limits, s, front);
      var t := s.(cache := D.HandledAll(limits, s.own, s.cache, front));
      if D.Meaning(s.own, last).Some? {
        L.ReceiveKeepsInv(limits, t, D.Meaning(s.own, last).value);
      }
    }
  }
}
