/** Creating and destroying nodes, publishers and subscriptions: who owns what, and what comes back. */
module Lifecycle {
  import opened GraphTypes
  import opened CacheSpec
  import opened CacheRuns
  import opened QuerySpec
  import opened LocalSpec

  // ---------- ownership over runs ----------

  /** A publisher or subscription object; it points to the node it was created on. */
  datatype Endpoint<H> = Endpoint(guid: Guid, node: H, writer: bool)

  /** The context together with the heap objects that exist: allocated nodes, and the endpoint
      objects between their entry into the graph and their exit from it. */
  datatype Process<H> = Process(context: Context<H>, nodes: set<H>, endpoints: set<Endpoint<H>>)

  datatype Action<H> =
    | CreateNode(node: H, name: string, namespace_: string, writeOk: bool)
    | DestroyNode(node: H, writeOk: bool)
    | EnterGraph(endpoint: Endpoint<H>, writeOk: bool)   // in rmw_create_publisher, rmw_create_subscription
    | LeaveGraph(endpoint: Endpoint<H>, writeOk: bool)   // on destruction, or when creation fails later
    | CacheEvent(event: Event)                           // discovery, and the own endpoints' cache entries

  /** Nodes are newly allocated, GUIDs of new endpoints are unused, only existing endpoints leave. */
  ghost predicate Legal<H>(s: Process<H>, a: Action<H>) {
    match a
    case CreateNode(node, _, _, _) => node !in s.nodes
    case DestroyNode(_, _) => true
    case EnterGraph(e, _) => forall d :: d in s.endpoints ==> d.guid != e.guid
    case LeaveGraph(e, _) => e in s.endpoints
    case CacheEvent(e) => Foreign(s.context.own, e)
  }

  function CallOf<H>(a: Action<H>): Call<H>
    requires !a.CacheEvent?
  {
    match a
    case CreateNode(node, name, namespace_, _) => AddNode(node, name, namespace_)
    case DestroyNode(node, _) => RemoveNode(node)
    case EnterGraph(e, _) => AddEndpoint(e.node, e.guid, e.writer)
    case LeaveGraph(e, _) => RemoveEndpoint(e.node, e.guid, e.writer)
  }

  /** A failed node creation frees the new node, a refused destruction frees nothing; an endpoint object is
      freed after it left, whatever leaving returned. */
  function Act<H(==)>(limits: Limits, s: Process<H>, a: Action<H>): Process<H> {
    if a.CacheEvent? then s.(context := Receive(limits, s.context, a.event))
    else
      var o := Perform(limits, s.context, CallOf(a), a.writeOk);
      match a
      case CreateNode(node, _, _, _) => Process(o.context, if o.ret == Ok then s.nodes + {node} else s.nodes, s.endpoints)
      case DestroyNode(node, _) => Process(o.context, if o.ret == InvalidArgument then s.nodes else s.nodes - {node}, s.endpoints)
      case EnterGraph(e, _) => Process(o.context, s.nodes, if o.ret == Ok then s.endpoints + {e} else s.endpoints)
      case LeaveGraph(e, _) => Process(o.context, s.nodes, s.endpoints - {e})
  }

  /** The allocated nodes are the handles that resolve, and the lists of each node hold the GUIDs of
      exactly the endpoint objects that point to it, each once. */
  ghost predicate NoDangling<H(!new)>(s: Process<H>) {
    (forall h :: h in s.nodes <==> Lookup(s.context.table, h).Some?) &&
    (forall h, writer :: h in s.nodes ==> Distinct(Lookup(s.context.table, h).value.Gids(writer))) &&
    (forall e :: e in s.endpoints ==> e.node in s.nodes) &&
    (forall h, writer, g :: h in s.nodes ==>
      (g in Lookup(s.context.table, h).value.Gids(writer) <==> Endpoint(g, h, writer) in s.endpoints)) &&
    (forall d, e :: d in s.endpoints && e in s.endpoints && d.guid == e.guid ==> d == e)
  }

  lemma {:induction false} SlotIffLookup<H>(table: seq<Entry<H>>, h: H)
    ensures Lookup(table, h).Some? <==> SlotOf(table, h) < |table|
  {
  }

  /** What the result of a call says about the node it was about. */
  lemma {:induction false} ResultTells<H>(limits: Limits, s: Context<H>, call: Call<H>, writeOk: bool)
    requires !call.AddNode?
    ensures var was, ret := Lookup(s.table, call.node), Perform(limits, s, call, writeOk).ret;
      (ret != InvalidArgument ==> was.Some?) &&
      (call.RemoveNode? && was.Some? ==> (ret == InvalidArgument <==> was.value.readers != [] || was.value.writers != [])) &&
      (call.RemoveEndpoint? && was.Some? ==> (ret == InvalidArgument <==> call.guid !in was.value.Gids(call.writer)))
  {
  }

  lemma {:induction false} WithoutFirstOfDistinct(gids: seq<Guid>, guid: Guid)
    requires Distinct(gids)
    ensures Distinct(WithoutFirst(gids, guid))
    ensures forall g :: g in WithoutFirst(gids, guid) <==> g in gids && g != guid
  {
    if IndexOf(gids, guid) < |gids| {
      RemoveAtFromDistinct(gids, IndexOf(gids, guid));
    }
  }

  lemma {:induction false} AppendToDistinct(gids: seq<Guid>, guid: Guid)
    requires Distinct(gids) && guid !in gids
    ensures Distinct(gids + [guid])
  {
  }

  lemma {:induction false} ActKeepsOwnership<H(!new)>(limits: Limits, s: Process<H>, a: Action<H>)
    requires LocalInv(limits, s.context) && NoDangling(s) && Legal(s, a)
    ensures LocalInv(limits, Act(limits, s, a).context) && NoDangling(Act(limits, s, a))
  {
    if a.CacheEvent? {
      ReceiveKeepsInv(limits, s.context, a.event);
      assert Act(limits, s, a).context.table == s.context.table;
    } else {
      SlotIffLookup(s.context.table, CallOf(a).node);
      PerformKeepsInv(limits, s.context, CallOf(a), a.writeOk);
      ActKeepsNoDangling(limits, s, a);
    }
  }

  /** One list of one node changed, and the endpoint objects changed with it. */
  lemma {:induction false} ListAndObjectsMatch<H(!new)>(s: Process<H>, r: Process<H>, node: H, writer: bool, gids: seq<Guid>)
    requires NoDangling(s) && r.nodes == s.nodes && node in s.nodes && Distinct(gids)
    requires var was, is_ := Lookup(s.context.table, node), Lookup(r.context.table, node);
      is_.Some? && is_.value.Gids(writer) == gids && is_.value.Gids(!writer) == was.value.Gids(!writer)
    requires forall h :: h != node ==> Lookup(r.context.table, h) == Lookup(s.context.table, h)
    requires forall e :: e in r.endpoints <==> if e.node == node && e.writer == writer then e.guid in gids else e in s.endpoints
    requires forall d, e :: d in r.endpoints && e in r.endpoints && d.guid == e.guid ==> d == e
    ensures NoDangling(r)
  {
    hide Lookup, Distinct;
  }

  lemma {:induction false} EnterKeepsNoDangling<H(!new)>(limits: Limits, s: Process<H>, e: Endpoint<H>, writeOk: bool)
    requires LocalInv(limits, s.context) && NoDangling(s) && Legal(s, EnterGraph(e, writeOk))
    ensures NoDangling(Act(limits, s, EnterGraph(e, writeOk)))
  {
    hide LocalInv, Changed, Lookup, SlotOf, Perform;
    var r, call := Act(limits, s, EnterGraph(e, writeOk)), AddEndpoint(e.node, e.guid, e.writer);
    forall h | true ensures Lookup(r.context.table, h) ==
      if h == e.node && TookEffect(call, Perform(limits, s.context, call, writeOk).ret) then Resolved(Lookup(s.context.table, h), call)
      else Lookup(s.context.table, h)
    {
      HandlesAreStable(limits, s.context, call, writeOk, h);
    }
    ResultTells(limits, s.context, call, writeOk);
    if Perform(limits, s.context, call, writeOk).ret == Ok {
      var was := Lookup(s.context.table, e.node).value.Gids(e.writer);
      assert e.guid !in was;
      AppendToDistinct(was, e.guid);
      ListAndObjectsMatch(s, r, e.node, e.writer, was + [e.guid]);
    }
  }

  lemma {:induction false} LeaveKeepsNoDangling<H(!new)>(limits: Limits, s: Process<H>, e: Endpoint<H>, writeOk: bool)
    requires LocalInv(limits, s.context) && NoDangling(s) && Legal(s, LeaveGraph(e, writeOk))
    ensures NoDangling(Act(limits, s, LeaveGraph(e, writeOk)))
  {
    hide LocalInv, Changed, Lookup, SlotOf, Perform, WithoutFirst;
    var r, call := Act(limits, s, LeaveGraph(e, writeOk)), RemoveEndpoint(e.node, e.guid, e.writer);
    forall h | true ensures Lookup(r.context.table, h) ==
      if h == e.node && TookEffect(call, Perform(limits, s.context, call, writeOk).ret) then Resolved(Lookup(s.context.table, h), call)
      else Lookup(s.context.table, h)
    {
      HandlesAreStable(limits, s.context, call, writeOk, h);
    }
    ResultTells(limits, s.context, call, writeOk);
    var was := Lookup(s.context.table, e.node).value.Gids(e.writer);
    assert e == Endpoint(e.guid, e.node, e.writer);
    WithoutFirstOfDistinct(was, e.guid);
    forall d ensures d in r.endpoints <==>
      if d.node == e.node && d.writer == e.writer then d.guid in WithoutFirst(was, e.guid) else d in s.endpoints
    {
      assert d == Endpoint(d.guid, d.node, d.writer);
    }
    ListAndObjectsMatch(s, r, e.node, e.writer, WithoutFirst(was, e.guid));
  }

  lemma {:induction false} ActKeepsNoDangling<H(!new)>(limits: Limits, s: Process<H>, a: Action<H>)
    requires LocalInv(limits, s.context) && NoDangling(s) && Legal(s, a) && !a.CacheEvent?
    requires a.CreateNode? ==> SlotOf(s.context.table, a.node) == |s.context.table|
    ensures NoDangling(Act(limits, s, a))
  {
    if a.EnterGraph? {
      EnterKeepsNoDangling(limits, s, a.endpoint, a.writeOk);
    } else if a.LeaveGraph? {
      LeaveKeepsNoDangling(limits, s, a.endpoint, a.writeOk);
    } else {
      NodesKeepNoDangling(limits, s, a);
    }
  }

  lemma {:induction false} NodesKeepNoDangling<H(!new)>(limits: Limits, s: Process<H>, a: Action<H>)
    requires LocalInv(limits, s.context) && NoDangling(s) && Legal(s, a) && (a.CreateNode? || a.DestroyNode?)
    requires a.CreateNode? ==> SlotOf(s.context.table, a.node) == |s.context.table|
    ensures NoDangling(Act(limits, s, a))
  {
    hide LocalInv, Changed, Lookup, SlotOf, Perform;
    var t, call := s.context.table, CallOf(a);
    var o := Perform(limits, s.context, call, a.writeOk);
    forall h | true
      ensures Lookup(o.context.table, h) ==
              if h == call.node && TookEffect(call, o.ret) then Resolved(Lookup(t, h), call) else Lookup(t, h)
    {
      HandlesAreStable(limits, s.context, call, a.writeOk, h);
    }
    if a.CreateNode? {
      assert forall e :: e in s.endpoints ==> e.node != a.node;
    } else {
      ResultTells(limits, s.context, call, a.writeOk);
      if o.ret != InvalidArgument {
        var was := Lookup(t, a.node).value;
        assert was.Gids(true) == [] && was.Gids(false) == [];
        forall e | e in s.endpoints ensures e.node != a.node {
          assert e == Endpoint(e.guid, e.node, e.writer);
        }
      }
    }
  }

  /** Over every run of creations and destructions: nothing that still exists refers to a freed node. */
  lemma {:induction false} OwnershipOverRuns<H(!new)>(limits: Limits, own: Guid, states: seq<Process<H>>, actions: seq<Action<H>>, n: nat)
    requires |states| == |actions| + 1 && n <= |actions|
    requires states[0] == Process(Initial(limits, own), {}, {})
    requires forall i :: 0 <= i < |actions| ==> Legal(states[i], actions[i]) && states[i + 1] == Act(limits, states[i], actions[i])
    ensures LocalInv(limits, states[n].context) && NoDangling(states[n])
  {
    if n == 0 {
      InitialInv<H>(limits, own);
    } else {
      OwnershipOverRuns(limits, own, states, actions, n - 1);
      ActKeepsOwnership(limits, states[n - 1], actions[n - 1]);
    }
  }

  /** A node is freed only when no endpoint object points to it, even when the removal cannot be written:
      destroying it is refused exactly while such an endpoint exists or the handle is unknown. */
  lemma {:induction false} NodeOutlivesItsEndpoints<H(!new)>(limits: Limits, s: Process<H>, node: H, writeOk: bool)
    requires LocalInv(limits, s.context) && NoDangling(s)
    ensures Perform(limits, s.context, RemoveNode(node), writeOk).ret == InvalidArgument <==>
            node !in s.nodes || exists e :: e in s.endpoints && e.node == node
  {
    ResultTells(limits, s.context, RemoveNode(node), writeOk);
    if node in s.nodes {
      var info := Lookup(s.context.table, node).value;
      assert info.readers == info.Gids(false) && info.writers == info.Gids(true);
      if info.readers != [] {
        assert Endpoint(info.readers[0], node, false) in s.endpoints;
      }
      if info.writers != [] {
        assert Endpoint(info.writers[0], node, true) in s.endpoints;
      }
      if e :| e in s.endpoints && e.node == node {
        assert e.guid in info.Gids(e.writer);
      }
    }
  }

  // ---------- creating and destroying an endpoint ----------

  /** rmw_create_publisher and rmw_create_subscription, from the point where the DDS entity exists: the
      GUID enters the graph, then the own cache learns topic and type; if it refuses, the GUID leaves. */
  function CreateEndpoint<H(==)>(limits: Limits, s: Context<H>, e: Endpoint<H>, topic: string, typeName: string,
                                 writeOk: bool, undoOk: bool): Outcome<H>
  {
    var entered := Perform(limits, s, AddEndpoint(e.node, e.guid, e.writer), writeOk);
    var event := EndpointAlive(e.guid, s.own, Text(topic), Text(typeName), e.writer);
    if entered.ret != Ok then entered
    else if Accepts(limits, entered.context.cache, event) then Outcome(Receive(limits, entered.context, event), Ok)
    else Outcome(Perform(limits, entered.context, RemoveEndpoint(e.node, e.guid, e.writer), undoOk).context, Error)
  }

  /** rmw_destroy_publisher and rmw_destroy_subscription, up to the deletion of the DDS entities. */
  function DestroyEndpoint<H(==)>(limits: Limits, s: Context<H>, e: Endpoint<H>, writeOk: bool): Outcome<H> {
    Perform(limits, Receive(limits, s, EndpointGone(e.guid)), RemoveEndpoint(e.node, e.guid, e.writer), writeOk)
  }

  /** The GUID is unknown to the own cache and to every list of the own table. */
  ghost predicate FreshGuid<H>(s: Context<H>, g: Guid) {
    g !in EndpointGuids(s.cache.endpoints) &&
    forall i, writer :: 0 <= i < |s.table| ==> g !in s.table[i].info.Gids(writer)
  }

  /** Everything a local query can see: who is visible, which nodes there are, and the own table. */
  ghost predicate SameAnswers<H>(s: Context<H>, t: Context<H>) {
    t.table == s.table && t.cache.endpoints == s.cache.endpoints &&
    Visible(t.cache) == Visible(s.cache) && multiset(t.cache.nodes) == multiset(s.cache.nodes)
  }

  /** A successful publish of a changed table, seen participant by participant. */
  lemma {:induction false} PublishedNodes<H>(limits: Limits, s: Context<H>, call: Call<H>, p: Guid)
    requires Perform(limits, s, call, true).ret == Ok
    ensures var t := Perform(limits, s, call, true).context;
      t.table == Changed(s.table, call) && t.cache.endpoints == s.cache.endpoints && t.own == s.own && InSync(t) &&
      Of(t.cache.nodes, p) == if p == s.own then Infos(t.table) else Of(s.cache.nodes, p)
  {
    var a := Announcement(s.(table := Changed(s.table, call)));
    SnapshotReplacesExactly(limits, s.cache, a, p);
    SnapshotReplacesExactly(limits, s.cache, a, s.own);
  }

  lemma {:induction false} SameNodesSameAnswers<H>(s: Context<H>, t: Context<H>)
    requires t.table == s.table && t.cache.endpoints == s.cache.endpoints
    requires forall p :: Of(t.cache.nodes, p) == Of(s.cache.nodes, p)
    ensures SameAnswers(s, t)
  {
    SameOwnersSameMultiset(t.cache.nodes, s.cache.nodes);
    forall e ensures Associated(t.cache, e) <==> Associated(s.cache, e) {
      AssociatedByOwner(t.cache, e);
      AssociatedByOwner(s.cache, e);
      assert Of(t.cache.nodes, e.participant) == Of(s.cache.nodes, e.participant);
    }
  }

  lemma {:induction false} AddThenRemoveRestoresTable<H>(table: seq<Entry<H>>, node: H, g: Guid, writer: bool)
    requires SlotOf(table, node) < |table|
    requires g !in table[SlotOf(table, node)].info.Gids(writer)
    ensures Changed(Changed(table, AddEndpoint(node, g, writer)), RemoveEndpoint(node, g, writer)) == table
    ensures g in Changed(table, AddEndpoint(node, g, writer))[SlotOf(table, node)].info.Gids(writer)
    ensures SlotOf(Changed(table, AddEndpoint(node, g, writer)), node) == SlotOf(table, node)
  {
    var i := SlotOf(table, node);
    var gids := table[i].info.Gids(writer);
    var t := Changed(table, AddEndpoint(node, g, writer));
    assert forall k :: 0 <= k < |table| ==> t[k].owner == table[k].owner;
    assert SlotOf(t, node) == i by {
      var j := SlotOf(t, node);
      assert t[i].owner == node;
      assert j <= i && t[j].owner == table[j].owner;
    }
    IndexOfAppended(gids, g);
    assert RemoveAt(gids + [g], |gids|) == gids;
  }

  /** Leaving the graph right after entering it gives back the table and every answer. */
  lemma {:induction false} EnterThenLeave<H>(limits: Limits, s: Context<H>, e: Endpoint<H>)
    requires LocalInv(limits, s) && Of(s.cache.nodes, s.own) == Infos(s.table) && FreshGuid(s, e.guid)
    requires Perform(limits, s, AddEndpoint(e.node, e.guid, e.writer), true).ret == Ok
    ensures var entered := Perform(limits, s, AddEndpoint(e.node, e.guid, e.writer), true).context;
      var left := Perform(limits, entered, RemoveEndpoint(e.node, e.guid, e.writer), true);
      left.ret == Ok && SameAnswers(s, left.context)
  {
    hide SlotOf, Lookup, Inv;
    var add, remove := AddEndpoint(e.node, e.guid, e.writer), RemoveEndpoint(e.node, e.guid, e.writer);
    var entered := Perform(limits, s, add, true).context;
    PerformKeepsInv(limits, s, add, true);
    AddThenRemoveRestoresTable(s.table, e.node, e.guid, e.writer);
    OnlyNodeAddsAreRefused(limits, entered, remove);
    var left := Perform(limits, entered, remove, true);
    forall p ensures Of(left.context.cache.nodes, p) == Of(s.cache.nodes, p) {
      PublishedNodes(limits, s, add, p);
      PublishedNodes(limits, entered, remove, p);
    }
    PublishedNodes(limits, s, add, s.own);
    PublishedNodes(limits, entered, remove, s.own);
    SameNodesSameAnswers(s, left.context);
  }

  /** A creation that fails, because the announcement cannot be written, the graph refuses it or the cache does, leaves
      no trace in the table or in any answer; only the write that takes the entry back must work. */
  lemma {:induction false} RefusedCreateRestores<H>(limits: Limits, s: Context<H>, e: Endpoint<H>, topic: string, typeName: string, writeOk: bool)
    requires LocalInv(limits, s) && Of(s.cache.nodes, s.own) == Infos(s.table) && FreshGuid(s, e.guid)
    requires CreateEndpoint(limits, s, e, topic, typeName, writeOk, true).ret != Ok
    ensures SameAnswers(s, CreateEndpoint(limits, s, e, topic, typeName, writeOk, true).context)
  {
    var add := AddEndpoint(e.node, e.guid, e.writer);
    if Perform(limits, s, add, writeOk).ret == Ok {
      EnterThenLeave(limits, s, e);
    } else if writeOk {
      OnlyNodeAddsAreRefused(limits, s, add);
    }
  }

  lemma {:induction false} FreshUpsertThenDrop(s: seq<CachedEndpoint>, e: CachedEndpoint)
    requires e.item.guid !in EndpointGuids(s)
    ensures Upserted(s, e) == s + [e] && DropEndpoint(s + [e], e.item.guid) == s
  {
    IndexOfAppended(EndpointGuids(s), e.item.guid);
    assert EndpointGuids(s + [e]) == EndpointGuids(s) + [e.item.guid];
    assert RemoveAt(s + [e], |s|) == s;
  }

  /** What creation leaves behind: the table with the GUID in it, published, and one more cache entry. */
  lemma {:induction false} CreatedContext<H>(limits: Limits, s: Context<H>, e: Endpoint<H>, topic: string, typeName: string)
    requires FreshGuid(s, e.guid)
    requires CreateEndpoint(limits, s, e, topic, typeName, true, true).ret == Ok
    ensures var entered := Perform(limits, s, AddEndpoint(e.node, e.guid, e.writer), true);
      var entry := Owned(s.own, EndpointInfo(e.guid, topic, typeName, e.writer));
      var created := CreateEndpoint(limits, s, e, topic, typeName, true, true).context;
      entered.ret == Ok && SlotOf(s.table, e.node) < |s.table| &&
      created == entered.context.(cache := entered.context.cache.(endpoints := s.cache.endpoints + [entry])) &&
      Receive(limits, created, EndpointGone(e.guid)) == entered.context
  {
    hide Changed, Upserted, DropEndpoint, SnapshotFits, Without;
    PublishedNodes(limits, s, AddEndpoint(e.node, e.guid, e.writer), s.own);
    FreshUpsertThenDrop(s.cache.endpoints, Owned(s.own, EndpointInfo(e.guid, topic, typeName, e.writer)));
  }

  /** Creating an endpoint and destroying it again gives back the table and every answer. */
  lemma {:induction false} CreateThenDestroyRestores<H>(limits: Limits, s: Context<H>, e: Endpoint<H>, topic: string, typeName: string)
    requires LocalInv(limits, s) && Of(s.cache.nodes, s.own) == Infos(s.table) && FreshGuid(s, e.guid)
    requires CreateEndpoint(limits, s, e, topic, typeName, true, true).ret == Ok
    ensures var created := CreateEndpoint(limits, s, e, topic, typeName, true, true).context;
      var destroyed := DestroyEndpoint(limits, created, e, true);
      destroyed.ret == Ok && SameAnswers(s, destroyed.context)
  {
    hide CreateEndpoint, Perform, Receive, SameAnswers, LocalInv, FreshGuid;
    CreatedContext(limits, s, e, topic, typeName);
    EnterThenLeave(limits, s, e);
  }

  /** A created endpoint is visible, and nothing else becomes visible or invisible. */
  lemma {:induction false} CreateAddsOneVisible<H>(limits: Limits, s: Context<H>, e: Endpoint<H>, topic: string, typeName: string)
    requires LocalInv(limits, s) && Of(s.cache.nodes, s.own) == Infos(s.table) && FreshGuid(s, e.guid)
    requires CreateEndpoint(limits, s, e, topic, typeName, true, true).ret == Ok
    ensures var entry := Owned(s.own, EndpointInfo(e.guid, topic, typeName, e.writer));
      entry !in Visible(s.cache) &&
      Visible(CreateEndpoint(limits, s, e, topic, typeName, true, true).context.cache) == Visible(s.cache) + {entry}
  {
    hide CreateEndpoint, Perform, Changed, Associated, SlotOf, LocalInv;
    var add := AddEndpoint(e.node, e.guid, e.writer);
    var c := CreateEndpoint(limits, s, e, topic, typeName, true, true).context.cache;
    var entry := Owned(s.own, EndpointInfo(e.guid, topic, typeName, e.writer));
    CreatedContext(limits, s, e, topic, typeName);
    forall d | d in c.endpoints ensures Associated(c, d) <==> d == entry || Associated(s.cache, d) {
      PublishedNodes(limits, s, add, d.participant);
      AssociationAfterEnter(limits, s, e, c, d, entry);
    }
    assert entry !in s.cache.endpoints by {
      assert forall k :: 0 <= k < |s.cache.endpoints| ==> EndpointGuids(s.cache.endpoints)[k] in EndpointGuids(s.cache.endpoints);
    }
  }

  /** Appending one GUID to a list lists no other GUID. */
  lemma {:induction false} OthersListedAsBefore<H>(table: seq<Entry<H>>, call: Call<H>, g: Guid, writer: bool)
    requires call.AddEndpoint? && g != call.guid
    ensures (exists info :: info in Infos(Changed(table, call)) && g in info.Gids(writer)) <==>
            (exists info :: info in Infos(table) && g in info.Gids(writer))
  {
    var t := Changed(table, call);
    assert forall k :: 0 <= k < |t| ==> (g in Infos(t)[k].Gids(writer) <==> g in Infos(table)[k].Gids(writer));
    if info :| info in Infos(t) && g in info.Gids(writer) {
      var k :| 0 <= k < |t| && Infos(t)[k] == info;
      assert Infos(table)[k] in Infos(table);
    }
    if info :| info in Infos(table) && g in info.Gids(writer) {
      var k :| 0 <= k < |table| && Infos(table)[k] == info;
      assert Infos(t)[k] in Infos(t);
    }
  }

  lemma {:induction false} AssociationAfterEnter<H>(limits: Limits, s: Context<H>, e: Endpoint<H>, c: Cache, d: CachedEndpoint, entry: CachedEndpoint)
    requires SlotOf(s.table, e.node) < |s.table|
    requires Of(s.cache.nodes, s.own) == Infos(s.table) && FreshGuid(s, e.guid)
    requires Of(c.nodes, d.participant) ==
      if d.participant == s.own then Infos(Changed(s.table, AddEndpoint(e.node, e.guid, e.writer))) else Of(s.cache.nodes, d.participant)
    requires d == entry || d in s.cache.endpoints
    requires entry.participant == s.own && entry.item.guid == e.guid && entry.item.writer == e.writer
    ensures Associated(c, d) <==> d == entry || Associated(s.cache, d)
  {
    hide Associated, Infos;
    AssociatedByOwner(c, d);
    AssociatedByOwner(s.cache, d);
    var i, t := SlotOf(s.table, e.node), Changed(s.table, AddEndpoint(e.node, e.guid, e.writer));
    if d == entry {
      assert Infos(t)[i] in Infos(t) && e.guid in Infos(t)[i].Gids(e.writer);
    } else if d.participant == s.own {
      assert d.item.guid != e.guid by {
        var k :| 0 <= k < |s.cache.endpoints| && s.cache.endpoints[k] == d;
        assert EndpointGuids(s.cache.endpoints)[k] in EndpointGuids(s.cache.endpoints);
      }
      OthersListedAsBefore(s.table, AddEndpoint(e.node, e.guid, e.writer), d.item.guid, d.item.writer);
    }
  }

  /** Creating an endpoint with a new GUID raises the count of its own topic and direction by one, and no other. */
  lemma {:induction false} CreateRaisesOneCount<H>(limits: Limits, s: Context<H>, e: Endpoint<H>, topic: string, typeName: string, t: string, writer: bool)
    requires LocalInv(limits, s) && Of(s.cache.nodes, s.own) == Infos(s.table) && FreshGuid(s, e.guid)
    requires CreateEndpoint(limits, s, e, topic, typeName, true, true).ret == Ok
    ensures TopicCount(CreateEndpoint(limits, s, e, topic, typeName, true, true).context.cache, t, writer) ==
            TopicCount(s.cache, t, writer) + if t == topic && writer == e.writer then 1 else 0
  {
    hide CreateEndpoint, LocalInv, FreshGuid, Visible;
    CreateAddsOneVisible(limits, s, e, topic, typeName);
    var c := CreateEndpoint(limits, s, e, topic, typeName, true, true).context.cache;
    var entry := Owned(s.own, EndpointInfo(e.guid, topic, typeName, e.writer));
    if t == topic && writer == e.writer {
      assert VisibleOn(c, t, writer) == VisibleOn(s.cache, t, writer) + {entry};
    } else {
      assert VisibleOn(c, t, writer) == VisibleOn(s.cache, t, writer);
    }
  }
}
