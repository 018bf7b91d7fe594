/** One context as a value: the local node table, the context's own graph cache, and the last sample
    written to the graph topic. The calls that change the table, and what every run of them keeps. */
module LocalSpec {
  import opened GraphTypes
  import opened CacheSpec
  import opened CacheRuns

  /** A slot of the table: the handle that owns it and what it announces. */
  datatype Entry<H> = Entry(owner: H, info: NodeInfo)

  datatype Context<H> = Context(
    own: Guid,
    table: seq<Entry<H>>,
    cache: Cache,
    wire: Option<Snapshot>,      // the last sample that dds_write took
    lastPublish: Option<Ret>)    // the result of the last publish, if there was one

  datatype Outcome<H> = Outcome(context: Context<H>, ret: Ret)

  datatype Call<H> =
    | AddNode(node: H, name: string, namespace_: string)
    | RemoveNode(node: H)
    | AddEndpoint(node: H, guid: Guid, writer: bool)
    | RemoveEndpoint(node: H, guid: Guid, writer: bool)

  function Infos<H>(table: seq<Entry<H>>): (r: seq<NodeInfo>)
    ensures |r| == |table|
    ensures forall i :: 0 <= i < |r| ==> r[i] == table[i].info
  {
    seq(|table|, i requires 0 <= i < |table| => table[i].info)
  }

  /** The slot of a handle, or the length of the table. */
  function SlotOf<H(==)>(table: seq<Entry<H>>, node: H): (i: nat)
    ensures i <= |table|
    ensures i < |table| ==> table[i].owner == node
    ensures forall k :: 0 <= k < i ==> table[k].owner != node
  {
    if table == [] || table[0].owner == node then 0 else 1 + SlotOf(table[1..], node)
  }

  function Announcement<H>(s: Context<H>): Snapshot {
    Snapshot(s.own, Infos(s.table))
  }

  /** Publishing writes the whole table, and on success also feeds it to the own cache. */
  function Publish<H>(limits: Limits, s: Context<H>, writeOk: bool): Context<H> {
    var event := SnapshotTaken(Announcement(s));
    if !writeOk then s.(lastPublish := Some(Error))
    else s.(cache := Step(limits, s.cache, event),
            wire := Some(Announcement(s)),
            lastPublish := Some(if Accepts(limits, s.cache, event) then Ok else Error))
  }

  function PublishChange<H>(limits: Limits, s: Context<H>, table: seq<Entry<H>>, writeOk: bool, rollBack: bool): Outcome<H> {
    var p := Publish(limits, s.(table := table), writeOk);
    if p.lastPublish == Some(Ok) then Outcome(p, Ok)
    else Outcome(if rollBack then p.(table := s.table) else p, Error)
  }

  /** The checks made before anything is published: Ok when the call goes on to publish. */
  function Check<H(==)>(limits: Limits, table: seq<Entry<H>>, call: Call<H>): Ret {
    var i := SlotOf(table, call.node);
    match call
    case AddNode(_, name, namespace_) =>
      if |name| > GRAPH_STRING_BOUND || |namespace_| > GRAPH_STRING_BOUND then InvalidArgument
      else if |table| == limits.maxNodes then Error
      else Ok
    case RemoveNode(_) =>
      if i == |table| || table[i].info.readers != [] || table[i].info.writers != [] then InvalidArgument else Ok
    case AddEndpoint(_, _, writer) =>
      if i == |table| then InvalidArgument
      else if |table[i].info.Gids(writer)| == limits.maxEndpointsPerNode then Error
      else Ok
    case RemoveEndpoint(_, guid, writer) =>
      if i == |table| || guid !in table[i].info.Gids(writer) then InvalidArgument else Ok
  }

  /** The table that a call publishes. */
  function Changed<H(==)>(table: seq<Entry<H>>, call: Call<H>): seq<Entry<H>> {
    var i := SlotOf(table, call.node);
    match call
    case AddNode(node, name, namespace_) => table + [Entry(node, NodeInfo(name, namespace_, [], []))]
    case RemoveNode(_) => if i < |table| then RemoveAt(table, i) else table
    case AddEndpoint(_, guid, writer) =>
      if i < |table| then WithList(table, i, writer, table[i].info.Gids(writer) + [guid]) else table
    case RemoveEndpoint(_, guid, writer) =>
      if i < |table| then WithList(table, i, writer, WithoutFirst(table[i].info.Gids(writer), guid)) else table
  }

  function WithoutFirst(gids: seq<Guid>, guid: Guid): seq<Guid> {
    var k := IndexOf(gids, guid);
    if k < |gids| then RemoveAt(gids, k) else gids
  }

  /** Additions are rolled back when the publish fails; removals are not. */
  predicate RollsBack<H>(call: Call<H>) {
    call.AddNode? || call.AddEndpoint?
  }

  function Perform<H(==)>(limits: Limits, s: Context<H>, call: Call<H>, writeOk: bool): Outcome<H> {
    if Check(limits, s.table, call) != Ok then Outcome(s, Check(limits, s.table, call))
    else PublishChange(limits, s, Changed(s.table, call), writeOk, RollsBack(call))
  }

  function WithList<H>(table: seq<Entry<H>>, i: nat, writer: bool, gids: seq<Guid>): seq<Entry<H>>
    requires i < |table|
  {
    table[i := table[i].(info := table[i].info.WithGids(writer, gids))]
  }

  /** Cache events that do not come from the own announcements: discovery of other participants, and
      the own endpoints' entries. The callbacks never pass on the others. */
  predicate Foreign(own: Guid, e: Event) {
    e != ParticipantGone(own) && !SnapshotOf(e, own)
  }

  function Receive<H>(limits: Limits, s: Context<H>, e: Event): Context<H> {
    s.(cache := Step(limits, s.cache, e))
  }

  /** A context as rmw_init leaves it. */
  function Initial<H>(limits: Limits, own: Guid): Context<H> {
    Context(own, [], Step(limits, EMPTY_CACHE, ParticipantAlive(own)), None, None)
  }

  // ---------- the invariant ----------

  ghost predicate DistinctOwners<H>(table: seq<Entry<H>>) {
    forall i, j :: 0 <= i < j < |table| ==> table[i].owner != table[j].owner
  }

  ghost predicate InSync<H>(s: Context<H>) {
    s.wire == Some(Announcement(s)) && Of(s.cache.nodes, s.own) == Infos(s.table)
  }

  ghost predicate LocalInv<H>(limits: Limits, s: Context<H>) {
    Inv(limits, s.cache) && s.own in s.cache.participants &&
    |s.table| <= limits.maxNodes && DistinctOwners(s.table) &&
    (forall i :: 0 <= i < |s.table| ==> s.table[i].info.Fits(limits)) &&
    |s.table| <= |Of(s.cache.nodes, s.own)| &&
    (s.wire.Some? ==> s.wire.value.participant == s.own) &&
    (s.lastPublish == Some(Ok) ==> InSync(s))
  }

  lemma {:induction false} InitialInv<H>(limits: Limits, own: Guid)
    ensures LocalInv(limits, Initial<H>(limits, own))
  {
    StepKeepsInv(limits, EMPTY_CACHE, ParticipantAlive(own));
  }

  /** Publishing a table that is at most as long as what the own cache already holds for the own
      participant cannot be refused by the cache, whatever the limits and the remote traffic. */
  lemma {:induction false} NoLongerTableIsTaken<H>(limits: Limits, s: Context<H>, table: seq<Entry<H>>)
    requires LocalInv(limits, s) && |table| <= |Of(s.cache.nodes, s.own)|
    requires forall i :: 0 <= i < |table| ==> table[i].info.Fits(limits)
    ensures Accepts(limits, s.cache, SnapshotTaken(Announcement(s.(table := table))))
  {
    SplitSizes(s.cache.nodes, s.own);
  }

  lemma {:induction false} PublishChangeKeepsInv<H>(limits: Limits, s: Context<H>, table: seq<Entry<H>>, writeOk: bool, rollBack: bool)
    requires LocalInv(limits, s)
    requires |table| <= limits.maxNodes && DistinctOwners(table)
    requires forall i :: 0 <= i < |table| ==> table[i].info.Fits(limits)
    requires !rollBack ==> |table| <= |s.table|
    ensures LocalInv(limits, PublishChange(limits, s, table, writeOk, rollBack).context)
  {
    var a := Announcement(s.(table := table));
    StepKeepsInv(limits, s.cache, SnapshotTaken(a));
    if Accepts(limits, s.cache, SnapshotTaken(a)) {
      SnapshotReplacesExactly(limits, s.cache, a, s.own);
    }
  }

  ghost predicate WellFormed<H>(limits: Limits, table: seq<Entry<H>>) {
    DistinctOwners(table) && forall i :: 0 <= i < |table| ==> table[i].info.Fits(limits)
  }

  lemma {:induction false} ListUpdateIsWellFormed<H>(limits: Limits, table: seq<Entry<H>>, i: nat, writer: bool, gids: seq<Guid>)
    requires WellFormed(limits, table) && i < |table| && |gids| <= limits.maxEndpointsPerNode
    ensures WellFormed(limits, WithList(table, i, writer, gids))
  {
    var t := WithList(table, i, writer, gids);
    assert forall k :: 0 <= k < |t| ==> t[k].owner == table[k].owner && (k != i ==> t[k] == table[k]);
  }

  lemma {:induction false} RemovalIsWellFormed<H>(limits: Limits, table: seq<Entry<H>>, i: nat)
    requires WellFormed(limits, table) && i < |table|
    ensures WellFormed(limits, RemoveAt(table, i))
  {
    var t := RemoveAt(table, i);
    assert forall k :: 0 <= k < |t| ==> t[k] == table[if k < i then k else k + 1];
  }

  lemma {:induction false} AppendIsWellFormed<H>(limits: Limits, table: seq<Entry<H>>, e: Entry<H>)
    requires WellFormed(limits, table) && SlotOf(table, e.owner) == |table| && e.info.Fits(limits)
    ensures WellFormed(limits, table + [e])
  {
    assert forall k :: 0 <= k < |table| ==> (table + [e])[k] == table[k];
  }

  /** The table a call publishes is well formed, and longer than before only for a node addition. */
  lemma {:induction false} ChangedIsWellFormed<H>(limits: Limits, s: Context<H>, call: Call<H>)
    requires LocalInv(limits, s) && Check(limits, s.table, call) == Ok
    requires call.AddNode? ==> SlotOf(s.table, call.node) == |s.table|
    ensures var t := Changed(s.table, call);
      WellFormed(limits, t) && |t| <= limits.maxNodes && (!call.AddNode? ==> |t| <= |s.table|)
  {
    hide Inv, InSync, DistinctOwners;
    var i, table := SlotOf(s.table, call.node), s.table;
    match call
    case AddNode(node, name, namespace_) => AppendIsWellFormed(limits, table, Entry(node, NodeInfo(name, namespace_, [], [])));
    case RemoveNode(_) => RemovalIsWellFormed(limits, table, i);
    case AddEndpoint(_, guid, writer) => ListUpdateIsWellFormed(limits, table, i, writer, table[i].info.Gids(writer) + [guid]);
    case RemoveEndpoint(_, guid, writer) => ListUpdateIsWellFormed(limits, table, i, writer, WithoutFirst(table[i].info.Gids(writer), guid));
  }

  /** Every call, successful or not, keeps the invariant. A node is only ever added under a handle that
      is not in the table. */
  lemma {:induction false} PerformKeepsInv<H>(limits: Limits, s: Context<H>, call: Call<H>, writeOk: bool)
    requires LocalInv(limits, s)
    requires call.AddNode? ==> SlotOf(s.table, call.node) == |s.table|
    ensures LocalInv(limits, Perform(limits, s, call, writeOk).context)
  {
    if Check(limits, s.table, call) == Ok {
      ChangedIsWellFormed(limits, s, call);
      PublishChangeKeepsInv(limits, s, Changed(s.table, call), writeOk, RollsBack(call));
    }
  }

  lemma {:induction false} ReceiveKeepsInv<H>(limits: Limits, s: Context<H>, e: Event)
    requires LocalInv(limits, s) && Foreign(s.own, e)
    ensures LocalInv(limits, Receive(limits, s, e))
    ensures Of(Receive(limits, s, e).cache.nodes, s.own) == Of(s.cache.nodes, s.own)
  {
    StepKeepsInv(limits, s.cache, e);
    NodesAfterStep(limits, s.cache, e, s.own);
    ParticipantAfterStep(limits, s.cache, e, s.own);
  }

  // ---------- what can fail ----------

  /** With a working writer, the cache refuses only node additions: any other call succeeds as soon as its
      own checks pass, that is, a removal with valid arguments always succeeds, and an endpoint addition
      fails only at the local list limit. */
  lemma {:induction false} OnlyNodeAddsAreRefused<H>(limits: Limits, s: Context<H>, call: Call<H>)
    requires LocalInv(limits, s) && !call.AddNode?
    ensures Perform(limits, s, call, true).ret == Check(limits, s.table, call)
  {
    if Check(limits, s.table, call) == Ok {
      ChangedIsWellFormed(limits, s, call);
      NoLongerTableIsTaken(limits, s, Changed(s.table, call));
    }
  }

  /** With a working writer, and within the local limits, a node addition fails exactly when the cached
      nodes of all other participants leave no room for the longer table. */
  lemma {:induction false} NodeAddRefusedExactly<H>(limits: Limits, s: Context<H>, node: H, name: string, namespace_: string)
    requires LocalInv(limits, s) && |s.table| < limits.maxNodes
    requires |name| <= GRAPH_STRING_BOUND && |namespace_| <= GRAPH_STRING_BOUND
    ensures Perform(limits, s, AddNode(node, name, namespace_), true).ret != Ok <==>
            |Without(s.cache.nodes, s.own)| + |s.table| + 1 > limits.cacheMaxNodes
  {
  }

  // ---------- what is on the wire ----------

  /** "The last written sample is the table" is not kept by every call. Starting from it, it holds after a
      call except in exactly two cases: a removal that took effect locally but could not be written, and
      a node addition that was written but then rolled back because the own cache refused it. */
  lemma {:induction false} WireMatchesExcept<H>(limits: Limits, s: Context<H>, call: Call<H>, writeOk: bool)
    requires LocalInv(limits, s) && s.wire == Some(Announcement(s))
    ensures var o := Perform(limits, s, call, writeOk);
      o.context.wire != Some(Announcement(o.context)) <==>
        Check(limits, s.table, call) == Ok &&
        (if RollsBack(call) then call.AddNode? && writeOk && |Without(s.cache.nodes, s.own)| + |s.table| + 1 > limits.cacheMaxNodes
         else !writeOk)
  {
    if Check(limits, s.table, call) == Ok {
      ChangeIsVisible(s.table, call);
      if call.AddNode? {
        NodeAddRefusedExactly(limits, s, call.node, call.name, call.namespace_);
      } else {
        OnlyNodeAddsAreRefused(limits, s, call);
      }
    }
  }

  /** A node addition that is written announces the node whether or not it is then kept. */
  lemma {:induction false} AnnouncedNode<H>(limits: Limits, s: Context<H>, node: H, name: string, namespace_: string)
    requires |s.table| < limits.maxNodes && |name| <= GRAPH_STRING_BOUND && |namespace_| <= GRAPH_STRING_BOUND
    ensures var o := Perform(limits, s, AddNode(node, name, namespace_), true);
      o.context.wire == Some(Snapshot(s.own, Infos(s.table + [Entry(node, NodeInfo(name, namespace_, [], []))]))) &&
      (o.ret == Ok || o.ret == Error) &&
      o.context.table == if o.ret == Ok then s.table + [Entry(node, NodeInfo(name, namespace_, [], []))] else s.table
  {
    hide Step, Accepts;
  }

  /** The second case can happen: with room for two local nodes but one cached node, the second node is
      written to the graph topic and then given up locally, so peers are told of a node that does not exist. */
  lemma {:induction false} WireCanRunAhead()
    ensures var limits: Limits := Limits(2, 1, 1, 1, 1);
      var first := Perform(limits, Initial<nat>(limits, Guid(1)), AddNode(1, "a", "/"), true);
      var second := Perform(limits, first.context, AddNode(2, "b", "/"), true);
      first.ret == Ok && second.ret == Error && |second.context.table| == 1 &&
      second.context.wire.Some? && |second.context.wire.value.nodes| == 2
  {
    hide Perform, LocalInv;
    var limits: Limits := Limits(2, 1, 1, 1, 1);
    var start := Initial<nat>(limits, Guid(1));
    InitialInv<nat>(limits, Guid(1));
    NodeAddRefusedExactly(limits, start, 1, "a", "/");
    AnnouncedNode(limits, start, 1, "a", "/");
    var first := Perform(limits, start, AddNode(1, "a", "/"), true);
    PerformKeepsInv(limits, start, AddNode(1, "a", "/"), true);
    NodeAddRefusedExactly(limits, first.context, 2, "b", "/");
    AnnouncedNode(limits, first.context, 2, "b", "/");
  }

  /** No effective call leaves the announced node list as it was. */
  lemma {:induction false} ChangeIsVisible<H>(table: seq<Entry<H>>, call: Call<H>)
    requires var i := SlotOf(table, call.node);
      call.AddNode? || (i < |table| && (call.RemoveEndpoint? ==> call.guid in table[i].info.Gids(call.writer)))
    ensures Infos(Changed(table, call)) != Infos(table)
  {
    var i, t := SlotOf(table, call.node), Changed(table, call);
    if call.AddNode? || call.RemoveNode? {
      assert |Infos(t)| != |Infos(table)|;
    } else {
      assert |Infos(t)[i].Gids(call.writer)| != |Infos(table)[i].Gids(call.writer)|;
    }
  }

  // ---------- handles ----------

  /** What a handle resolves to. */
  function Lookup<H(==)>(table: seq<Entry<H>>, node: H): Option<NodeInfo> {
    var i := SlotOf(table, node);
    if i < |table| then Some(table[i].info) else None
  }

  /** Whether a call changed the table in the end. */
  predicate TookEffect<H(==)>(call: Call<H>, ret: Ret) {
    if call.AddNode? || call.AddEndpoint? then ret == Ok else ret != InvalidArgument
  }

  lemma {:induction false} SlotIsUnique<H>(table: seq<Entry<H>>, i: nat)
    requires i < |table| && DistinctOwners(table)
    ensures SlotOf(table, table[i].owner) == i
  {
  }

  lemma {:induction false} OwnersAfterRemove<H>(table: seq<Entry<H>>, i: nat)
    requires i < |table| && DistinctOwners(table)
    ensures |RemoveAt(table, i)| == |table| - 1 && DistinctOwners(RemoveAt(table, i))
    ensures forall k :: 0 <= k < i ==> RemoveAt(table, i)[k] == table[k]
    ensures forall k :: i < k < |table| ==> RemoveAt(table, i)[k - 1] == table[k]
  {
    var t := RemoveAt(table, i);
    forall k | i < k < |table| ensures t[k - 1] == table[k] {
    }
    forall a, b | 0 <= a < b < |t| ensures t[a].owner != t[b].owner {
      assert t[a] == table[if a < i then a else a + 1];
      assert t[b] == table[if b < i then b else b + 1];
    }
  }

  lemma {:induction false} LookupAfterRemove<H>(table: seq<Entry<H>>, i: nat, h: H)
    requires i < |table| && DistinctOwners(table)
    ensures DistinctOwners(RemoveAt(table, i))
    ensures Lookup(RemoveAt(table, i), h) == if h == table[i].owner then None else Lookup(table, h)
  {
    hide RemoveAt;
    var t, j := RemoveAt(table, i), SlotOf(table, h);
    OwnersAfterRemove(table, i);
    if j < |table| && h != table[i].owner {
      SlotIsUnique(t, if j < i then j else j - 1);
    } else {
      forall m | 0 <= m < |t| ensures t[m].owner != h {
        assert t[m] == table[if m < i then m else m + 1];
      }
    }
  }

  /** Rolling back an endpoint addition takes its entry off the end of the list again. */
  lemma {:induction false} AppendedList<H>(limits: Limits, table: seq<Entry<H>>, node: H, guid: Guid, writer: bool)
    requires Check(limits, table, AddEndpoint(node, guid, writer)) == Ok
    ensures var t, i := Changed(table, AddEndpoint(node, guid, writer)), SlotOf(table, node);
      SlotOf(t, node) == i < |t| && t[i].owner == node && |t[i].info.Gids(writer)| > 0 &&
      WithList(t, i, writer, t[i].info.Gids(writer)[..|t[i].info.Gids(writer)| - 1]) == table
  {
    var t, i := Changed(table, AddEndpoint(node, guid, writer)), SlotOf(table, node);
    var gids := table[i].info.Gids(writer);
    assert (gids + [guid])[..|gids + [guid]| - 1] == gids;
    assert forall k :: 0 <= k < |table| ==> t[k].owner == table[k].owner;
    var j := SlotOf(t, node);
    assert j <= i;
  }

  lemma {:induction false} LookupAfterUpdate<H>(table: seq<Entry<H>>, i: nat, info: NodeInfo, h: H)
    requires i < |table| && DistinctOwners(table)
    ensures var t := table[i := table[i].(info := info)];
      DistinctOwners(t) && Lookup(t, h) == if h == table[i].owner then Some(info) else Lookup(table, h)
  {
    var t, j := table[i := table[i].(info := info)], SlotOf(table, h);
    if j < |table| {
      SlotIsUnique(t, j);
    }
  }

  lemma {:induction false} LookupAfterAppend<H>(table: seq<Entry<H>>, e: Entry<H>, h: H)
    requires SlotOf(table, e.owner) == |table| && DistinctOwners(table)
    ensures var t := table + [e];
      DistinctOwners(t) && Lookup(t, h) == if h == e.owner then Some(e.info) else Lookup(table, h)
  {
    var t, j := table + [e], SlotOf(table, h);
    if j < |table| {
      SlotIsUnique(t, j);
    } else if h == e.owner {
      SlotIsUnique(t, |table|);
    }
  }

  /** What an effective call makes of the node its handle resolves to. */
  function Resolved<H>(was: Option<NodeInfo>, call: Call<H>): Option<NodeInfo> {
    match call
    case AddNode(_, name, namespace_) => Some(NodeInfo(name, namespace_, [], []))
    case RemoveNode(_) => None
    case AddEndpoint(_, guid, writer) =>
      if was.Some? then Some(was.value.WithGids(writer, was.value.Gids(writer) + [guid])) else None
    case RemoveEndpoint(_, guid, writer) =>
      if was.Some? then Some(was.value.WithGids(writer, WithoutFirst(was.value.Gids(writer), guid))) else None
  }

  lemma {:induction false} LookupAfterChange<H>(table: seq<Entry<H>>, call: Call<H>, h: H)
    requires DistinctOwners(table) && (call.AddNode? ==> SlotOf(table, call.node) == |table|)
    ensures Lookup(Changed(table, call), h) ==
            if h == call.node then Resolved(Lookup(table, h), call) else Lookup(table, h)
  {
    var i := SlotOf(table, call.node);
    match call
    case AddNode(node, name, namespace_) =>
      LookupAfterAppend(table, Entry(node, NodeInfo(name, namespace_, [], [])), h);
    case RemoveNode(_) =>
      if i < |table| {
        LookupAfterRemove(table, i, h);
      }
    case AddEndpoint(_, guid, writer) =>
      if i < |table| {
        LookupAfterUpdate(table, i, table[i].info.WithGids(writer, table[i].info.Gids(writer) + [guid]), h);
      }
    case RemoveEndpoint(_, guid, writer) =>
      if i < |table| {
        LookupAfterUpdate(table, i, table[i].info.WithGids(writer, WithoutFirst(table[i].info.Gids(writer), guid)), h);
      }
  }

  /** Handles are stable: a call changes what its own handle resolves to, and nothing about any other handle,
      although removals move the other nodes to other slots. A removed handle resolves to nothing. */
  lemma {:induction false} HandlesAreStable<H>(limits: Limits, s: Context<H>, call: Call<H>, writeOk: bool, h: H)
    requires LocalInv(limits, s)
    requires call.AddNode? ==> SlotOf(s.table, call.node) == |s.table|
    ensures var o, was := Perform(limits, s, call, writeOk), Lookup(s.table, h);
      Lookup(o.context.table, h) == if h == call.node && TookEffect(call, o.ret) then Resolved(was, call) else was
  {
    hide Changed, Lookup, LocalInv, Step, Accepts, Resolved;
    assert DistinctOwners(s.table) by {
      HandlesAreDistinct(limits, s);
    }
    LookupAfterChange(s.table, call, h);
  }

  lemma {:induction false} HandlesAreDistinct<H>(limits: Limits, s: Context<H>)
    requires LocalInv(limits, s)
    ensures DistinctOwners(s.table)
  {
  }

  /** A handle that does not resolve is refused by every call that takes one. */
  lemma {:induction false} UnknownHandleIsRefused<H>(limits: Limits, s: Context<H>, call: Call<H>, writeOk: bool)
    requires !call.AddNode? && Lookup(s.table, call.node).None?
    ensures Perform(limits, s, call, writeOk) == Outcome(s, InvalidArgument)
  {
  }

  /** A handle resolves to what the table holds for it. */
  lemma {:induction false} LookupIs<H>(table: seq<Entry<H>>, node: H, info: NodeInfo)
    requires DistinctOwners(table)
    ensures Lookup(table, node) == Some(info) <==> Entry(node, info) in table
  {
    if Entry(node, info) in table {
      var i :| 0 <= i < |table| && table[i] == Entry(node, info);
      SlotIsUnique(table, i);
    }
    if Lookup(table, node) == Some(info) {
      assert table[SlotOf(table, node)] == Entry(node, info);
    }
  }

  // ---------- what callers are told ----------

  /** When a call succeeds and what else it returns, for every call and any write result: only the name bounds, the
      local limits, the room in the own cache, the write, and what the handle resolves to matter. */
  lemma {:induction false} CallReturns<H>(limits: Limits, s: Context<H>, call: Call<H>, writeOk: bool)
    requires LocalInv(limits, s)
    ensures var ret, was := Perform(limits, s, call, writeOk).ret, Lookup(s.table, call.node);
      match call
      case AddNode(_, name, namespace_) =>
        ret == if |name| > 256 || |namespace_| > 256 then InvalidArgument
               else if |s.table| == limits.maxNodes || !writeOk ||
                       |s.cache.nodes| - |Of(s.cache.nodes, s.own)| + |s.table| + 1 > limits.cacheMaxNodes then Error
               else Ok
      case RemoveNode(_) =>
        ret == if was.None? || was.value.readers != [] || was.value.writers != [] then InvalidArgument
               else if writeOk then Ok else Error
      case AddEndpoint(_, _, writer) =>
        ret == if was.None? then InvalidArgument
               else if |if writer then was.value.writers else was.value.readers| == limits.maxEndpointsPerNode || !writeOk then Error
               else Ok
      case RemoveEndpoint(_, guid, writer) =>
        ret == if was.None? || guid !in (if writer then was.value.writers else was.value.readers) then InvalidArgument
               else if writeOk then Ok else Error
  {
    hide Inv, Changed, Step, Accepts, Of, Without;
    SplitSizes(s.cache.nodes, s.own);
    FailedWriteReturns(limits, s, call);
    if writeOk {
      match call {
        case AddNode(node, name, namespace_) =>
          if Check(limits, s.table, call) == Ok {
            NodeAddRefusedExactly(limits, s, node, name, namespace_);
            AnnouncedNode(limits, s, node, name, namespace_);
          }
        case _ => OnlyNodeAddsAreRefused(limits, s, call);
      }
    }
  }

  lemma {:induction false} FailedWriteReturns<H>(limits: Limits, s: Context<H>, call: Call<H>)
    ensures Perform(limits, s, call, false).ret == if Check(limits, s.table, call) != Ok then Check(limits, s.table, call) else Error
    ensures forall writeOk :: Check(limits, s.table, call) != Ok ==> Perform(limits, s, call, writeOk).ret == Check(limits, s.table, call)
  {
    hide Check, Changed, Step, Accepts;
  }
}
