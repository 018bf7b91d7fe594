/** Creating and destroying publishers and subscriptions in an arbitrary context: when creation succeeds, and what
    destruction takes away. */
module EndpointLaws {
  import opened GraphTypes
  import opened CacheSpec
  import opened CacheRuns
  import opened Effects
  import opened QuerySpec
  import opened LocalSpec
  import opened Lifecycle

  // ---------- creation ----------

  /** Creation succeeds iff the announcement can be written, the handle resolves, its list is not full, both
      names are within the bound, and the GUID is cached or there is room for one more endpoint. */
  lemma {:induction false} CreateSucceedsExactly<H>(limits: Limits, s: Context<H>, e: Endpoint<H>, topic: string, typeName: string,
                                                    writeOk: bool, undoOk: bool)
    requires LocalInv(limits, s)
    ensures CreateEndpoint(limits, s, e, topic, typeName, writeOk, undoOk).ret == Ok <==>
            writeOk && Lookup(s.table, e.node).Some? &&
            |Lookup(s.table, e.node).value.Gids(e.writer)| != limits.maxEndpointsPerNode &&
            |topic| <= 256 && |typeName| <= 256 &&
            ((exists d :: d in s.cache.endpoints && d.item.guid == e.guid) || |s.cache.endpoints| < limits.cacheMaxEndpoints)
  {
    hide LocalInv, Perform, Lookup, Accepts;
    var add := AddEndpoint(e.node, e.guid, e.writer);
    var entered := Perform(limits, s, add, writeOk).context;
    CallReturns(limits, s, add, writeOk);
    PerformKeepsInv(limits, s, add, writeOk);
    CallKeepsEndpoints(limits, s, add, writeOk);
    CacheInv(limits, entered);
    TakenIffRoom(limits, entered.cache, EndpointAlive(e.guid, s.own, Text(topic), Text(typeName), e.writer));
  }

  lemma {:induction false} CallKeepsEndpoints<H>(limits: Limits, s: Context<H>, call: Call<H>, writeOk: bool)
    ensures Perform(limits, s, call, writeOk).context.cache.endpoints == s.cache.endpoints
  {
    hide Accepts, Changed, Check;
  }

  lemma {:induction false} CacheInv<H>(limits: Limits, s: Context<H>)
    requires LocalInv(limits, s)
    ensures Inv(limits, s.cache)
  {
  }

  // ---------- destruction ----------

  /** Whatever else exists and whatever the write does, exactly the entry with the endpoint's GUID leaves the cache. */
  lemma {:induction false} DestroyDropsOneEntry<H>(limits: Limits, s: Context<H>, e: Endpoint<H>, writeOk: bool, d: CachedEndpoint)
    requires LocalInv(limits, s)
    ensures d in DestroyEndpoint(limits, s, e, writeOk).context.cache.endpoints <==> d in s.cache.endpoints && d.item.guid != e.guid
  {
    hide Perform, Inv;
    var received := Receive(limits, s, EndpointGone(e.guid));
    EventHasEffect(limits, s.cache, EndpointGone(e.guid));
    CallKeepsEndpoints(limits, received, RemoveEndpoint(e.node, e.guid, e.writer), writeOk);
  }

  /** The table loses exactly that GUID, from that list, also when the removal cannot be written; if the handle is
      unknown or does not list the GUID, the call is refused and the table is as before. */
  lemma {:induction false} DestroyTakesOneGuid<H>(limits: Limits, s: Context<H>, e: Endpoint<H>, writeOk: bool, h: H)
    requires LocalInv(limits, s)
    ensures var o, was := DestroyEndpoint(limits, s, e, writeOk), Lookup(s.table, h);
      var is_ := Lookup(o.context.table, h);
      if h != e.node || was.None? || e.guid !in was.value.Gids(e.writer)
      then (is_ == was && (h == e.node ==> o.ret == InvalidArgument))
      else (o.ret == (if writeOk then Ok else Error) && is_.Some? &&
        is_.value.name == was.value.name && is_.value.namespace_ == was.value.namespace_ &&
        is_.value.Gids(!e.writer) == was.value.Gids(!e.writer) &&
        exists k :: 0 <= k < |was.value.Gids(e.writer)| && was.value.Gids(e.writer)[k] == e.guid &&
          is_.value.Gids(e.writer) == was.value.Gids(e.writer)[..k] + was.value.Gids(e.writer)[k + 1..])
  {
    hide LocalInv, Perform, Lookup, Step;
    var received, remove := Receive(limits, s, EndpointGone(e.guid)), RemoveEndpoint(e.node, e.guid, e.writer);
    GoneIsForeign(limits, s, e.guid);
    CallReturns(limits, received, remove, writeOk);
    HandlesAreStable(limits, received, remove, writeOk, h);
    var was := Lookup(s.table, h);
    if h == e.node && was.Some? && e.guid in was.value.Gids(e.writer) {
      var gids := was.value.Gids(e.writer);
      assert gids[IndexOf(gids, e.guid)] == e.guid;
    }
  }

  lemma {:induction false} GoneIsForeign<H>(limits: Limits, s: Context<H>, g: Guid)
    requires LocalInv(limits, s)
    ensures LocalInv(limits, Receive(limits, s, EndpointGone(g)))
    ensures Receive(limits, s, EndpointGone(g)).cache.nodes == s.cache.nodes
    ensures Receive(limits, s, EndpointGone(g)).table == s.table && Receive(limits, s, EndpointGone(g)).own == s.own
  {
    ReceiveKeepsInv(limits, s, EndpointGone(g));
  }

  /** Taking one GUID from a list leaves every other GUID listed as it was. */
  lemma {:induction false} OthersListedAfterLeave<H>(table: seq<Entry<H>>, call: Call<H>, g: Guid, writer: bool)
    requires call.RemoveEndpoint? && g != call.guid
    ensures (exists info :: info in Infos(Changed(table, call)) && g in info.Gids(writer)) <==>
            (exists info :: info in Infos(table) && g in info.Gids(writer))
  {
    var t := Changed(table, call);
    forall k | 0 <= k < |t| ensures g in Infos(t)[k].Gids(writer) <==> g in Infos(table)[k].Gids(writer) {
      if k == SlotOf(table, call.node) {
        OthersStay(table[k].info.Gids(call.writer), call.guid, g);
      }
    }
    if info :| info in Infos(t) && g in info.Gids(writer) {
      var k :| 0 <= k < |t| && Infos(t)[k] == info;
      assert Infos(table)[k] in Infos(table);
    }
    if info :| info in Infos(table) && g in info.Gids(writer) {
      var k :| 0 <= k < |table| && Infos(table)[k] == info;
      assert Infos(t)[k] in Infos(t);
    }
  }

  lemma {:induction false} OthersStay(gids: seq<Guid>, gone: Guid, g: Guid)
    requires g != gone
    ensures g in WithoutFirst(gids, gone) <==> g in gids
  {
    var i := IndexOf(gids, gone);
    if i < |gids| {
      assert gids == gids[..i] + [gids[i]] + gids[i + 1..];
    }
  }

  /** What the own cache holds of a participant's nodes after a destruction. */
  lemma {:induction false} DestroyedNodes<H>(limits: Limits, s: Context<H>, e: Endpoint<H>, writeOk: bool, p: Guid)
    requires LocalInv(limits, s)
    ensures var c, remove := DestroyEndpoint(limits, s, e, writeOk).context.cache, RemoveEndpoint(e.node, e.guid, e.writer);
      Of(c.nodes, p) == if p == s.own && writeOk && Check(limits, s.table, remove) == Ok then Infos(Changed(s.table, remove)) else Of(s.cache.nodes, p)
  {
    hide LocalInv, Check, Changed, Step, Accepts;
    var received, remove := Receive(limits, s, EndpointGone(e.guid)), RemoveEndpoint(e.node, e.guid, e.writer);
    GoneIsForeign(limits, s, e.guid);
    if writeOk && Check(limits, s.table, remove) == Ok {
      OnlyNodeAddsAreRefused(limits, received, remove);
      PublishedNodes(limits, received, remove, p);
    }
  }

  lemma {:induction false} DestroyKeepsAssociation<H>(limits: Limits, s: Context<H>, e: Endpoint<H>, writeOk: bool, d: CachedEndpoint)
    requires LocalInv(limits, s) && (writeOk ==> Of(s.cache.nodes, s.own) == Infos(s.table)) && d.item.guid != e.guid
    ensures Associated(DestroyEndpoint(limits, s, e, writeOk).context.cache, d) <==> Associated(s.cache, d)
  {
    hide LocalInv, Check, Changed, DestroyEndpoint, Associated, Infos;
    var c := DestroyEndpoint(limits, s, e, writeOk).context.cache;
    DestroyedNodes(limits, s, e, writeOk, d.participant);
    AssociatedByOwner(c, d);
    AssociatedByOwner(s.cache, d);
    OthersListedAfterLeave(s.table, RemoveEndpoint(e.node, e.guid, e.writer), d.item.guid, d.item.writer);
  }

  /** Destruction hides what has the endpoint's GUID and nothing else: with a failing write always, and with a working
      one when the own cache holds the table. */
  lemma {:induction false} DestroyHidesOneGuid<H>(limits: Limits, s: Context<H>, e: Endpoint<H>, writeOk: bool)
    requires LocalInv(limits, s) && (writeOk ==> Of(s.cache.nodes, s.own) == Infos(s.table))
    ensures Visible(DestroyEndpoint(limits, s, e, writeOk).context.cache) == set d | d in Visible(s.cache) && d.item.guid != e.guid
  {
    hide LocalInv, DestroyEndpoint, Associated;
    var c := DestroyEndpoint(limits, s, e, writeOk).context.cache;
    forall d: CachedEndpoint ensures d in Visible(c) <==> d in Visible(s.cache) && d.item.guid != e.guid {
      DestroyDropsOneEntry(limits, s, e, writeOk, d);
      if d.item.guid != e.guid {
        DestroyKeepsAssociation(limits, s, e, writeOk, d);
      }
    }
  }

  /** Destroying an endpoint that exists, in any context whose cache holds its table: it succeeds, exactly its entry stops
      being visible, the count of its topic and direction falls by one, and no other count changes. */
  lemma {:induction false} DestroyLowersOneCount<H>(limits: Limits, s: Context<H>, e: Endpoint<H>, topic: string, typeName: string, t: string, writer: bool)
    requires LocalInv(limits, s) && Of(s.cache.nodes, s.own) == Infos(s.table)
    requires Lookup(s.table, e.node).Some? && e.guid in Lookup(s.table, e.node).value.Gids(e.writer)
    requires Owned(s.own, EndpointInfo(e.guid, topic, typeName, e.writer)) in s.cache.endpoints
    ensures var entry, o := Owned(s.own, EndpointInfo(e.guid, topic, typeName, e.writer)), DestroyEndpoint(limits, s, e, true);
      o.ret == Ok && entry in Visible(s.cache) && Visible(o.context.cache) == Visible(s.cache) - {entry} &&
      TopicCount(o.context.cache, t, writer) == TopicCount(s.cache, t, writer) - if t == topic && writer == e.writer then 1 else 0
  {
    hide LocalInv, DestroyEndpoint, Associated;
    var entry := Owned(s.own, EndpointInfo(e.guid, topic, typeName, e.writer));
    var c := DestroyEndpoint(limits, s, e, true).context.cache;
    DestroyTakesOneGuid(limits, s, e, true, e.node);
    DestroyHidesOneGuid(limits, s, e, true);
    ListedIsVisible(limits, s, e, entry);
    GuidsAreUnique(limits, s, entry);
    assert Visible(c) == Visible(s.cache) - {entry};
    if t == topic && writer == e.writer {
      assert VisibleOn(c, t, writer) == VisibleOn(s.cache, t, writer) - {entry};
      assert entry in VisibleOn(s.cache, t, writer);
    } else {
      assert VisibleOn(c, t, writer) == VisibleOn(s.cache, t, writer);
    }
  }

  lemma {:induction false} ListedIsVisible<H>(limits: Limits, s: Context<H>, e: Endpoint<H>, entry: CachedEndpoint)
    requires Of(s.cache.nodes, s.own) == Infos(s.table) && entry in s.cache.endpoints
    requires entry.participant == s.own && entry.item.guid == e.guid && entry.item.writer == e.writer
    requires Lookup(s.table, e.node).Some? && e.guid in Lookup(s.table, e.node).value.Gids(e.writer)
    ensures entry in Visible(s.cache)
  {
    AssociatedByOwner(s.cache, entry);
    assert Infos(s.table)[SlotOf(s.table, e.node)] in Of(s.cache.nodes, s.own);
  }

  lemma {:induction false} GuidsAreUnique<H>(limits: Limits, s: Context<H>, entry: CachedEndpoint)
    requires LocalInv(limits, s) && entry in s.cache.endpoints
    ensures forall d :: d in s.cache.endpoints && d.item.guid == entry.item.guid ==> d == entry
  {
    DistinctGuidsDistinctEndpoints(s.cache.endpoints);
  }
}
