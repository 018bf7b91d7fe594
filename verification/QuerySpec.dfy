/** What the graph queries are meant to answer: the join of cached endpoints with cached nodes. */
module QuerySpec {
  import opened GraphTypes
  import opened CacheSpec

  /** Some cached node of the endpoint's participant lists the endpoint's GUID. */
  predicate Associated(c: Cache, e: CachedEndpoint) {
    exists n :: n in c.nodes && n.participant == e.participant && e.item.guid in n.item.Gids(e.item.writer)
  }

  function Visible(c: Cache): set<CachedEndpoint> {
    set e | e in c.endpoints && Associated(c, e)
  }

  function VisibleOn(c: Cache, ddsTopic: string, writer: bool): set<CachedEndpoint> {
    set e | e in Visible(c) && e.item.topic == ddsTopic && e.item.writer == writer
  }

  /** The publisher (writer) or subscriber count of a DDS topic. */
  function TopicCount(c: Cache, ddsTopic: string, writer: bool): nat {
    |VisibleOn(c, ddsTopic, writer)|
  }

  /** Association only looks at the nodes of the endpoint's own participant. */
  lemma {:induction false} AssociatedByOwner(c: Cache, e: CachedEndpoint)
    ensures Associated(c, e) <==>
            exists info :: info in Of(c.nodes, e.participant) && e.item.guid in info.Gids(e.item.writer)
  {
    OfMembers(c.nodes, e.participant);
    if Associated(c, e) {
      var n :| n in c.nodes && n.participant == e.participant && e.item.guid in n.item.Gids(e.item.writer);
      assert n == Owned(e.participant, n.item);
    }
    if info :| info in Of(c.nodes, e.participant) && e.item.guid in info.Gids(e.item.writer) {
      assert Owned(e.participant, info) in c.nodes;
    }
  }
}
