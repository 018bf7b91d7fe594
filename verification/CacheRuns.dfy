/** Whole runs of the graph cache: what its contents say about the history of events, and that the
    order in which the events of different participants arrive does not matter. */
module CacheRuns {
  import opened GraphTypes
  import opened CacheSpec
  import opened QuerySpec

  type History = seq<Event>

  /** The cache after the first n events of h. */
  function After(limits: Limits, h: History, n: nat): Cache
    requires n <= |h|
  {
    if n == 0 then EMPTY_CACHE else Step(limits, After(limits, h, n - 1), h[n - 1])
  }

  predicate Taken(limits: Limits, h: History, i: nat)
    requires i < |h|
  {
    Accepts(limits, After(limits, h, i), h[i])
  }

  lemma {:induction false} RunKeepsInv(limits: Limits, h: History, n: nat)
    requires n <= |h|
    ensures Inv(limits, After(limits, h, n))
  {
    if n > 0 {
      RunKeepsInv(limits, h, n - 1);
      StepKeepsInv(limits, After(limits, h, n - 1), h[n - 1]);
    }
  }

  // ---------- refinement: the contents as a function of the history ----------

  predicate SnapshotOf(e: Event, p: Guid) {
    e.SnapshotTaken? && e.snapshot.participant == p
  }

  predicate UpsertOf(e: Event, g: Guid) {
    e.EndpointAlive? && e.guid == g
  }

  /** Event i is the last accepted snapshot of p among the first n, and p was not removed since. */
  ghost predicate LastSnapshot(limits: Limits, h: History, n: nat, p: Guid, i: nat)
    requires n <= |h|
    ensures LastSnapshot(limits, h, n, p, i) ==> i < n && SnapshotOf(h[i], p)
  {
    i < n && SnapshotOf(h[i], p) && Taken(limits, h, i) &&
    forall j :: i < j < n ==> h[j] != ParticipantGone(p) && !(SnapshotOf(h[j], p) && Taken(limits, h, j))
  }

  /** Event i is the last accepted announcement of endpoint g among the first n, and since then
      neither g nor the participant announced with it was removed. */
  ghost predicate LastUpsert(limits: Limits, h: History, n: nat, g: Guid, i: nat)
    requires n <= |h|
  {
    i < n && UpsertOf(h[i], g) && Taken(limits, h, i) &&
    forall j :: i < j < n ==>
      h[j] != EndpointGone(g) && h[j] != ParticipantGone(h[i].owner) && !(UpsertOf(h[j], g) && Taken(limits, h, j))
  }

  /** Event i is an accepted sign of life of p, and p was not removed since. */
  ghost predicate AliveSince(limits: Limits, h: History, n: nat, p: Guid, i: nat)
    requires n <= |h|
  {
    i < n && (h[i] == ParticipantAlive(p) || SnapshotOf(h[i], p)) && Taken(limits, h, i) &&
    forall j :: i < j < n ==> h[j] != ParticipantGone(p)
  }

  lemma {:induction false} LastSnapshotStep(limits: Limits, h: History, n: nat, p: Guid, i: nat)
    requires 0 < n <= |h|
    ensures LastSnapshot(limits, h, n, p, i) <==>
            if SnapshotOf(h[n - 1], p) && Taken(limits, h, n - 1) then i == n - 1
            else LastSnapshot(limits, h, n - 1, p, i) && h[n - 1] != ParticipantGone(p)
  {
  }

  lemma {:induction false} LastUpsertStep(limits: Limits, h: History, n: nat, g: Guid, i: nat)
    requires 0 < n <= |h|
    ensures LastUpsert(limits, h, n, g, i) <==>
            if UpsertOf(h[n - 1], g) && Taken(limits, h, n - 1) then i == n - 1
            else LastUpsert(limits, h, n - 1, g, i) && h[n - 1] != EndpointGone(g) && h[n - 1] != ParticipantGone(h[i].owner)
  {
  }

  lemma {:induction false} AliveSinceStep(limits: Limits, h: History, n: nat, p: Guid, i: nat)
    requires 0 < n <= |h|
    ensures AliveSince(limits, h, n, p, i) <==>
            if i == n - 1 then (h[i] == ParticipantAlive(p) || SnapshotOf(h[i], p)) && Taken(limits, h, i)
            else AliveSince(limits, h, n - 1, p, i) && h[n - 1] != ParticipantGone(p)
  {
  }

  /** The cached nodes of p are, in order, those of its last accepted snapshot, or none. */
  lemma {:induction false} NodesAreLastSnapshot(limits: Limits, h: History, n: nat, p: Guid)
    requires n <= |h|
    ensures forall i: nat :: LastSnapshot(limits, h, n, p, i) ==> Of(After(limits, h, n).nodes, p) == h[i].snapshot.nodes
    ensures (forall i: nat :: !LastSnapshot(limits, h, n, p, i)) ==> Of(After(limits, h, n).nodes, p) == []
  {
    hide LastSnapshot, Step, Accepts;
    if n == 0 {
      NothingAtStart(limits, h, p);
    } else {
      var m := n - 1;
      NodesAreLastSnapshot(limits, h, m, p);
      NodesAfterStep(limits, After(limits, h, m), h[m], p);
      forall i: nat | LastSnapshot(limits, h, n, p, i) ensures Of(After(limits, h, n).nodes, p) == h[i].snapshot.nodes {
        LastSnapshotStep(limits, h, n, p, i);
      }
      if forall i: nat :: !LastSnapshot(limits, h, n, p, i) {
        LastSnapshotStep(limits, h, n, p, m);
        if i: nat :| LastSnapshot(limits, h, m, p, i) {
          LastSnapshotStep(limits, h, n, p, i);
        }
      }
    }
  }

  lemma {:induction false} NothingAtStart(limits: Limits, h: History, p: Guid)
    ensures forall i: nat :: !LastSnapshot(limits, h, 0, p, i)
  {
  }

  lemma {:induction false} NodesAfterStep(limits: Limits, c: Cache, e: Event, p: Guid)
    ensures Of(Step(limits, c, e).nodes, p) ==
            if SnapshotOf(e, p) && Accepts(limits, c, e) then e.snapshot.nodes
            else if e == ParticipantGone(p) then []
            else Of(c.nodes, p)
  {
    if e.SnapshotTaken? && Accepts(limits, c, e) {
      SnapshotReplacesExactly(limits, c, e.snapshot, p);
    } else if e.ParticipantGone? {
      OfWithout(c.nodes, e.participant, p);
    }
  }

  /** The endpoint array is exactly the map of last accepted announcements not since removed. */
  lemma {:induction false} EndpointsAreLastUpserts(limits: Limits, h: History, n: nat, d: CachedEndpoint)
    requires n <= |h|
    ensures d in After(limits, h, n).endpoints <==>
            exists i: nat :: LastUpsert(limits, h, n, d.item.guid, i) && EndpointOf(h[i]) == d
  {
    if n > 0 {
      EndpointsAreLastUpserts(limits, h, n - 1, d);
      var c, e, g := After(limits, h, n - 1), h[n - 1], d.item.guid;
      RunKeepsInv(limits, h, n - 1);
      EndpointsAfterStep(limits, c, e, d);
      forall i: nat ensures LastUpsert(limits, h, n, g, i) <==>
        if UpsertOf(e, g) && Accepts(limits, c, e) then i == n - 1
        else LastUpsert(limits, h, n - 1, g, i) && e != EndpointGone(g) && e != ParticipantGone(h[i].owner)
      {
        LastUpsertStep(limits, h, n, g, i);
      }
      if UpsertOf(e, g) && Accepts(limits, c, e) {
        assert LastUpsert(limits, h, n, g, n - 1);
      }
    }
  }

  lemma {:induction false} EndpointsAfterStep(limits: Limits, c: Cache, e: Event, d: CachedEndpoint)
    requires Inv(limits, c)
    ensures d in Step(limits, c, e).endpoints <==>
            if UpsertOf(e, d.item.guid) && Accepts(limits, c, e) then d == EndpointOf(e)
            else d in c.endpoints && e != EndpointGone(d.item.guid) && e != ParticipantGone(d.participant)
  {
    match e
    case SnapshotTaken(_) =>
    case ParticipantAlive(_) =>
    case ParticipantGone(p) => WithoutMembers(c.endpoints, p);
    case EndpointAlive(_, _, _, _, _) =>
      if Accepts(limits, c, e) {
        UpsertedMembers(c.endpoints, EndpointOf(e));
      }
    case EndpointGone(g) => DropEndpointMembers(c.endpoints, g);
  }

  /** A participant is cached iff an accepted sign of life of it was not followed by its loss. */
  lemma {:induction false} ParticipantsAreAlive(limits: Limits, h: History, n: nat, p: Guid)
    requires n <= |h|
    ensures p in After(limits, h, n).participants <==> exists i: nat :: AliveSince(limits, h, n, p, i)
  {
    if n > 0 {
      ParticipantsAreAlive(limits, h, n - 1, p);
      var c, e := After(limits, h, n - 1), h[n - 1];
      RunKeepsInv(limits, h, n - 1);
      ParticipantAfterStep(limits, c, e, p);
      forall i: nat ensures AliveSince(limits, h, n, p, i) <==>
        if i == n - 1 then (e == ParticipantAlive(p) || SnapshotOf(e, p)) && Accepts(limits, c, e)
        else AliveSince(limits, h, n - 1, p, i) && e != ParticipantGone(p)
      {
        AliveSinceStep(limits, h, n, p, i);
      }
      var m := n - 1;
      if i: nat :| AliveSince(limits, h, m, p, i) {
        AliveSinceStep(limits, h, n, p, i);
      }
      if (e == ParticipantAlive(p) || SnapshotOf(e, p)) && Accepts(limits, c, e) {
        assert AliveSince(limits, h, n, p, n - 1);
      }
    }
  }

  lemma {:induction false} ParticipantAfterStep(limits: Limits, c: Cache, e: Event, p: Guid)
    requires Inv(limits, c)
    ensures p in Step(limits, c, e).participants <==>
            ((e == ParticipantAlive(p) || SnapshotOf(e, p)) && Accepts(limits, c, e)) ||
            (p in c.participants && e != ParticipantGone(p))
  {
    if e.ParticipantGone? {
      DropMembers(c.participants, e.participant);
    }
  }

  // ---------- participant loss ----------

  /** After p is lost at event k, nothing of p is visible, neither its nodes nor its endpoints, for as
      long as no new snapshot of it is accepted: late announcements of its endpoints or of p itself
      do not bring it back. */
  lemma {:induction false} LostParticipantIsHidden(limits: Limits, h: History, k: nat, n: nat, p: Guid)
    requires k < n <= |h| && h[k] == ParticipantGone(p)
    requires forall j :: k < j < n ==> !(SnapshotOf(h[j], p) && Taken(limits, h, j))
    ensures forall m :: m in After(limits, h, n).nodes ==> m.participant != p
    ensures forall e :: e in Visible(After(limits, h, n)) ==> e.participant != p
  {
    var c := After(limits, h, n);
    NodesAreLastSnapshot(limits, h, n, p);
    assert Of(c.nodes, p) == [];
    OfMembers(c.nodes, p);
    forall m | m in c.nodes ensures m.participant != p {
      assert m == Owned(m.participant, m.item);
    }
  }

  // ---------- confluence ----------

  /** Everything the cache knows about one participant. */
  datatype View = View(known: bool, nodes: seq<NodeInfo>, endpoints: set<EndpointInfo>)

  function ViewOf(c: Cache, p: Guid): View {
    View(p in c.participants, Of(c.nodes, p), set e | e in c.endpoints && e.participant == p :: e.item)
  }

  /** The participant an event is about, given which participant each endpoint GUID belongs to. */
  function EventOwner(e: Event, home: Guid -> Guid): Guid {
    match e
    case SnapshotTaken(s) => s.participant
    case ParticipantAlive(p) => p
    case ParticipantGone(p) => p
    case EndpointAlive(_, owner, _, _, _) => owner
    case EndpointGone(g) => home(g)
  }

  /** The events of one participant among the first n, in their order. */
  function Project(h: History, n: nat, p: Guid, home: Guid -> Guid): History
    requires n <= |h|
  {
    if n == 0 then []
    else
      var front := Project(h, n - 1, p, home);
      if EventOwner(h[n - 1], home) == p then front + [h[n - 1]] else front
  }

  /** What one participant's own event does to what is known about it. */
  function ViewStep(v: View, e: Event): View {
    match e
    case SnapshotTaken(s) => View(true, s.nodes, v.endpoints)
    case ParticipantAlive(_) => v.(known := true)
    case ParticipantGone(_) => View(false, [], {})
    case EndpointAlive(g, _, topic, typeName, _) =>
      if topic.Text? && typeName.Text?
      then v.(endpoints := (set x | x in v.endpoints && x.guid != g) + {EndpointOf(e).item})
      else v
    case EndpointGone(g) => v.(endpoints := set x | x in v.endpoints && x.guid != g)
  }

  function ViewRun(events: History): View {
    if events == [] then View(false, [], {})
    else ViewStep(ViewRun(events[..|events| - 1]), events[|events| - 1])
  }

  /** Every announcement and every cached endpoint carries the home participant of its GUID. */
  ghost predicate AtHome(h: History, home: Guid -> Guid) {
    forall i :: 0 <= i < |h| && h[i].EndpointAlive? ==> h[i].owner == home(h[i].guid)
  }

  ghost predicate NothingRefused(limits: Limits, h: History) {
    forall i :: 0 <= i < |h| ==> Taken(limits, h, i)
  }

  lemma {:induction false} ViewAfterStep(limits: Limits, c: Cache, e: Event, p: Guid, home: Guid -> Guid)
    requires Inv(limits, c) && Accepts(limits, c, e)
    requires e.EndpointAlive? ==> e.owner == home(e.guid)
    requires forall d :: d in c.endpoints ==> d.participant == home(d.item.guid)
    ensures var r := Step(limits, c, e);
            ViewOf(r, p) == (if EventOwner(e, home) == p then ViewStep(ViewOf(c, p), e) else ViewOf(c, p)) &&
            forall d :: d in r.endpoints ==> d.participant == home(d.item.guid)
  {
    hide Inv, Step, Of;
    var r := Step(limits, c, e);
    NodesAfterStep(limits, c, e, p);
    ParticipantAfterStep(limits, c, e, p);
    forall d ensures d in r.endpoints ==> d.participant == home(d.item.guid) {
      EndpointsAfterStep(limits, c, e, d);
    }
    var expected := if EventOwner(e, home) == p then ViewStep(ViewOf(c, p), e) else ViewOf(c, p);
    forall x ensures x in ViewOf(r, p).endpoints <==> x in expected.endpoints {
      EndpointsAfterStep(limits, c, e, Owned(p, x));
      assert x in ViewOf(r, p).endpoints <==> Owned(p, x) in r.endpoints;
      assert x in ViewOf(c, p).endpoints <==> Owned(p, x) in c.endpoints;
    }
  }

  lemma {:induction false} ViewIsLocal(limits: Limits, h: History, n: nat, p: Guid, home: Guid -> Guid)
    requires n <= |h| && NothingRefused(limits, h) && AtHome(h, home)
    ensures ViewOf(After(limits, h, n), p) == ViewRun(Project(h, n, p, home))
    ensures forall d :: d in After(limits, h, n).endpoints ==> d.participant == home(d.item.guid)
  {
    if n > 0 {
      ViewIsLocal(limits, h, n - 1, p, home);
      RunKeepsInv(limits, h, n - 1);
      assert Taken(limits, h, n - 1);
      ViewAfterStep(limits, After(limits, h, n - 1), h[n - 1], p, home);
    }
  }

  lemma {:induction false} SameViewsSameAnswers(c: Cache, d: Cache)
    requires forall p :: ViewOf(c, p) == ViewOf(d, p)
    ensures Visible(c) == Visible(d)
    ensures multiset(c.nodes) == multiset(d.nodes)
  {
    forall e ensures e in Visible(c) <==> e in Visible(d) {
      AssociatedByOwner(c, e);
      AssociatedByOwner(d, e);
      var p := e.participant;
      assert ViewOf(c, p) == ViewOf(d, p);
      assert e.item in ViewOf(c, p).endpoints <==> e in c.endpoints;
      assert e.item in ViewOf(d, p).endpoints <==> e in d.endpoints;
    }
    forall p ensures Of(c.nodes, p) == Of(d.nodes, p) {
      assert ViewOf(c, p) == ViewOf(d, p);
    }
    SameOwnersSameMultiset(c.nodes, d.nodes);
  }

  /** Confluence: two caches, even with different limits, that refuse nothing and see the events of
      each participant in the same order end with the same visible endpoints and the same nodes,
      however the events of different participants were interleaved. */
  lemma {:induction false} DiscoveryIsConfluent(limits1: Limits, h1: History, limits2: Limits, h2: History, home: Guid -> Guid)
    requires NothingRefused(limits1, h1) && NothingRefused(limits2, h2)
    requires AtHome(h1, home) && AtHome(h2, home)
    requires forall p :: Project(h1, |h1|, p, home) == Project(h2, |h2|, p, home)
    ensures var c1, c2 := After(limits1, h1, |h1|), After(limits2, h2, |h2|);
            Visible(c1) == Visible(c2) && multiset(c1.nodes) == multiset(c2.nodes) &&
            forall topic, writer :: TopicCount(c1, topic, writer) == TopicCount(c2, topic, writer)
  {
    var c1, c2 := After(limits1, h1, |h1|), After(limits2, h2, |h2|);
    forall p ensures ViewOf(c1, p) == ViewOf(c2, p) {
      ViewIsLocal(limits1, h1, |h1|, p, home);
      ViewIsLocal(limits2, h2, |h2|, p, home);
      assert Project(h1, |h1|, p, home) == Project(h2, |h2|, p, home);
    }
    SameViewsSameAnswers(c1, c2);
  }
}
