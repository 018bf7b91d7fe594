/** The graph queries as programs that read the cache one access at a time, and what they answer when nothing
    else happens. No loop goes past the capacity of the array it reads. */
module QueryPrograms {
  import opened GraphTypes
  import opened CacheSpec
  import opened QuerySpec
  import opened Names
  import opened GraphQueries
  import opened Readers

  // ---------- association ----------

  predicate Lists(n: CachedNode, e: CachedEndpoint) {
    n.participant == e.participant && e.item.guid in n.item.Gids(e.item.writer)
  }

  /** Looks for a node that lists endpoint i, from node k on, and goes on with the result. */
  function AssociatedThen(limits: Limits, i: nat, k: nat, next: bool -> Reader): Reader
    decreases limits.cacheMaxNodes - k
  {
    if k >= limits.cacheMaxNodes then next(false)
    else ReadNodeCount(count =>
      if k >= count then next(false)
      else ReadNode(k, (n: CachedNode) => ReadEndpoint(i, (e: CachedEndpoint) =>
        if Lists(n, e) then next(true) else AssociatedThen(limits, i, k + 1, next))))
  }

  ghost predicate Within(limits: Limits, c: Cache) {
    |c.nodes| <= limits.cacheMaxNodes && |c.endpoints| <= limits.cacheMaxEndpoints
  }

  lemma {:induction false} AssociatedRuns(limits: Limits, c: Cache, i: nat, k: nat, next: bool -> Reader)
    requires Within(limits, c) && i < |c.endpoints| && k <= |c.nodes|
    requires forall j :: 0 <= j < k ==> !Lists(c.nodes[j], c.endpoints[i])
    ensures Reaches(AssociatedThen(limits, i, k, next), c, next(Associated(c, c.endpoints[i])))
    decreases |c.nodes| - k
  {
    var r, e := AssociatedThen(limits, i, k, next), c.endpoints[i];
    if k < |c.nodes| {
      assert Accessed(Accessed(Accessed(r, c), c), c) == if Lists(c.nodes[k], e) then next(true) else AssociatedThen(limits, i, k + 1, next);
      if Lists(c.nodes[k], e) {
        ReachesItself(next(true), c);
      } else {
        AssociatedRuns(limits, c, i, k + 1, next);
      }
      ThreeAccesses(r, c, next(Associated(c, e)));
    } else {
      ReachesItself(next(false), c);
      if k < limits.cacheMaxNodes {
        OneAccess(r, c, next(false));
      }
    }
  }

  lemma {:induction false} OneAccess(r: Reader, c: Cache, t: Reader)
    requires Reaches(Accessed(r, c), c, t)
    ensures Reaches(r, c, t)
  {
    assert After(r, c, 1) == Accessed(r, c);
    ReachesAfter(r, c, 1, t);
  }

  lemma {:induction false} ThreeAccesses(r: Reader, c: Cache, t: Reader)
    requires Reaches(Accessed(Accessed(Accessed(r, c), c), c), c, t)
    ensures Reaches(r, c, t)
  {
    OneAccess(Accessed(Accessed(r, c), c), c, t);
    OneAccess(Accessed(r, c), c, t);
    OneAccess(r, c, t);
  }

  // ---------- counting ----------

  function CountQuery(limits: Limits, topic: string, writer: bool): Reader {
    CountFrom(limits, topic, writer, 0, 0)
  }

  function CountFrom(limits: Limits, topic: string, writer: bool, i: nat, count: nat): Reader
    decreases limits.cacheMaxEndpoints - i, 1
  {
    if i >= limits.cacheMaxEndpoints then Return(Counted(count))
    else ReadEndpointCount(endpoints =>
      if i >= endpoints then Return(Counted(count))
      else AssociatedThen(limits, i, 0, CountNext(limits, topic, writer, i, count)))
  }

  function CountNext(limits: Limits, topic: string, writer: bool, i: nat, count: nat): bool -> Reader
    requires i < limits.cacheMaxEndpoints
    decreases limits.cacheMaxEndpoints - i, 0
  {
    associated =>
      if !associated then CountFrom(limits, topic, writer, i + 1, count)
      else ReadEndpoint(i, (e: CachedEndpoint) =>
        CountFrom(limits, topic, writer, i + 1, if e.item.writer == writer && e.item.topic == topic then count + 1 else count))
  }

  lemma {:induction false} CountRuns(limits: Limits, c: Cache, topic: string, writer: bool, i: nat)
    requires Within(limits, c) && Distinct(c.endpoints) && i <= |c.endpoints|
    ensures Yields(CountFrom(limits, topic, writer, i, |MatchesUpTo(c, i, topic, writer)|), c, Counted(TopicCount(c, topic, writer)))
    decreases |c.endpoints| - i
  {
    hide MatchesUpTo, TopicCount, Associated, AssociatedThen, Reaches, After;
    var count := |MatchesUpTo(c, i, topic, writer)|;
    var r, t := CountFrom(limits, topic, writer, i, count), Return(Counted(TopicCount(c, topic, writer)));
    if i < |c.endpoints| {
      var next := CountNext(limits, topic, writer, i, count);
      MatchesStep(c, i, topic, writer);
      CountRuns(limits, c, topic, writer, i + 1);
      if Associated(c, c.endpoints[i]) {
        OneAccess(next(true), c, t);
      }
      AssociatedRuns(limits, c, i, 0, next);
      ReachesThrough(AssociatedThen(limits, i, 0, next), c, next(Associated(c, c.endpoints[i])), t);
      OneAccess(r, c, t);
    } else {
      AllMatches(c, topic, writer);
      ReachesItself(t, c);
      if i < limits.cacheMaxEndpoints {
        OneAccess(r, c, t);
      }
    }
  }

  lemma {:induction false} AllMatches(c: Cache, topic: string, writer: bool)
    ensures |MatchesUpTo(c, |c.endpoints|, topic, writer)| == TopicCount(c, topic, writer)
  {
    assert c.endpoints[..|c.endpoints|] == c.endpoints;
    assert MatchesUpTo(c, |c.endpoints|, topic, writer) == VisibleOn(c, topic, writer);
  }

  /** Whatever is in the cache, the count query ends, with the number of visible endpoints. */
  lemma {:induction false} CountQueryAnswers(limits: Limits, c: Cache, topic: string, writer: bool)
    requires Inv(limits, c)
    ensures Yields(CountQuery(limits, topic, writer), c, Counted(TopicCount(c, topic, writer)))
  {
    DistinctGuidsDistinctEndpoints(c.endpoints);
    assert MatchesUpTo(c, 0, topic, writer) == {};
    CountRuns(limits, c, topic, writer, 0);
  }

  // ---------- node names ----------

  /** The count is read once; a name and a namespace are copied one after the other. */
  function NamesQuery(): Reader {
    ReadNodeCount((count: nat) => NamesFrom(count, 0, [], []))
  }

  function NamesFrom(count: nat, i: nat, names: seq<string>, namespaces: seq<string>): Reader
    decreases count - i
  {
    if i >= count then Return(NodesNamed(names, namespaces))
    else ReadNode(i, (n: CachedNode) => ReadNode(i, (m: CachedNode) =>
      NamesFrom(count, i + 1, names + [n.item.name], namespaces + [m.item.namespace_])))
  }

  function NodeNames(nodes: seq<CachedNode>): (r: seq<string>)
    ensures |r| == |nodes| && forall i :: 0 <= i < |r| ==> r[i] == nodes[i].item.name
  {
    seq(|nodes|, i requires 0 <= i < |nodes| => nodes[i].item.name)
  }

  function NodeNamespaces(nodes: seq<CachedNode>): (r: seq<string>)
    ensures |r| == |nodes| && forall i :: 0 <= i < |r| ==> r[i] == nodes[i].item.namespace_
  {
    seq(|nodes|, i requires 0 <= i < |nodes| => nodes[i].item.namespace_)
  }

  lemma {:induction false} NamesRun(c: Cache, i: nat)
    requires i <= |c.nodes|
    ensures Yields(NamesFrom(|c.nodes|, i, NodeNames(c.nodes[..i]), NodeNamespaces(c.nodes[..i])), c,
                   NodesNamed(NodeNames(c.nodes), NodeNamespaces(c.nodes)))
    decreases |c.nodes| - i
  {
    var names, namespaces := NodeNames(c.nodes[..i]), NodeNamespaces(c.nodes[..i]);
    var r, t := NamesFrom(|c.nodes|, i, names, namespaces), Return(NodesNamed(NodeNames(c.nodes), NodeNamespaces(c.nodes)));
    if i < |c.nodes| {
      NamesRun(c, i + 1);
      assert NodeNames(c.nodes[..i + 1]) == names + [c.nodes[i].item.name];
      assert NodeNamespaces(c.nodes[..i + 1]) == namespaces + [c.nodes[i].item.namespace_];
      OneAccess(Accessed(r, c), c, t);
      OneAccess(r, c, t);
    } else {
      assert c.nodes[..i] == c.nodes;
      ReachesItself(t, c);
    }
  }

  /** The listing of node names ends, with the names and namespaces of the cached nodes in cache order. */
  lemma {:induction false} NamesQueryAnswers(c: Cache)
    ensures Yields(NamesQuery(), c, NodesNamed(NodeNames(c.nodes), NodeNamespaces(c.nodes)))
  {
    NamesRun(c, 0);
    assert NodeNames(c.nodes[..0]) == [] && NodeNamespaces(c.nodes[..0]) == [];
    OneAccess(NamesQuery(), c, Return(NodesNamed(NodeNames(c.nodes), NodeNamespaces(c.nodes))));
  }

  // ---------- topic names and types ----------

  /** The name that endpoint i is reported under, or None. */
  function TopicThen(limits: Limits, noDemangle: bool, i: nat, next: Option<string> -> Reader): Reader {
    AssociatedThen(limits, i, 0, TopicNext(noDemangle, i, next))
  }

  function TopicNext(noDemangle: bool, i: nat, next: Option<string> -> Reader): bool -> Reader {
    associated =>
      if !associated then next(None)
      else ReadEndpoint(i, (e: CachedEndpoint) => next(TopicOutputName(e.item.topic, noDemangle)))
  }

  /** The type that endpoint i has for the topic, or None. */
  function TypeThen(limits: Limits, noDemangle: bool, topic: string, i: nat, next: Option<string> -> Reader): Reader {
    TopicThen(limits, noDemangle, i, TypeNext(noDemangle, topic, i, next))
  }

  function TypeNext(noDemangle: bool, topic: string, i: nat, next: Option<string> -> Reader): Option<string> -> Reader {
    (reported: Option<string>) =>
      if reported != Some(topic) then next(None)
      else ReadEndpoint(i, (e: CachedEndpoint) => next(Some(TypeOutputName(e.item.typeName, noDemangle))))
  }

  lemma {:induction false} TopicRuns(limits: Limits, c: Cache, noDemangle: bool, i: nat, next: Option<string> -> Reader)
    requires Within(limits, c) && i < |c.endpoints|
    ensures Reaches(TopicThen(limits, noDemangle, i, next), c, next(TopicReports(c, noDemangle)[i]))
  {
    hide TopicOutputName, Associated, AssociatedThen, Reaches, After;
    var e, then_ := c.endpoints[i], TopicNext(noDemangle, i, next);
    var t := next(TopicReports(c, noDemangle)[i]);
    AssociatedRuns(limits, c, i, 0, then_);
    ReachesItself(t, c);
    if Associated(c, e) {
      OneAccess(then_(true), c, t);
    }
    ReachesThrough(TopicThen(limits, noDemangle, i, next), c, then_(Associated(c, e)), t);
  }

  lemma {:induction false} TypeRuns(limits: Limits, c: Cache, noDemangle: bool, topic: string, i: nat, next: Option<string> -> Reader)
    requires Within(limits, c) && i < |c.endpoints|
    ensures Reaches(TypeThen(limits, noDemangle, topic, i, next), c, next(TypeReports(c, noDemangle, topic)[i]))
  {
    hide TopicOutputName, TypeOutputName, Associated, TopicThen, Reaches, After;
    var then_, reported := TypeNext(noDemangle, topic, i, next), TopicReports(c, noDemangle)[i];
    var t := next(TypeReports(c, noDemangle, topic)[i]);
    TopicRuns(limits, c, noDemangle, i, then_);
    ReachesItself(t, c);
    if reported == Some(topic) {
      OneAccess(then_(reported), c, t);
    }
    ReachesThrough(TypeThen(limits, noDemangle, topic, i, next), c, then_(reported), t);
  }

  // ---------- the pass that finds one endpoint per topic ----------

  function TopicsQuery(limits: Limits, noDemangle: bool): Reader {
    RepresentativesFrom(limits, noDemangle, 0, [])
  }

  function RepresentativesFrom(limits: Limits, noDemangle: bool, i: nat, found: seq<nat>): Reader
    decreases limits.cacheMaxEndpoints - i, 2
  {
    if i >= limits.cacheMaxEndpoints then TopicsFrom(limits, noDemangle, found, 0, [], [])
    else ReadEndpointCount(endpoints =>
      if i >= endpoints then TopicsFrom(limits, noDemangle, found, 0, [], [])
      else TopicThen(limits, noDemangle, i, RepresentativesNext(limits, noDemangle, i, found)))
  }

  function RepresentativesNext(limits: Limits, noDemangle: bool, i: nat, found: seq<nat>): Option<string> -> Reader
    requires i < limits.cacheMaxEndpoints
    decreases limits.cacheMaxEndpoints - i, 1
  {
    (topic: Option<string>) =>
      if topic.None? then RepresentativesFrom(limits, noDemangle, i + 1, found)
      else RepresentedThen(noDemangle, topic.value, found, 0, RepresentativesAdd(limits, noDemangle, i, found))
  }

  function RepresentativesAdd(limits: Limits, noDemangle: bool, i: nat, found: seq<nat>): bool -> Reader
    requires i < limits.cacheMaxEndpoints
    decreases limits.cacheMaxEndpoints - i, 0
  {
    duplicate => RepresentativesFrom(limits, noDemangle, i + 1, if duplicate then found else found + [i])
  }

  function RepresentedThen(noDemangle: bool, topic: string, found: seq<nat>, k: nat, next: bool -> Reader): Reader
    decreases |found| - k
  {
    if k >= |found| then next(false)
    else ReadEndpoint(found[k], (e: CachedEndpoint) =>
      if TopicOutputName(e.item.topic, noDemangle) == Some(topic) then next(true)
      else RepresentedThen(noDemangle, topic, found, k + 1, next))
  }

  /** One found endpoint per name, in order. */
  ghost predicate Represent(c: Cache, noDemangle: bool, found: seq<nat>, names: seq<string>) {
    |found| == |names| && forall k :: 0 <= k < |found| ==> Represents(c, noDemangle, found[k], names[k])
  }

  lemma {:induction false} RepresentedRuns(c: Cache, noDemangle: bool, topic: string, found: seq<nat>, names: seq<string>, k: nat, next: bool -> Reader)
    requires Represent(c, noDemangle, found, names) && k <= |found| && topic !in names[..k]
    ensures Reaches(RepresentedThen(noDemangle, topic, found, k, next), c, next(topic in names))
    decreases |found| - k
  {
    hide TopicOutputName;
    var r := RepresentedThen(noDemangle, topic, found, k, next);
    if k < |found| {
      assert Represents(c, noDemangle, found[k], names[k]);
      if names[k] == topic {
        ReachesItself(next(true), c);
      } else {
        assert names[..k + 1] == names[..k] + [names[k]];
        RepresentedRuns(c, noDemangle, topic, found, names, k + 1, next);
      }
      OneAccess(r, c, next(topic in names));
    } else {
      assert names[..k] == names;
      ReachesItself(next(false), c);
    }
  }

  // ---------- the two passes over the types of a topic ----------

  function CountTypesFrom(limits: Limits, noDemangle: bool, topic: string, i: nat, count: nat, next: nat -> Reader): Reader
    decreases limits.cacheMaxEndpoints - i, 2
  {
    if i >= limits.cacheMaxEndpoints then next(count)
    else ReadEndpointCount(endpoints =>
      if i >= endpoints then next(count)
      else TypeThen(limits, noDemangle, topic, i, CountTypesNext(limits, noDemangle, topic, i, count, next)))
  }

  function CountTypesNext(limits: Limits, noDemangle: bool, topic: string, i: nat, count: nat, next: nat -> Reader): Option<string> -> Reader
    requires i < limits.cacheMaxEndpoints
    decreases limits.cacheMaxEndpoints - i, 1
  {
    (typeName: Option<string>) =>
      if typeName.None? then CountTypesFrom(limits, noDemangle, topic, i + 1, count, next)
      else SeenThen(limits, noDemangle, topic, typeName.value, i, 0, CountTypesAdd(limits, noDemangle, topic, i, count, next))
  }

  function CountTypesAdd(limits: Limits, noDemangle: bool, topic: string, i: nat, count: nat, next: nat -> Reader): bool -> Reader
    requires i < limits.cacheMaxEndpoints
    decreases limits.cacheMaxEndpoints - i, 0
  {
    duplicate => CountTypesFrom(limits, noDemangle, topic, i + 1, if duplicate then count else count + 1, next)
  }

  /** Whether one of the endpoints from previous on and before i has the type for the topic. */
  function SeenThen(limits: Limits, noDemangle: bool, topic: string, typeName: string, i: nat, previous: nat, next: bool -> Reader): Reader
    decreases i - previous, 1
  {
    if previous >= i then next(false)
    else TypeThen(limits, noDemangle, topic, previous, SeenNext(limits, noDemangle, topic, typeName, i, previous, next))
  }

  function SeenNext(limits: Limits, noDemangle: bool, topic: string, typeName: string, i: nat, previous: nat, next: bool -> Reader): Option<string> -> Reader
    requires previous < i
    decreases i - previous, 0
  {
    (previousType: Option<string>) =>
      if previousType == Some(typeName) then next(true)
      else SeenThen(limits, noDemangle, topic, typeName, i, previous + 1, next)
  }

  function WriteTypesFrom(limits: Limits, noDemangle: bool, topic: string, i: nat, written: seq<string>, next: seq<string> -> Reader): Reader
    decreases limits.cacheMaxEndpoints - i, 1
  {
    if i >= limits.cacheMaxEndpoints then next(written)
    else ReadEndpointCount(endpoints =>
      if i >= endpoints then next(written)
      else TypeThen(limits, noDemangle, topic, i, WriteTypesNext(limits, noDemangle, topic, i, written, next)))
  }

  /** Duplicates are sought in the output, which only this thread writes. */
  function WriteTypesNext(limits: Limits, noDemangle: bool, topic: string, i: nat, written: seq<string>, next: seq<string> -> Reader): Option<string> -> Reader
    requires i < limits.cacheMaxEndpoints
    decreases limits.cacheMaxEndpoints - i, 0
  {
    (typeName: Option<string>) => WriteTypesFrom(limits, noDemangle, topic, i + 1,
      if typeName.None? || typeName.value in written then written else written + [typeName.value], next)
  }

  lemma {:induction false} SeenUnfolds(limits: Limits, noDemangle: bool, topic: string, typeName: string, i: nat, previous: nat,
                                      next: bool -> Reader, reported: Option<string>)
    requires previous < i
    ensures var then_ := SeenNext(limits, noDemangle, topic, typeName, i, previous, next);
      SeenThen(limits, noDemangle, topic, typeName, i, previous, next) == TypeThen(limits, noDemangle, topic, previous, then_) &&
      then_(reported) == if reported == Some(typeName) then next(true) else SeenThen(limits, noDemangle, topic, typeName, i, previous + 1, next)
  {
    hide TypeThen;
  }

  lemma {:induction false} SeenRuns(limits: Limits, c: Cache, noDemangle: bool, topic: string, typeName: string, i: nat, previous: nat, next: bool -> Reader)
    requires Within(limits, c) && previous <= i <= |c.endpoints|
    requires typeName !in Seen(TypeReports(c, noDemangle, topic), previous)
    ensures Reaches(SeenThen(limits, noDemangle, topic, typeName, i, previous, next), c,
                    next(typeName in Seen(TypeReports(c, noDemangle, topic), i)))
    decreases i - previous
  {
    hide TypeReports, ReportedType, TypeThen, Seen, SeenNext, SeenThen, Reaches, After;
    var reports, t := TypeReports(c, noDemangle, topic), next(typeName in Seen(TypeReports(c, noDemangle, topic), i));
    if previous < i {
      var then_ := SeenNext(limits, noDemangle, topic, typeName, i, previous, next);
      TypeRuns(limits, c, noDemangle, topic, previous, then_);
      SeenOneMore(reports, previous, typeName);
      SeenUnfolds(limits, noDemangle, topic, typeName, i, previous, next, reports[previous]);
      if reports[previous] == Some(typeName) {
        SeenStays(reports, previous + 1, i, typeName);
        ReachesItself(t, c);
      } else {
        SeenRuns(limits, c, noDemangle, topic, typeName, i, previous + 1, next);
      }
      ReachesThrough(TypeThen(limits, noDemangle, topic, previous, then_), c, then_(reports[previous]), t);
    } else {
      assert SeenThen(limits, noDemangle, topic, typeName, i, i, next) == next(false) by {
        NothingBefore(limits, noDemangle, topic, typeName, i, next);
      }
      ReachesItself(t, c);
    }
  }

  lemma {:induction false} NothingBefore(limits: Limits, noDemangle: bool, topic: string, typeName: string, i: nat, next: bool -> Reader)
    ensures SeenThen(limits, noDemangle, topic, typeName, i, i, next) == next(false)
  {
  }


  lemma {:induction false} CountTypesRun(limits: Limits, c: Cache, noDemangle: bool, topic: string, i: nat, next: nat -> Reader)
    requires Within(limits, c) && i <= |c.endpoints|
    ensures Reaches(CountTypesFrom(limits, noDemangle, topic, i, |Dedup(Seen(TypeReports(c, noDemangle, topic), i))|, next), c,
                    next(|ListedTypes(c, noDemangle, topic)|))
    decreases |c.endpoints| - i
  {
    hide TypeReports, ReportedType, TypeThen, Dedup, Seen, SeenThen, Reaches, After;
    var reports, t := TypeReports(c, noDemangle, topic), next(|ListedTypes(c, noDemangle, topic)|);
    var count := |Dedup(Seen(reports, i))|;
    var r := CountTypesFrom(limits, noDemangle, topic, i, count, next);
    if i < |c.endpoints| {
      var then_ := CountTypesNext(limits, noDemangle, topic, i, count, next);
      ReportStep(reports, i);
      CountTypesRun(limits, c, noDemangle, topic, i + 1, next);
      if reports[i].Some? {
        var add := CountTypesAdd(limits, noDemangle, topic, i, count, next);
        NothingReported(reports);
        NothingSeen(reports);
        SeenRuns(limits, c, noDemangle, topic, reports[i].value, i, 0, add);
        ReachesThrough(then_(reports[i]), c, add(reports[i].value in Seen(reports, i)), t);
      }
      TypeRuns(limits, c, noDemangle, topic, i, then_);
      ReachesThrough(TypeThen(limits, noDemangle, topic, i, then_), c, then_(reports[i]), t);
      OneAccess(r, c, t);
    } else {
      ReachesItself(t, c);
      if i < limits.cacheMaxEndpoints {
        OneAccess(r, c, t);
      }
    }
  }

  lemma {:induction false} WriteTypesRun(limits: Limits, c: Cache, noDemangle: bool, topic: string, i: nat, next: seq<string> -> Reader)
    requires Within(limits, c) && i <= |c.endpoints|
    ensures Reaches(WriteTypesFrom(limits, noDemangle, topic, i, Dedup(Seen(TypeReports(c, noDemangle, topic), i)), next), c,
                    next(ListedTypes(c, noDemangle, topic)))
    decreases |c.endpoints| - i
  {
    hide TypeReports, ReportedType, TypeThen, Dedup, Seen, Reaches, After;
    var reports, t := TypeReports(c, noDemangle, topic), next(ListedTypes(c, noDemangle, topic));
    var written := Dedup(Seen(reports, i));
    var r := WriteTypesFrom(limits, noDemangle, topic, i, written, next);
    if i < |c.endpoints| {
      var then_ := WriteTypesNext(limits, noDemangle, topic, i, written, next);
      ReportStep(reports, i);
      WriteTypesRun(limits, c, noDemangle, topic, i + 1, next);
      TypeRuns(limits, c, noDemangle, topic, i, then_);
      ReachesThrough(TypeThen(limits, noDemangle, topic, i, then_), c, then_(reports[i]), t);
      OneAccess(r, c, t);
    } else {
      ReachesItself(t, c);
      if i < limits.cacheMaxEndpoints {
        OneAccess(r, c, t);
      }
    }
  }

  // ---------- the pass over the topics ----------

  function TopicsFrom(limits: Limits, noDemangle: bool, found: seq<nat>, k: nat, topics: seq<string>, types: seq<Types>): Reader
    decreases |found| - k, 2
  {
    if k >= |found| then Return(TopicsTyped(topics, types))
    else ReadEndpoint(found[k], (e: CachedEndpoint) =>
      CountTypesFrom(limits, noDemangle, NameOrEmpty(e, noDemangle), 0, 0,
                     TopicSized(limits, noDemangle, found, k, NameOrEmpty(e, noDemangle), topics, types)))
  }

  /** What the name buffer holds; the program does not look at whether there is a name. */
  function NameOrEmpty(e: CachedEndpoint, noDemangle: bool): string {
    var name := TopicOutputName(e.item.topic, noDemangle);
    if name.Some? then name.value else ""
  }

  function TopicSized(limits: Limits, noDemangle: bool, found: seq<nat>, k: nat, topic: string, topics: seq<string>, types: seq<Types>): nat -> Reader
    requires k < |found|
    decreases |found| - k, 1
  {
    (size: nat) => WriteTypesFrom(limits, noDemangle, topic, 0, [], TopicWritten(limits, noDemangle, found, k, topic, topics, types, size))
  }

  function TopicWritten(limits: Limits, noDemangle: bool, found: seq<nat>, k: nat, topic: string, topics: seq<string>, types: seq<Types>, size: nat): seq<string> -> Reader
    requires k < |found|
    decreases |found| - k, 0
  {
    names => TopicsFrom(limits, noDemangle, found, k + 1, topics + [topic], types + [Types(size, names)])
  }

  /** The listed types of each name, in an array of exactly their number. */
  function TypeArrays(c: Cache, noDemangle: bool, names: seq<string>): (r: seq<Types>)
    ensures |r| == |names|
    ensures forall k :: 0 <= k < |r| ==> r[k] == Types(|ListedTypes(c, noDemangle, names[k])|, ListedTypes(c, noDemangle, names[k]))
  {
    seq(|names|, k requires 0 <= k < |names| => Types(|ListedTypes(c, noDemangle, names[k])|, ListedTypes(c, noDemangle, names[k])))
  }

  lemma {:induction false} OneTopicRuns(limits: Limits, c: Cache, noDemangle: bool, found: seq<nat>, k: nat, topic: string, topics: seq<string>, types: seq<Types>)
    requires Within(limits, c) && k < |found| && Represents(c, noDemangle, found[k], topic)
    ensures var listed := ListedTypes(c, noDemangle, topic);
      Reaches(TopicsFrom(limits, noDemangle, found, k, topics, types), c,
              TopicsFrom(limits, noDemangle, found, k + 1, topics + [topic], types + [Types(|listed|, listed)]))
  {
    hide ListedTypes, CountTypesFrom, WriteTypesFrom, TopicOutputName, Reaches, After;
    var listed := ListedTypes(c, noDemangle, topic);
    var sized := TopicSized(limits, noDemangle, found, k, topic, topics, types);
    var wrote := TopicWritten(limits, noDemangle, found, k, topic, topics, types, |listed|);
    var t := wrote(listed);
    NothingReported(TypeReports(c, noDemangle, topic));
    WriteTypesRun(limits, c, noDemangle, topic, 0, wrote);
    CountTypesRun(limits, c, noDemangle, topic, 0, sized);
    ReachesThrough(CountTypesFrom(limits, noDemangle, topic, 0, 0, sized), c, sized(|listed|), t);
    OneAccess(TopicsFrom(limits, noDemangle, found, k, topics, types), c, t);
  }

  lemma {:induction false} TopicsRun(limits: Limits, c: Cache, noDemangle: bool, found: seq<nat>, names: seq<string>, k: nat)
    requires Within(limits, c) && Represent(c, noDemangle, found, names) && k <= |found|
    ensures Yields(TopicsFrom(limits, noDemangle, found, k, names[..k], TypeArrays(c, noDemangle, names[..k])), c,
                   TopicsTyped(names, TypeArrays(c, noDemangle, names)))
    decreases |found| - k
  {
    hide ListedTypes, Represents, Reaches, After;
    var types, t := TypeArrays(c, noDemangle, names[..k]), Return(TopicsTyped(names, TypeArrays(c, noDemangle, names)));
    if k < |found| {
      var listed := ListedTypes(c, noDemangle, names[k]);
      OneTopicRuns(limits, c, noDemangle, found, k, names[k], names[..k], types);
      TopicsRun(limits, c, noDemangle, found, names, k + 1);
      assert names[..k + 1] == names[..k] + [names[k]];
      assert TypeArrays(c, noDemangle, names[..k + 1]) == types + [Types(|listed|, listed)];
      ReachesThrough(TopicsFrom(limits, noDemangle, found, k, names[..k], types), c,
                     TopicsFrom(limits, noDemangle, found, k + 1, names[..k + 1], types + [Types(|listed|, listed)]), t);
    } else {
      assert names[..k] == names;
      ReachesItself(t, c);
    }
  }

  lemma {:induction false} RepresentativesRun(limits: Limits, c: Cache, noDemangle: bool, i: nat, found: seq<nat>)
    requires Within(limits, c) && i <= |c.endpoints|
    requires Represent(c, noDemangle, found, Dedup(Seen(TopicReports(c, noDemangle), i)))
    ensures var listed := ListedTopics(c, noDemangle);
      Yields(RepresentativesFrom(limits, noDemangle, i, found), c, TopicsTyped(listed, TypeArrays(c, noDemangle, listed)))
    decreases |c.endpoints| - i
  {
    hide TopicReports, TopicThen, Dedup, Seen, TopicsFrom, Represents, RepresentedThen, TopicOutputName, TypeArrays, ReportedTopic, Reaches, After;
    var reports, listed := TopicReports(c, noDemangle), ListedTopics(c, noDemangle);
    var names, t := Dedup(Seen(reports, i)), Return(TopicsTyped(listed, TypeArrays(c, noDemangle, listed)));
    var r := RepresentativesFrom(limits, noDemangle, i, found);
    if i < |c.endpoints| {
      var then_ := RepresentativesNext(limits, noDemangle, i, found);
      ReportStep(reports, i);
      if reports[i].None? {
        RepresentativesRun(limits, c, noDemangle, i + 1, found);
      } else {
        var name, add := reports[i].value, RepresentativesAdd(limits, noDemangle, i, found);
        RepresentedRuns(c, noDemangle, name, found, names, 0, add);
        ReportRepresents(c, noDemangle, i, name);
        RepresentativesRun(limits, c, noDemangle, i + 1, if name in names then found else found + [i]);
        ReachesThrough(then_(reports[i]), c, add(name in names), t);
      }
      TopicRuns(limits, c, noDemangle, i, then_);
      ReachesThrough(TopicThen(limits, noDemangle, i, then_), c, then_(reports[i]), t);
      OneAccess(r, c, t);
    } else {
      assert names[..0] == [] && TypeArrays(c, noDemangle, []) == [];
      TopicsRun(limits, c, noDemangle, found, names, 0);
      if i < limits.cacheMaxEndpoints {
        OneAccess(r, c, t);
      }
    }
  }

  /** The topic listing ends, with the listed topics and for each of them an array of exactly its listed types. */
  lemma {:induction false} TopicsQueryAnswers(limits: Limits, c: Cache, noDemangle: bool)
    requires Inv(limits, c)
    ensures var listed := ListedTopics(c, noDemangle);
      Yields(TopicsQuery(limits, noDemangle), c, TopicsTyped(listed, TypeArrays(c, noDemangle, listed)))
  {
    NothingReported(TopicReports(c, noDemangle));
    RepresentativesRun(limits, c, noDemangle, 0, []);
  }

  /** All three are queries: whatever the cache holds, they end. */
  lemma {:induction false} ProgramsAreQueries(limits: Limits, topic: string, writer: bool, noDemangle: bool)
    ensures IsQuery(limits, CountQuery(limits, topic, writer))
    ensures IsQuery(limits, NamesQuery())
    ensures IsQuery(limits, TopicsQuery(limits, noDemangle))
  {
    hide CountQuery, NamesQuery, TopicsQuery, Inv, TopicCount, ListedTopics, TypeArrays;
    forall c | Inv(limits, c)
      ensures Ends(CountQuery(limits, topic, writer), c) && Ends(NamesQuery(), c) && Ends(TopicsQuery(limits, noDemangle), c)
    {
      CountQueryAnswers(limits, c, topic, writer);
      NamesQueryAnswers(c);
      TopicsQueryAnswers(limits, c, noDemangle);
    }
  }
}
