/** The graph queries as the program runs them, with the cache lock held: loops over the cache
    arrays that fill freshly allocated output arrays. */
module GraphQueries {
  import opened GraphTypes
  import opened CacheSpec
  import opened QuerySpec
  import opened Names
  import opened GraphCacheArrays

  // ---------- association and counts ----------

  method EndpointIsAssociated(cache: GraphCache, endpoint: CachedEndpoint) returns (associated: bool)
    requires cache.Shape()
    ensures associated == Associated(cache.State(), endpoint)
  {
    for i := 0 to cache.nodeCount
      invariant forall n :: n in cache.nodes[..i] ==>
        !(n.participant == endpoint.participant && endpoint.item.guid in n.item.Gids(endpoint.item.writer))
    {
      var node := cache.nodes[i];
      assert node in cache.State().nodes;
      if node.participant != endpoint.participant {
        continue;
      }
      var gids := node.item.Gids(endpoint.item.writer);
      for k := 0 to |gids|
        invariant endpoint.item.guid !in gids[..k]
      {
        if gids[k] == endpoint.item.guid {
          return true;
        }
      }
      assert gids[..|gids|] == gids;
    }
    return false;
  }

  /** The matching visible endpoints among the first n. */
  ghost function MatchesUpTo(c: Cache, n: nat, ddsTopic: string, writer: bool): set<CachedEndpoint>
    requires n <= |c.endpoints|
  {
    set e | e in c.endpoints[..n] && Associated(c, e) && e.item.topic == ddsTopic && e.item.writer == writer
  }

  lemma {:induction false} MatchesStep(c: Cache, n: nat, ddsTopic: string, writer: bool)
    requires Distinct(c.endpoints) && n < |c.endpoints|
    ensures var e := c.endpoints[n];
            |MatchesUpTo(c, n + 1, ddsTopic, writer)| == |MatchesUpTo(c, n, ddsTopic, writer)| +
            if Associated(c, e) && e.item.topic == ddsTopic && e.item.writer == writer then 1 else 0
  {
    hide Associated;
    var e, m := c.endpoints[n], MatchesUpTo(c, n, ddsTopic, writer);
    assert c.endpoints[..n + 1] == c.endpoints[..n] + [e];
    assert e !in c.endpoints[..n];
    if Associated(c, e) && e.item.topic == ddsTopic && e.item.writer == writer {
      assert MatchesUpTo(c, n + 1, ddsTopic, writer) == m + {e};
    } else {
      assert MatchesUpTo(c, n + 1, ddsTopic, writer) == m;
    }
  }

  /** The two count queries. Whether the topic validator accepts the name is a parameter; with "rt" in front the
      name must fit the protocol's bound of 256 characters. */
  method CountEndpoints(cache: GraphCache, topic: CString, validTopic: bool, writers: bool)
    returns (ret: Ret, count: nat)
    requires cache.Valid()
    ensures ret == if topic.Text? && validTopic && |topic.chars| <= 254 then Ok else InvalidArgument
    ensures ret == Ok ==> count == TopicCount(cache.State(), "rt" + topic.chars, writers)
  {
    if topic.Null? || !validTopic || |"rt" + topic.chars| > GRAPH_STRING_BOUND {
      return InvalidArgument, 0;
    }
    DistinctGuidsDistinctEndpoints(cache.State().endpoints);
    count := CountOn(cache, "rt" + topic.chars, writers);
    ret := Ok;
  }

  method CountOn(cache: GraphCache, ddsTopic: string, writers: bool) returns (count: nat)
    requires cache.Shape() && Distinct(cache.State().endpoints)
    ensures count == TopicCount(cache.State(), ddsTopic, writers)
  {
    count := 0;
    ghost var c := cache.State();
    for i := 0 to cache.endpointCount
      invariant count == |MatchesUpTo(c, i, ddsTopic, writers)|
    {
      MatchesStep(c, i, ddsTopic, writers);
      var endpoint := cache.endpoints[i];
      var associated := EndpointIsAssociated(cache, endpoint);
      if associated && endpoint.item.writer == writers && endpoint.item.topic == ddsTopic {
        count := count + 1;
      }
    }
    assert c.endpoints[..|c.endpoints|] == c.endpoints;
    assert MatchesUpTo(c, |c.endpoints|, ddsTopic, writers) == VisibleOn(c, ddsTopic, writers);
  }

  // ---------- node names ----------

  method GetNodeNames(cache: GraphCache) returns (names: array<CString>, namespaces: array<CString>)
    requires cache.Shape()
    ensures fresh(names) && fresh(namespaces)
    ensures var nodes := cache.State().nodes;
            names.Length == namespaces.Length == |nodes| &&
            forall i :: 0 <= i < |nodes| ==>
              names[i] == Text(nodes[i].item.name) && namespaces[i] == Text(nodes[i].item.namespace_)
  {
    names := new CString[cache.nodeCount](_ => Null);
    namespaces := new CString[cache.nodeCount](_ => Null);
    for i := 0 to cache.nodeCount
      invariant forall k :: 0 <= k < i ==>
        names[k] == Text(cache.nodes[k].item.name) && namespaces[k] == Text(cache.nodes[k].item.namespace_)
    {
      names[i] := Text(cache.nodes[i].item.name);
      namespaces[i] := Text(cache.nodes[i].item.namespace_);
    }
  }

  // ---------- topic names and types: specification ----------

  /** First occurrences only, in order. */
  function Dedup(s: seq<string>): seq<string> {
    if s == [] then []
    else
      var front := Dedup(s[..|s| - 1]);
      if s[|s| - 1] in s[..|s| - 1] then front else front + [s[|s| - 1]]
  }

  /** The name under which an endpoint is reported, if it is associated and has one. */
  function ReportedTopic(c: Cache, noDemangle: bool, e: CachedEndpoint): Option<string> {
    if Associated(c, e) then TopicOutputName(e.item.topic, noDemangle) else None
  }

  /** The type an endpoint reports for a topic, if it is reported on that topic. */
  function ReportedType(c: Cache, noDemangle: bool, topic: string, e: CachedEndpoint): Option<string> {
    if ReportedTopic(c, noDemangle, e) == Some(topic) then Some(TypeOutputName(e.item.typeName, noDemangle)) else None
  }

  function TopicReports(c: Cache, noDemangle: bool): (r: seq<Option<string>>)
    ensures |r| == |c.endpoints|
    ensures forall i :: 0 <= i < |r| ==> r[i] == ReportedTopic(c, noDemangle, c.endpoints[i])
  {
    seq(|c.endpoints|, i requires 0 <= i < |c.endpoints| => ReportedTopic(c, noDemangle, c.endpoints[i]))
  }

  function TypeReports(c: Cache, noDemangle: bool, topic: string): (r: seq<Option<string>>)
    ensures |r| == |c.endpoints|
    ensures forall i :: 0 <= i < |r| ==> r[i] == ReportedType(c, noDemangle, topic, c.endpoints[i])
  {
    seq(|c.endpoints|, i requires 0 <= i < |c.endpoints| => ReportedType(c, noDemangle, topic, c.endpoints[i]))
  }

  /** The names among the first n reports, with repetitions. */
  function Seen(reports: seq<Option<string>>, n: nat): seq<string>
    requires n <= |reports|
  {
    if n == 0 then []
    else if reports[n - 1].Some? then Seen(reports, n - 1) + [reports[n - 1].value]
    else Seen(reports, n - 1)
  }

  function ListedTopics(c: Cache, noDemangle: bool): seq<string> {
    Dedup(Seen(TopicReports(c, noDemangle), |c.endpoints|))
  }

  function ListedTypes(c: Cache, noDemangle: bool, topic: string): seq<string> {
    Dedup(Seen(TypeReports(c, noDemangle, topic), |c.endpoints|))
  }

  lemma {:induction false} DedupIsSet(s: seq<string>)
    ensures Distinct(Dedup(s))
    ensures forall x :: x in Dedup(s) <==> x in s
  {
    if s != [] {
      DedupIsSet(s[..|s| - 1]);
      assert s == s[..|s| - 1] + [s[|s| - 1]];
    }
  }

  lemma {:induction false} DedupAppend(s: seq<string>, x: string)
    ensures Dedup(s + [x]) == if x in Dedup(s) then Dedup(s) else Dedup(s) + [x]
    ensures x in Dedup(s) <==> x in s
  {
    DedupIsSet(s);
    assert (s + [x])[..|s|] == s;
  }

  lemma {:induction false} SeenAre(reports: seq<Option<string>>, n: nat, x: string)
    requires n <= |reports|
    ensures x in Seen(reports, n) <==> exists i :: 0 <= i < n && reports[i] == Some(x)
  {
    if n > 0 {
      SeenAre(reports, n - 1, x);
    }
  }

  lemma {:induction false} NothingSeen(reports: seq<Option<string>>)
    ensures Seen(reports, 0) == []
  {
  }

  lemma {:induction false} SeenOneMore(reports: seq<Option<string>>, n: nat, x: string)
    requires n < |reports|
    ensures x in Seen(reports, n + 1) <==> x in Seen(reports, n) || reports[n] == Some(x)
  {
  }

  lemma {:induction false} SeenGrows(reports: seq<Option<string>>, m: nat, n: nat)
    requires m <= n <= |reports|
    ensures Seen(reports, m) <= Seen(reports, n)
    ensures |Dedup(Seen(reports, m))| <= |Dedup(Seen(reports, n))|
  {
    hide Dedup;
    if m < n {
      SeenGrows(reports, m, n - 1);
      if reports[n - 1].Some? {
        DedupAppend(Seen(reports, n - 1), reports[n - 1].value);
      }
    }
  }

  lemma {:induction false} SeenStays(reports: seq<Option<string>>, m: nat, n: nat, x: string)
    requires m <= n <= |reports| && x in Seen(reports, m)
    ensures x in Seen(reports, n)
  {
    SeenGrows(reports, m, n);
  }

  /** What one more report does to the list of distinct names, and that the list never outgrows its final size. */
  lemma {:induction false} ReportStep(reports: seq<Option<string>>, i: nat)
    requires i < |reports|
    ensures var before, after := Dedup(Seen(reports, i)), Dedup(Seen(reports, i + 1));
            after == (if reports[i].None? || reports[i].value in before then before else before + [reports[i].value]) &&
            (reports[i].Some? ==> (reports[i].value in before <==> reports[i].value in Seen(reports, i))) &&
            |after| <= |Dedup(Seen(reports, |reports|))|
  {
    if reports[i].Some? {
      DedupAppend(Seen(reports, i), reports[i].value);
    }
    SeenGrows(reports, i + 1, |reports|);
  }

  lemma {:induction false} NothingReported(reports: seq<Option<string>>)
    ensures Dedup(Seen(reports, 0)) == []
  {
  }

  /** The listing is the image of the visible endpoints: every topic and type once, none missing, none invented. */
  lemma {:induction false} ListingIsExact(c: Cache, noDemangle: bool, topic: string, typeName: string)
    ensures Distinct(ListedTopics(c, noDemangle)) && Distinct(ListedTypes(c, noDemangle, topic))
    ensures topic in ListedTopics(c, noDemangle) <==>
            exists e :: e in Visible(c) && TopicOutputName(e.item.topic, noDemangle) == Some(topic)
    ensures typeName in ListedTypes(c, noDemangle, topic) <==>
            exists e :: e in Visible(c) && TopicOutputName(e.item.topic, noDemangle) == Some(topic) &&
              TypeOutputName(e.item.typeName, noDemangle) == typeName
  {
    var n, topics, types := |c.endpoints|, TopicReports(c, noDemangle), TypeReports(c, noDemangle, topic);
    DedupIsSet(Seen(topics, n));
    DedupIsSet(Seen(types, n));
    SeenAre(topics, n, topic);
    SeenAre(types, n, typeName);
    forall e | e in Visible(c) && TopicOutputName(e.item.topic, noDemangle) == Some(topic)
      ensures topic in Seen(topics, n)
      ensures TypeOutputName(e.item.typeName, noDemangle) == typeName ==> typeName in Seen(types, n)
    {
      var i :| 0 <= i < n && c.endpoints[i] == e;
      assert topics[i] == Some(topic);
      assert types[i] == Some(TypeOutputName(e.item.typeName, noDemangle));
    }
    if i :| 0 <= i < n && topics[i] == Some(topic) {
      assert c.endpoints[i] in Visible(c);
    }
    if i :| 0 <= i < n && types[i] == Some(typeName) {
      assert c.endpoints[i] in Visible(c);
    }
  }

  /** A topic is listed exactly when it has a listed type. */
  lemma {:induction false} ListedTopicsHaveTypes(c: Cache, noDemangle: bool, topic: string)
    ensures topic in ListedTopics(c, noDemangle) <==> ListedTypes(c, noDemangle, topic) != []
  {
    ListingIsExact(c, noDemangle, topic, "");
    if e :| e in Visible(c) && TopicOutputName(e.item.topic, noDemangle) == Some(topic) {
      ListingIsExact(c, noDemangle, topic, TypeOutputName(e.item.typeName, noDemangle));
    }
    if ListedTypes(c, noDemangle, topic) != [] {
      ListingIsExact(c, noDemangle, topic, ListedTypes(c, noDemangle, topic)[0]);
    }
  }

  // ---------- topic names and types: the loops ----------

  method TopicAt(cache: GraphCache, noDemangle: bool, i: nat) returns (topic: Option<string>)
    requires cache.Shape() && i < cache.endpointCount
    ensures topic == TopicReports(cache.State(), noDemangle)[i]
  {
    var associated := EndpointIsAssociated(cache, cache.endpoints[i]);
    if !associated {
      return None;
    }
    topic := TopicOutputName(cache.endpoints[i].item.topic, noDemangle);
  }

  method TypeAt(cache: GraphCache, noDemangle: bool, topic: string, i: nat) returns (typeName: Option<string>)
    requires cache.Shape() && i < cache.endpointCount
    ensures typeName == TypeReports(cache.State(), noDemangle, topic)[i]
  {
    var reported := TopicAt(cache, noDemangle, i);
    if reported != Some(topic) {
      return None;
    }
    typeName := Some(TypeOutputName(cache.endpoints[i].item.typeName, noDemangle));
  }

  /** The index of one endpoint per reported topic; duplicates are sought among the representatives. */
  method FindRepresentatives(cache: GraphCache, noDemangle: bool) returns (representatives: array<nat>, topicCount: nat)
    requires cache.Shape()
    ensures fresh(representatives)
    ensures topicCount == |ListedTopics(cache.State(), noDemangle)| <= representatives.Length
    ensures forall k :: 0 <= k < topicCount ==>
      (representatives[k] < cache.endpointCount &&
       Represents(cache.State(), noDemangle, representatives[k], ListedTopics(cache.State(), noDemangle)[k]))
  {
    hide Dedup, Seen, TopicReports, Represents, TopicOutputName, ReportedTopic;
    representatives := new nat[cache.endpoints.Length];
    topicCount := 0;
    ghost var c, reports := cache.State(), TopicReports(cache.State(), noDemangle);
    ghost var topics: seq<string> := [];
    NothingReported(reports);
    for i := 0 to cache.endpointCount
      invariant cache.State() == c
      invariant topics == Dedup(Seen(reports, i))
      invariant topicCount == |topics| <= i
      invariant forall k :: 0 <= k < topicCount ==>
        (representatives[k] < i && Represents(c, noDemangle, representatives[k], topics[k]))
    {
      ReportStep(reports, i);
      var topic := TopicAt(cache, noDemangle, i);
      if topic.None? {
        continue;
      }
      var duplicate := IsRepresented(cache, noDemangle, topic.value, representatives, topicCount, topics);
      if !duplicate {
        topics := topics + [topic.value];
        ReportRepresents(c, noDemangle, i, topic.value);
        representatives[topicCount] := i;
        topicCount := topicCount + 1;
      }
    }
  }

  ghost predicate Represents(c: Cache, noDemangle: bool, index: nat, topic: string) {
    index < |c.endpoints| && TopicOutputName(c.endpoints[index].item.topic, noDemangle) == Some(topic)
  }

  lemma {:induction false} ReportRepresents(c: Cache, noDemangle: bool, index: nat, topic: string)
    requires index < |c.endpoints| && TopicReports(c, noDemangle)[index] == Some(topic)
    ensures Represents(c, noDemangle, index, topic)
  {
  }

  method IsRepresented(cache: GraphCache, noDemangle: bool, topic: string,
                       representatives: array<nat>, topicCount: nat, ghost topics: seq<string>)
    returns (duplicate: bool)
    requires cache.Shape() && topicCount == |topics| <= representatives.Length
    requires forall k :: 0 <= k < topicCount ==>
      (representatives[k] < cache.endpointCount && Represents(cache.State(), noDemangle, representatives[k], topics[k]))
    ensures duplicate == (topic in topics)
  {
    for k := 0 to topicCount
      invariant topic !in topics[..k]
    {
      assert Represents(cache.State(), noDemangle, representatives[k], topics[k]);
      var candidate := TopicOutputName(cache.endpoints[representatives[k]].item.topic, noDemangle);
      assert topics[..k + 1] == topics[..k] + [topics[k]];
      if candidate.Some? && candidate.value == topic {
        return true;
      }
    }
    assert topics[..topicCount] == topics;
    return false;
  }

  /** First pass over the types of a topic: counts the endpoints whose type no earlier endpoint of the topic has. */
  method CountTypes(cache: GraphCache, noDemangle: bool, topic: string) returns (typeCount: nat)
    requires cache.Shape()
    ensures typeCount == |ListedTypes(cache.State(), noDemangle, topic)|
  {
    hide Dedup, Seen, TypeReports, ReportedType;
    typeCount := 0;
    ghost var reports := TypeReports(cache.State(), noDemangle, topic);
    NothingReported(reports);
    for i := 0 to cache.endpointCount
      invariant typeCount == |Dedup(Seen(reports, i))|
    {
      ReportStep(reports, i);
      var typeName := TypeAt(cache, noDemangle, topic, i);
      if typeName.None? {
        continue;
      }
      var duplicate := SeenEarlier(cache, noDemangle, topic, typeName.value, i);
      if !duplicate {
        typeCount := typeCount + 1;
      }
    }
  }

  method SeenEarlier(cache: GraphCache, noDemangle: bool, topic: string, typeName: string, count: nat)
    returns (duplicate: bool)
    requires cache.Shape() && count <= cache.endpointCount
    ensures duplicate == (typeName in Seen(TypeReports(cache.State(), noDemangle, topic), count))
  {
    hide TypeReports, Seen, ReportedType;
    ghost var reports := TypeReports(cache.State(), noDemangle, topic);
    NothingSeen(reports);
    for previous := 0 to count
      invariant typeName !in Seen(reports, previous)
    {
      SeenOneMore(reports, previous, typeName);
      var previousType := TypeAt(cache, noDemangle, topic, previous);
      if previousType.None? {
        continue;
      }
      if previousType.value == typeName {
        SeenGrows(reports, previous + 1, count);
        return true;
      }
    }
    return false;
  }

  predicate IsTexts(out: seq<CString>, texts: seq<string>) {
    |out| == |texts| && forall i :: 0 <= i < |texts| ==> out[i] == Text(texts[i])
  }

  /** Second pass: writes each type that the output does not hold yet. The array has exactly the size
      the first pass counted; no write is out of bounds and no slot is left empty. */
  method WriteTypes(cache: GraphCache, noDemangle: bool, topic: string) returns (types: array<CString>)
    requires cache.Shape()
    ensures fresh(types)
    ensures IsTexts(types[..], ListedTypes(cache.State(), noDemangle, topic))
  {
    hide Dedup, Seen, TypeReports, ReportedType;
    var typeCount := CountTypes(cache, noDemangle, topic);
    types := new CString[typeCount](_ => Null);
    var outputType := 0;
    ghost var c, reports := cache.State(), TypeReports(cache.State(), noDemangle, topic);
    ghost var written: seq<string> := [];
    NothingReported(reports);
    for i := 0 to cache.endpointCount
      invariant cache.State() == c
      invariant written == Dedup(Seen(reports, i))
      invariant outputType == |written| <= types.Length
      invariant forall k :: 0 <= k < outputType ==> types[k] == Text(written[k])
    {
      ReportStep(reports, i);
      var typeName := TypeAt(cache, noDemangle, topic, i);
      if typeName.Some? {
        var duplicate := IsWritten(types, outputType, typeName.value, written);
        if !duplicate {
          types[outputType] := Text(typeName.value);
          written := written + [typeName.value];
          outputType := outputType + 1;
        }
      }
    }
  }

  method IsWritten(types: array<CString>, count: nat, typeName: string, ghost written: seq<string>)
    returns (duplicate: bool)
    requires count == |written| <= types.Length && forall k :: 0 <= k < count ==> types[k] == Text(written[k])
    ensures duplicate == (typeName in written)
  {
    for previous := 0 to count
      invariant forall k :: 0 <= k < previous ==> written[k] != typeName
    {
      if types[previous] == Text(typeName) {
        return true;
      }
    }
    return false;
  }

  /** One topic of the second loop: its name and its array of types. */
  method WriteTopic(cache: GraphCache, noDemangle: bool, representative: nat, i: nat, ghost topic: string,
                    names: array<CString>, types: array<array?<CString>>)
    requires cache.Shape() && i < names.Length == types.Length
    requires representative < cache.endpointCount && Represents(cache.State(), noDemangle, representative, topic)
    requires names != types as object
    modifies names, types
    ensures names[i] == Text(topic) && forall k :: 0 <= k < names.Length && k != i ==> names[k] == old(names[k])
    ensures types[i] != null && fresh(types[i])
    ensures forall k :: 0 <= k < types.Length && k != i ==> types[k] == old(types[k])
    ensures IsTexts(types[i][..], ListedTypes(old(cache.State()), noDemangle, topic))
  {
    var name := TopicOutputName(cache.endpoints[representative].item.topic, noDemangle);
    var out := WriteTypes(cache, noDemangle, name.value);
    names[i] := Text(name.value);
    types[i] := out;
  }

  /** The whole query. */
  method GetTopicNamesAndTypes(cache: GraphCache, noDemangle: bool)
    returns (names: array<CString>, types: array<array?<CString>>)
    requires cache.Shape()
    ensures fresh(names) && fresh(types)
    ensures IsTexts(names[..], ListedTopics(cache.State(), noDemangle))
    ensures types.Length == names.Length
    ensures forall i :: 0 <= i < types.Length ==>
      (types[i] != null && fresh(types[i]) &&
       IsTexts(types[i][..], ListedTypes(cache.State(), noDemangle, ListedTopics(cache.State(), noDemangle)[i])))
  {
    hide ListedTypes, Represents;
    var representatives, topicCount := FindRepresentatives(cache, noDemangle);
    names := new CString[topicCount](_ => Null);
    types := new array?<CString>[topicCount](_ => null);
    ghost var c, listed := cache.State(), ListedTopics(cache.State(), noDemangle);
    for i := 0 to topicCount
      invariant cache.State() == c
      invariant forall k :: 0 <= k < topicCount ==>
        (representatives[k] < cache.endpointCount && Represents(c, noDemangle, representatives[k], listed[k]))
      invariant forall k :: 0 <= k < i ==> names[k] == Text(listed[k])
      invariant forall k :: 0 <= k < i ==> types[k] != null && fresh(types[k]) && types[k] != names
      invariant forall k :: 0 <= k < i ==> IsTexts(types[k][..], ListedTypes(c, noDemangle, listed[k]))
    {
      WriteTopic(cache, noDemangle, representatives[i], i, listed[i], names, types);
    }
  }
}
