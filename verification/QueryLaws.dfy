/** Laws that relate the different graph queries to each other. */
module QueryLaws {
  import opened GraphTypes
  import opened CacheSpec
  import opened QuerySpec
  import opened Names
  import opened GraphQueries

  /** Publishers plus subscribers of a ROS topic. */
  function RosCount(c: Cache, name: string): nat {
    TopicCount(c, "rt" + name, true) + TopicCount(c, "rt" + name, false)
  }

  /** The visible endpoints reported under a ROS topic name, of either direction. */
  function Reporting(c: Cache, name: string): set<CachedEndpoint> {
    set e | e in Visible(c) && TopicOutputName(e.item.topic, false) == Some(name)
  }

  lemma {:induction false} RosCountIsReporting(c: Cache, name: string)
    requires name != "" && name[0] == '/'
    ensures RosCount(c, name) == |Reporting(c, name)|
  {
    hide Visible, TopicOutputName;
    var w, r := VisibleOn(c, "rt" + name, true), VisibleOn(c, "rt" + name, false);
    forall e ensures e in Reporting(c, name) <==> e in w + r {
      TopicNamesRoundTrip(e.item.topic, name);
    }
    assert Reporting(c, name) == w + r;
    assert w !! r;
  }

  /** An absolute name is listed by the demangled topic query exactly when the count queries
      find at least one publisher or subscriber of it. */
  lemma {:induction false} ListedIffCounted(c: Cache, name: string)
    requires name != "" && name[0] == '/'
    ensures name in ListedTopics(c, false) <==> RosCount(c, name) > 0
  {
    RosCountIsReporting(c, name);
    ListingIsExact(c, false, name, "");
    if e :| e in Visible(c) && TopicOutputName(e.item.topic, false) == Some(name) {
      assert e in Reporting(c, name);
    }
    if |Reporting(c, name)| > 0 {
      var e :| e in Reporting(c, name);
    }
  }

  function SumOfCounts(c: Cache, names: seq<string>): nat {
    if names == [] then 0 else SumOfCounts(c, names[..|names| - 1]) + RosCount(c, names[|names| - 1])
  }

  function ReportingAny(c: Cache, names: seq<string>): set<CachedEndpoint> {
    set e | e in Visible(c) && TopicOutputName(e.item.topic, false).Some? && TopicOutputName(e.item.topic, false).value in names
  }

  lemma {:induction false} CountsAreDisjoint(c: Cache, names: seq<string>)
    requires Distinct(names) && forall i :: 0 <= i < |names| ==> names[i] != "" && names[i][0] == '/'
    ensures SumOfCounts(c, names) == |ReportingAny(c, names)|
  {
    hide Visible, TopicOutputName, RosCount;
    if names == [] {
      assert ReportingAny(c, names) == {};
    } else {
      var front, last := names[..|names| - 1], names[|names| - 1];
      CountsAreDisjoint(c, front);
      RosCountIsReporting(c, last);
      assert names == front + [last];
      assert ReportingAny(c, names) == ReportingAny(c, front) + Reporting(c, last);
      assert ReportingAny(c, front) !! Reporting(c, last);
    }
  }

  function RosEndpoints(c: Cache): set<CachedEndpoint> {
    set e | e in Visible(c) && |e.item.topic| >= 3 && e.item.topic[..3] == "rt/"
  }

  /** Conservation: the counts of all listed names add up to the number of associated endpoints whose
      DDS topic starts with "rt/"; nothing is lost and nothing is counted twice, however many nodes
      or repeated list entries claim the same endpoint. */
  lemma {:induction false} CountsAddUp(c: Cache)
    ensures SumOfCounts(c, ListedTopics(c, false)) == |RosEndpoints(c)|
  {
    hide ListedTopics, Visible;
    var names := ListedTopics(c, false);
    ListingIsExact(c, false, "", "");
    forall i | 0 <= i < |names| ensures names[i] != "" && names[i][0] == '/' {
      ListingIsExact(c, false, names[i], "");
      var e :| e in Visible(c) && TopicOutputName(e.item.topic, false) == Some(names[i]);
      TopicNamesRoundTrip(e.item.topic, names[i]);
    }
    CountsAreDisjoint(c, names);
    forall e | e in RosEndpoints(c) ensures e in ReportingAny(c, names) {
      RosEndpointIsListed(c, e);
    }
    assert ReportingAny(c, names) == RosEndpoints(c);
  }

  lemma {:induction false} RosEndpointIsListed(c: Cache, e: CachedEndpoint)
    requires e in RosEndpoints(c)
    ensures TopicOutputName(e.item.topic, false) == Some(e.item.topic[2..])
    ensures e.item.topic[2..] in ListedTopics(c, false)
  {
    var t := e.item.topic;
    assert t[..3][1] == 't' && "ros_discovery_info"[1] == 'o';
    ListingIsExact(c, false, t[2..], "");
  }

  /** The listed names and types are determined by what is visible, not by the order of the cache. */
  lemma {:induction false} ListingsFollowVisible(c: Cache, d: Cache, noDemangle: bool, topic: string, typeName: string)
    requires Visible(c) == Visible(d)
    ensures topic in ListedTopics(c, noDemangle) <==> topic in ListedTopics(d, noDemangle)
    ensures typeName in ListedTypes(c, noDemangle, topic) <==> typeName in ListedTypes(d, noDemangle, topic)
  {
    hide ListedTopics, ListedTypes, Visible, TopicOutputName, TypeOutputName;
    ListingIsExact(c, noDemangle, topic, typeName);
    ListingIsExact(d, noDemangle, topic, typeName);
  }

  // ---------- what the listings hold, in terms of the DDS names ----------

  /** Without demangling, the listing holds the DDS topics of the visible endpoints as they are, but for the
      graph topic, and for each of them the DDS type names of its endpoints as they are. */
  lemma {:induction false} UndemangledListing(c: Cache, t: string, typeName: string)
    ensures t in ListedTopics(c, true) <==>
            t != "ros_discovery_info" && exists e :: e in Visible(c) && e.item.topic == t
    ensures typeName in ListedTypes(c, true, t) <==>
            t != "ros_discovery_info" && exists e :: e in Visible(c) && e.item.topic == t && e.item.typeName == typeName
  {
    hide Visible;
    ListingIsExact(c, true, t, typeName);
    if t != "ros_discovery_info" {
      if e :| e in Visible(c) && e.item.topic == t {
        assert TopicOutputName(e.item.topic, true) == Some(t);
      }
      if e :| e in Visible(c) && e.item.topic == t && e.item.typeName == typeName {
        assert TopicOutputName(e.item.topic, true) == Some(t) && TypeOutputName(e.item.typeName, true) == typeName;
      }
    }
  }

  /** With demangling, the listing holds the absolute names whose DDS topic, with "rt" in front, some visible endpoint
      has, and for each of them the type names of those endpoints, translated. */
  lemma {:induction false} DemangledListing(c: Cache, t: string)
    ensures t in ListedTopics(c, false) <==>
            t != "" && t[0] == '/' && exists e :: e in Visible(c) && e.item.topic == "rt" + t
    ensures forall typeName :: typeName in ListedTypes(c, false, t) <==>
            t != "" && t[0] == '/' && exists e :: e in Visible(c) && e.item.topic == "rt" + t && TypeOutputName(e.item.typeName, false) == typeName
  {
    hide Visible, TopicOutputName;
    forall e: CachedEndpoint
      ensures TopicOutputName(e.item.topic, false) == Some(t) <==> t != "" && t[0] == '/' && e.item.topic == "rt" + t
    {
      TopicNamesRoundTrip(e.item.topic, t);
    }
    forall typeName ensures typeName in ListedTypes(c, false, t) <==>
      exists e :: e in Visible(c) && TopicOutputName(e.item.topic, false) == Some(t) && TypeOutputName(e.item.typeName, false) == typeName
    {
      ListingIsExact(c, false, t, typeName);
    }
    ListingIsExact(c, false, t, "");
  }

  /** The demangled listing reports the type name of a visible endpoint unchanged when it lacks the marker or the final
      underscore, and as the ROS type name when the type support generator made it from components without marker. */
  lemma {:induction false} DemangledTypesAreListed(c: Cache, t: string, e: CachedEndpoint, namespaces: seq<string>, name: string)
    requires t != "" && t[0] == '/' && e in Visible(c) && e.item.topic == "rt" + t
    ensures var s := e.item.typeName;
      s == "" || s[|s| - 1] != '_' || (forall i :: 0 <= i < |s| ==> !OccursAt(s, "dds_::", i)) ==> s in ListedTypes(c, false, t)
    ensures e.item.typeName == DdsTypeName(namespaces, name) && NoMarkerLike(namespaces) && NoColon(name) &&
            (forall k :: 0 <= k < |namespaces| ==> NoColon(namespaces[k])) ==>
            RosTypeName(namespaces, name) in ListedTypes(c, false, t)
  {
    hide Visible, ListedTypes, TypeOutputName;
    TypeOutputIs(e.item.typeName, false, "", "");
    DemangledListing(c, t);
    if e.item.typeName == DdsTypeName(namespaces, name) && NoMarkerLike(namespaces) && NoColon(name) &&
       forall k :: 0 <= k < |namespaces| ==> NoColon(namespaces[k])
    {
      TypeNamesRoundTrip(namespaces, name);
    }
  }
}
