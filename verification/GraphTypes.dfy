/** Values of the ROS graph engine: identifiers, names, limits and snapshots, and the
    sequence operations (filter, project, tag) that the engine's loops compute. */
module GraphTypes {

  datatype Option<+T> = None | Some(value: T)

  /** The return codes the modelled entry points use. */
  datatype Ret = Ok | Error | InvalidArgument | Unsupported | Timeout

  /** A DDS GUID. The engine only compares GUIDs, so their bytes are kept abstract;
      the all-zero GUID is what cleared memory holds. */
  datatype Guid = Guid(value: nat)

  const ZERO_GUID := Guid(0)

  const GRAPH_STRING_BOUND: nat := 256

  /** The build-time limits. Any positive values are legal, in any relation to each other. */
  datatype RawLimits = Limits(
    maxNodes: nat,
    maxEndpointsPerNode: nat,
    cacheMaxParticipants: nat,
    cacheMaxNodes: nat,
    cacheMaxEndpoints: nat)

  type Limits = l: RawLimits |
      0 < l.maxNodes && 0 < l.maxEndpointsPerNode && 0 < l.cacheMaxParticipants &&
      0 < l.cacheMaxNodes && 0 < l.cacheMaxEndpoints
    witness Limits(8, 16, 8, 16, 32)

  /** A C string argument: possibly a null pointer, otherwise the characters before the NUL. */
  datatype CString = Null | Text(chars: string)

  predicate StringFits(value: CString) {
    value.Text? && |value.chars| <= GRAPH_STRING_BOUND
  }

  /** One node of a participant: its names and the GUIDs of its endpoints. */
  datatype NodeInfo = NodeInfo(name: string, namespace_: string, readers: seq<Guid>, writers: seq<Guid>) {
    function Gids(writer: bool): seq<Guid> {
      if writer then writers else readers
    }

    function WithGids(writer: bool, gids: seq<Guid>): NodeInfo {
      if writer then this.(writers := gids) else this.(readers := gids)
    }

    predicate Fits(limits: Limits) {
      |readers| <= limits.maxEndpointsPerNode && |writers| <= limits.maxEndpointsPerNode &&
      |name| <= GRAPH_STRING_BOUND && |namespace_| <= GRAPH_STRING_BOUND
    }
  }

  datatype EndpointInfo = EndpointInfo(guid: Guid, topic: string, typeName: string, writer: bool)

  /** A full graph announcement of one participant. */
  datatype Snapshot = Snapshot(participant: Guid, nodes: seq<NodeInfo>)

  /** An array element that records which participant it came from. */
  datatype Owned<T> = Owned(participant: Guid, item: T)

  type CachedNode = Owned<NodeInfo>
  type CachedEndpoint = Owned<EndpointInfo>

  const ZERO_NODE: CachedNode := Owned(ZERO_GUID, NodeInfo("", "", [], []))
  const ZERO_ENDPOINT: CachedEndpoint := Owned(ZERO_GUID, EndpointInfo(ZERO_GUID, "", "", false))

  // ---------- operations on sequences of owned items ----------

  /** The elements that do not belong to p, in order. */
  function Without<T>(s: seq<Owned<T>>, p: Guid): seq<Owned<T>> {
    if s == [] then []
    else
      var front := Without(s[..|s| - 1], p);
      if s[|s| - 1].participant == p then front else front + [s[|s| - 1]]
  }

  /** The items that belong to p, in order. */
  function Of<T>(s: seq<Owned<T>>, p: Guid): seq<T> {
    if s == [] then []
    else
      var front := Of(s[..|s| - 1], p);
      if s[|s| - 1].participant == p then front + [s[|s| - 1].item] else front
  }

  function Tag<T>(p: Guid, items: seq<T>): (r: seq<Owned<T>>)
    ensures |r| == |items|
    ensures forall i :: 0 <= i < |r| ==> r[i] == Owned(p, items[i])
  {
    seq(|items|, i requires 0 <= i < |items| => Owned(p, items[i]))
  }

  function RemoveAt<T>(s: seq<T>, i: nat): seq<T>
    requires i < |s|
  {
    s[..i] + s[i + 1..]
  }

  predicate Distinct<T(==)>(s: seq<T>) {
    forall i, j :: 0 <= i < j < |s| ==> s[i] != s[j]
  }

  lemma {:induction false} RemoveAtFromDistinct<T>(s: seq<T>, i: nat)
    requires i < |s| && Distinct(s)
    ensures Distinct(RemoveAt(s, i))
    ensures forall x :: x in RemoveAt(s, i) <==> x in s && x != s[i]
  {
    var r := RemoveAt(s, i);
    assert forall a :: 0 <= a < |r| ==> r[a] == s[if a < i then a else a + 1];
    forall a, b | 0 <= a < b < |r| ensures r[a] != r[b] {
      assert s[if a < i then a else a + 1] != s[if b < i then b else b + 1];
    }
    forall x | x in s && x != s[i] ensures x in r {
      var k :| 0 <= k < |s| && s[k] == x;
      assert r[if k < i then k else k - 1] == x;
    }
  }

  /** The elements of a sequence are, with multiplicity, those of its owners taken one by one. */
  lemma {:induction false} OfCounts<T>(s: seq<Owned<T>>, p: Guid, x: T)
    ensures multiset(Of(s, p))[x] == multiset(s)[Owned(p, x)]
  {
    if s != [] {
      OfCounts(s[..|s| - 1], p, x);
      assert s == s[..|s| - 1] + [s[|s| - 1]];
    }
  }

  lemma {:induction false} SameOwnersSameMultiset<T(!new)>(s: seq<Owned<T>>, t: seq<Owned<T>>)
    requires forall p :: Of(s, p) == Of(t, p)
    ensures multiset(s) == multiset(t)
  {
    forall e | true ensures multiset(s)[e] == multiset(t)[e] {
      OfCounts(s, e.participant, e.item);
      OfCounts(t, e.participant, e.item);
    }
  }

  lemma {:induction false} WithoutConcat<T>(s: seq<Owned<T>>, t: seq<Owned<T>>, p: Guid)
    ensures Without(s + t, p) == Without(s, p) + Without(t, p)
  {
    if t == [] {
      assert s + t == s;
    } else {
      assert (s + t)[..|s + t| - 1] == s + t[..|t| - 1];
      WithoutConcat(s, t[..|t| - 1], p);
    }
  }

  lemma {:induction false} OfConcat<T>(s: seq<Owned<T>>, t: seq<Owned<T>>, p: Guid)
    ensures Of(s + t, p) == Of(s, p) + Of(t, p)
  {
    if t == [] {
      assert s + t == s;
    } else {
      assert (s + t)[..|s + t| - 1] == s + t[..|t| - 1];
      OfConcat(s, t[..|t| - 1], p);
    }
  }

  lemma {:induction false} OfTag<T>(items: seq<T>, q: Guid, p: Guid)
    ensures Of(Tag(q, items), p) == if p == q then items else []
    ensures Without(Tag(q, items), p) == if p == q then [] else Tag(q, items)
  {
    if items != [] {
      var front := items[..|items| - 1];
      assert Tag(q, items)[..|items| - 1] == Tag(q, front);
      OfTag(front, q, p);
      assert items == front + [items[|items| - 1]];
    }
  }

  lemma {:induction false} OfWithout<T>(s: seq<Owned<T>>, q: Guid, p: Guid)
    ensures Of(Without(s, q), p) == if p == q then [] else Of(s, p)
    ensures Without(Without(s, q), q) == Without(s, q)
  {
    if s != [] {
      var front, last := s[..|s| - 1], s[|s| - 1];
      OfWithout(front, q, p);
      if last.participant != q {
        OfConcat(Without(front, q), [last], p);
        WithoutConcat(Without(front, q), [last], q);
        assert Of([last], p) == if last.participant == p then [last.item] else [];
        assert Without([last], q) == [last];
      }
    }
  }

  lemma {:induction false} SplitSizes<T>(s: seq<Owned<T>>, p: Guid)
    ensures |Without(s, p)| + |Of(s, p)| == |s|
  {
    if s != [] {
      SplitSizes(s[..|s| - 1], p);
    }
  }

  lemma {:induction false} WithoutMembers<T>(s: seq<Owned<T>>, p: Guid)
    ensures forall e :: e in Without(s, p) <==> e in s && e.participant != p
  {
    if s != [] {
      WithoutMembers(s[..|s| - 1], p);
      assert s == s[..|s| - 1] + [s[|s| - 1]];
    }
  }

  lemma {:induction false} OfMembers<T>(s: seq<Owned<T>>, p: Guid)
    ensures forall x :: x in Of(s, p) <==> Owned(p, x) in s
  {
    if s != [] {
      OfMembers(s[..|s| - 1], p);
      assert s == s[..|s| - 1] + [s[|s| - 1]];
    }
  }
}
