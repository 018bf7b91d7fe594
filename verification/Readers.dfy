/** Programs that read the graph cache one memory access at a time and compute an answer: what such a
    program answers when nothing else happens, and how far it is from its end. */
module Readers {
  import opened GraphTypes
  import opened CacheSpec

  datatype Types = Types(size: nat, names: seq<string>)   // an output array: its allocated size, and what was written

  datatype Answer =
    | Counted(count: nat)
    | NodesNamed(names: seq<string>, namespaces: seq<string>)
    | TopicsTyped(topics: seq<string>, types: seq<Types>)

  /** A program is about to end, or to read a count or an array element and go on with what it got. */
  datatype Reader =
    | Return(answer: Answer)
    | ReadNodeCount(withCount: nat -> Reader)
    | ReadEndpointCount(withCount: nat -> Reader)
    | ReadNode(index: nat, withNode: CachedNode -> Reader)
    | ReadEndpoint(index: nat, withEndpoint: CachedEndpoint -> Reader)

  /** One access. An element past its count reads as cleared memory. */
  function Accessed(r: Reader, c: Cache): Reader {
    match r
    case Return(_) => r
    case ReadNodeCount(next) => next(|c.nodes|)
    case ReadEndpointCount(next) => next(|c.endpoints|)
    case ReadNode(i, next) => next(if i < |c.nodes| then c.nodes[i] else ZERO_NODE)
    case ReadEndpoint(i, next) => next(if i < |c.endpoints| then c.endpoints[i] else ZERO_ENDPOINT)
  }

  /** What is left of a program after n accesses to the same state. */
  function After(r: Reader, c: Cache, n: nat): Reader
    decreases n
  {
    if n == 0 then r else After(Accessed(r, c), c, n - 1)
  }

  ghost predicate Reaches(r: Reader, c: Cache, t: Reader) {
    exists n: nat :: After(r, c, n) == t
  }

  /** The program, run alone on this state, ends with this answer. */
  ghost predicate Yields(r: Reader, c: Cache, answer: Answer) {
    Reaches(r, c, Return(answer))
  }

  lemma {:induction false} AfterSum(r: Reader, c: Cache, n: nat, m: nat)
    ensures After(r, c, n + m) == After(After(r, c, n), c, m)
    decreases n
  {
    if n > 0 {
      AfterSum(Accessed(r, c), c, n - 1, m);
    }
  }

  lemma {:induction false} ReturnStays(answer: Answer, c: Cache, n: nat)
    ensures After(Return(answer), c, n) == Return(answer)
  {
    if n > 0 {
      ReturnStays(answer, c, n - 1);
    }
  }

  /** A program has at most one answer on a state. */
  lemma {:induction false} YieldsOnce(r: Reader, c: Cache, a: Answer, b: Answer)
    requires Yields(r, c, a) && Yields(r, c, b)
    ensures a == b
  {
    var n: nat :| After(r, c, n) == Return(a);
    var m: nat :| After(r, c, m) == Return(b);
    if n <= m {
      AfterSum(r, c, n, m - n);
      ReturnStays(a, c, m - n);
    } else {
      AfterSum(r, c, m, n - m);
      ReturnStays(b, c, n - m);
    }
  }

  lemma {:induction false} ReachesAfter(r: Reader, c: Cache, n: nat, t: Reader)
    requires Reaches(After(r, c, n), c, t)
    ensures Reaches(r, c, t)
  {
    var m: nat :| After(After(r, c, n), c, m) == t;
    AfterSum(r, c, n, m);
    assert After(r, c, n + m) == t;
  }

  lemma {:induction false} ReachesThrough(r: Reader, c: Cache, s: Reader, t: Reader)
    requires Reaches(r, c, s) && Reaches(s, c, t)
    ensures Reaches(r, c, t)
  {
    var n: nat :| After(r, c, n) == s;
    ReachesAfter(r, c, n, t);
  }

  lemma {:induction false} ReachesItself(r: Reader, c: Cache)
    ensures Reaches(r, c, r)
  {
    assert After(r, c, 0) == r;
  }

  // ---------- the way to the end ----------

  ghost predicate Ends(r: Reader, c: Cache) {
    exists n: nat :: After(r, c, n).Return?
  }

  /** A query: it ends on every state that the cache invariant allows. */
  ghost predicate IsQuery(limits: Limits, r: Reader) {
    forall c :: Inv(limits, c) ==> Ends(r, c)
  }

  ghost predicate EndsAt(r: Reader, c: Cache, n: nat) {
    After(r, c, n).Return? && forall m: nat :: m < n ==> !After(r, c, m).Return?
  }

  /** The number of accesses that are left. */
  ghost function Left(r: Reader, c: Cache): nat {
    if n: nat :| EndsAt(r, c, n) then n else 0
  }

  lemma {:induction false} FirstEnd(r: Reader, c: Cache, n: nat) returns (k: nat)
    requires After(r, c, n).Return?
    ensures EndsAt(r, c, k)
    decreases n
  {
    if r.Return? {
      k := 0;
      assert After(r, c, 0) == r;
    } else {
      k := FirstEnd(Accessed(r, c), c, n - 1);
      k := k + 1;
      assert After(r, c, 0) == r;
      forall m: nat | m < k ensures !After(r, c, m).Return? {
        if m > 0 {
          assert After(r, c, m) == After(Accessed(r, c), c, m - 1);
        }
      }
    }
  }

  lemma {:induction false} LeftIs(r: Reader, c: Cache, n: nat)
    requires EndsAt(r, c, n)
    ensures Left(r, c) == n
  {
    var m := Left(r, c);
    assert EndsAt(r, c, m);
  }

  /** Every access of a program that ends brings it one access closer to its end. */
  lemma {:induction false} AccessBringsCloser(r: Reader, c: Cache)
    requires Ends(r, c) && !r.Return?
    ensures Ends(Accessed(r, c), c) && Left(Accessed(r, c), c) + 1 == Left(r, c)
  {
    var n: nat :| After(r, c, n).Return?;
    var k := FirstEnd(Accessed(r, c), c, n - 1);
    LeftIs(Accessed(r, c), c, k);
    assert After(r, c, k + 1) == After(Accessed(r, c), c, k);
    forall m: nat | m < k + 1 ensures !After(r, c, m).Return? {
      if m > 0 {
        assert After(r, c, m) == After(Accessed(r, c), c, m - 1);
      }
    }
    LeftIs(r, c, k + 1);
  }

  lemma {:induction false} StillEnds(r: Reader, c: Cache, n: nat)
    requires Ends(r, c)
    ensures Ends(After(r, c, n), c)
  {
    var k: nat :| After(r, c, k).Return?;
    if k <= n {
      AfterSum(r, c, k, n - k);
      ReturnStays(After(r, c, k).answer, c, n - k);
      assert After(After(r, c, n), c, 0).Return?;
    } else {
      AfterSum(r, c, n, k - n);
      assert After(After(r, c, n), c, k - n).Return?;
    }
  }
}
