/** Concurrent execution: threads that make API calls, handle discovery events or run queries, each a
    sequence of small steps under the two spin locks. Memory that is being updated is arbitrary until the
    update is finished; the sequential specification says what it is then. A query reads the cache memory one
    access at a time. */
module Locks {
  import opened GraphTypes
  import opened CacheSpec
  import opened LocalSpec
  import opened Readers

  type Thread = nat

  /** Where a thread is. "Wants" states spin on a lock, "Holds" states have acquired it. */
  datatype Pc<H> =
    | Idle
    | UpdateWants(event: Event)
    | UpdateHolds(event: Event, begin: Cache)
    | CallWants(call: Call<H>, writeOk: bool)
    | CallHolds(call: Call<H>, writeOk: bool, start: seq<Entry<H>>)
    | CallWantsCache(call: Call<H>, start: seq<Entry<H>>)
    | CallHoldsCache(call: Call<H>, start: seq<Entry<H>>, begin: Cache)
    | CallUnlocks(target: seq<Entry<H>>, ret: Ret, logged: nat)   // about to return; its place in the log
    | QueryWants(query: Reader)
    | QueryHolds(query: Reader, accesses: nat, rest: Reader)
  {
    predicate HoldsGraph() {
      CallHolds? || CallWantsCache? || CallHoldsCache? || CallUnlocks?
    }

    predicate HoldsCache() {
      UpdateHolds? || CallHoldsCache? || QueryHolds?
    }

    /** The call that has been started and has not taken effect yet. */
    function Pending(): Option<Call<H>> {
      if CallWants? || CallHolds? || CallWantsCache? || CallHoldsCache? then Some(call) else None
    }

    /** Inside a critical section that changes the cache. */
    predicate WritesCache() {
      UpdateHolds? || CallHoldsCache?
    }
  }

  /** What took effect, in the order it did, and what it told its caller. */
  datatype Effect<H> =
    | Did(call: Call<H>, writeOk: bool, ret: Ret)
    | Saw(event: Event, taken: bool)
    | Answered(query: Reader, answer: Answer)

  datatype System<H> = System(
    threads: map<Thread, Pc<H>>,
    graphLock: Option<Thread>,
    cacheLock: Option<Thread>,
    table: seq<Entry<H>>,     // the memory that the graph lock protects
    cache: Cache,             // the memory that the cache lock protects
    log: seq<Effect<H>>)      // what has taken effect so far

  function AfterEffect<H(==)>(limits: Limits, c: Context<H>, e: Effect<H>): Context<H> {
    match e
    case Did(call, writeOk, _) => Perform(limits, c, call, writeOk).context
    case Saw(event, _) => Receive(limits, c, event)
    case Answered(_, _) => c
  }

  /** The context after the logged effects, one after the other. */
  function Replay<H(==)>(limits: Limits, own: Guid, log: seq<Effect<H>>): Context<H> {
    if |log| == 0 then Initial(limits, own)
    else AfterEffect(limits, Replay(limits, own, log[..|log| - 1]), log[|log| - 1])
  }

  datatype Move<H> =
    | StartUpdate(event: Event)
    | StartCall(call: Call<H>, writeOk: bool)
    | StartQuery(query: Reader)
    | ScribbleTable(garbage: seq<Entry<H>>)   // a thread in the middle of changing the table
    | ScribbleCache(junk: Cache)              // a thread in the middle of changing the cache
    | Advance                                 // take the lock it wants, or go on to the next state

  ghost predicate Enabled<H>(limits: Limits, s: System<H>, t: Thread, m: Move<H>) {
    t in s.threads &&
    match m
    case StartUpdate(_) => s.threads[t].Idle?
    case StartCall(_, _) => s.threads[t].Idle?
    case StartQuery(q) => s.threads[t].Idle? && IsQuery(limits, q)
    case ScribbleTable(_) => s.threads[t].CallHolds? || s.threads[t].CallUnlocks?
    case ScribbleCache(_) => s.threads[t].WritesCache()
    case Advance =>
      match s.threads[t]
      case Idle => false
      case UpdateWants(_) => s.cacheLock.None?
      case CallWants(_, _) => s.graphLock.None?
      case CallWantsCache(_, _) => s.cacheLock.None?
      case QueryWants(_) => s.cacheLock.None?
      case _ => true
  }

  function Next<H(==)>(limits: Limits, own: Guid, s: System<H>, t: Thread, m: Move<H>): System<H>
    requires Enabled(limits, s, t, m)
  {
    match m
    case StartUpdate(e) => s.(threads := s.threads[t := UpdateWants(e)])
    case StartCall(call, writeOk) => s.(threads := s.threads[t := CallWants(call, writeOk)])
    case StartQuery(q) => s.(threads := s.threads[t := QueryWants(q)])
    case ScribbleTable(garbage) => s.(table := garbage)
    case ScribbleCache(junk) => s.(cache := junk)
    case Advance => Advanced(limits, own, s, t)
  }

  function SnapshotOfTable<H>(own: Guid, table: seq<Entry<H>>): Snapshot {
    Snapshot(own, Infos(table))
  }

  /** Whether a call goes on to the cache: its checks pass, and the write and the bounds that are tested
      before the cache lock is taken do not fail. */
  predicate GoesOn<H(==)>(limits: Limits, own: Guid, call: Call<H>, writeOk: bool, start: seq<Entry<H>>) {
    Check(limits, start, call) == Ok && writeOk && SnapshotFits(limits, SnapshotOfTable(own, Changed(start, call)))
  }

  function Advanced<H(==)>(limits: Limits, own: Guid, s: System<H>, t: Thread): System<H>
    requires Enabled(limits, s, t, Advance)
  {
    match s.threads[t]
    case UpdateWants(e) => s.(cacheLock := Some(t), threads := s.threads[t := UpdateHolds(e, s.cache)])
    case UpdateHolds(e, begin) =>
      s.(cache := Step(limits, begin, e), cacheLock := None, log := s.log + [Saw(e, Accepts(limits, begin, e))],
         threads := s.threads[t := Idle])
    case CallWants(call, writeOk) => s.(graphLock := Some(t), threads := s.threads[t := CallHolds(call, writeOk, s.table)])
    case CallHolds(call, writeOk, start) =>
      if GoesOn(limits, own, call, writeOk, start) then
        s.(table := Changed(start, call), threads := s.threads[t := CallWantsCache(call, start)])
      else
        var check := Check(limits, start, call);
        var ret := if check != Ok then check else Error;
        var kept := if check != Ok || RollsBack(call) then start else Changed(start, call);
        s.(threads := s.threads[t := CallUnlocks(kept, ret, |s.log|)], log := s.log + [Did(call, writeOk, ret)])
    case CallWantsCache(call, start) => s.(cacheLock := Some(t), threads := s.threads[t := CallHoldsCache(call, start, s.cache)])
    case CallHoldsCache(call, start, begin) =>
      var event := SnapshotTaken(SnapshotOfTable(own, Changed(start, call)));
      var ret := if Accepts(limits, begin, event) then Ok else Error;
      var kept := if RollsBack(call) && ret != Ok then start else Changed(start, call);
      s.(cache := Step(limits, begin, event), cacheLock := None, log := s.log + [Did(call, true, ret)],
         threads := s.threads[t := CallUnlocks(kept, ret, |s.log|)])
    case CallUnlocks(target, _, _) => s.(table := target, graphLock := None, threads := s.threads[t := Idle])
    case QueryWants(q) => s.(cacheLock := Some(t), threads := s.threads[t := QueryHolds(q, 0, q)])
    case QueryHolds(q, n, rest) =>
      if rest.Return? then s.(cacheLock := None, log := s.log + [Answered(q, rest.answer)], threads := s.threads[t := Idle])
      else s.(threads := s.threads[t := QueryHolds(q, n + 1, Accessed(rest, s.cache))])
    case Idle => s
  }

  // ---------- the locks ----------

  /** Each lock is held by exactly the thread whose state says so. */
  ghost predicate LocksMatch<H>(s: System<H>) {
    (forall t :: t in s.threads ==> (s.threads[t].HoldsGraph() <==> s.graphLock == Some(t))) &&
    (forall t :: t in s.threads ==> (s.threads[t].HoldsCache() <==> s.cacheLock == Some(t))) &&
    (s.graphLock.Some? ==> s.graphLock.value in s.threads) &&
    (s.cacheLock.Some? ==> s.cacheLock.value in s.threads)
  }

  /** A lock when its thread goes from one state to another. */
  predicate LockMoves(before: Option<Thread>, after: Option<Thread>, t: Thread, had: bool, has: bool) {
    if has then after == Some(t) && (had || before.None?)
    else if had then after.None?
    else after == before
  }

  /** What a move does to the threads and the locks: it changes one thread, and each lock follows it. */
  lemma {:induction false} MoveIsLocal<H>(limits: Limits, own: Guid, s: System<H>, t: Thread, m: Move<H>)
    requires Enabled(limits, s, t, m) && LocksMatch(s)
    ensures var r := Next(limits, own, s, t, m);
      t in s.threads && r.threads.Keys == s.threads.Keys &&
      (forall u :: u in s.threads && u != t ==> r.threads[u] == s.threads[u]) &&
      LockMoves(s.graphLock, r.graphLock, t, s.threads[t].HoldsGraph(), r.threads[t].HoldsGraph()) &&
      LockMoves(s.cacheLock, r.cacheLock, t, s.threads[t].HoldsCache(), r.threads[t].HoldsCache())
  {
    hide Step, Check, Changed, Accepts, GoesOn, SnapshotOfTable, IsQuery, Accessed, RollsBack, LocksMatch;
    assert s.threads[t].HoldsGraph() <==> s.graphLock == Some(t) by {
      LocksMatchAt(s, t);
    }
    assert s.threads[t].HoldsCache() <==> s.cacheLock == Some(t) by {
      LocksMatchAt(s, t);
    }
    if m.Advance? {
      match s.threads[t] {
        case UpdateWants(_) =>
        case UpdateHolds(_, _) =>
        case CallWants(_, _) =>
        case CallHolds(_, _, _) =>
        case CallWantsCache(_, _) =>
        case CallHoldsCache(_, _, _) =>
        case CallUnlocks(_, _, _) =>
        case QueryWants(_) =>
        case QueryHolds(_, _, _) =>
      }
    }
  }

  lemma {:induction false} LocksMatchAt<H>(s: System<H>, t: Thread)
    requires LocksMatch(s) && t in s.threads
    ensures s.threads[t].HoldsGraph() <==> s.graphLock == Some(t)
    ensures s.threads[t].HoldsCache() <==> s.cacheLock == Some(t)
  {
  }

  lemma {:induction false} NextKeepsLocks<H>(limits: Limits, own: Guid, s: System<H>, t: Thread, m: Move<H>)
    requires LocksMatch(s) && Enabled(limits, s, t, m)
    ensures LocksMatch(Next(limits, own, s, t, m))
  {
    hide Next, Enabled;
    MoveIsLocal(limits, own, s, t, m);
  }

  // ---------- the invariant ----------

  /** What a thread has read under its locks is what the replayed log says, and so is what it is about to return. */
  ghost predicate ThreadAgrees<H>(limits: Limits, own: Guid, c: Context<H>, log: seq<Effect<H>>, pc: Pc<H>) {
    match pc
    case UpdateHolds(_, begin) => begin == c.cache
    case CallHolds(_, _, start) => start == c.table
    case CallWantsCache(call, start) => start == c.table && GoesOn(limits, own, call, true, start)
    case CallHoldsCache(call, start, begin) => start == c.table && GoesOn(limits, own, call, true, start) && begin == c.cache
    case CallUnlocks(target, ret, k) => target == c.table && k < |log| && log[k].Did? && log[k].ret == ret
    case QueryWants(q) => IsQuery(limits, q)
    case QueryHolds(q, n, rest) => IsQuery(limits, q) && rest == After(q, c.cache, n)
    case _ => true
  }

  /** Memory that nobody is changing holds what the replayed log says. */
  ghost predicate MemoryIsCurrent<H>(c: Context<H>, s: System<H>) {
    (s.graphLock.None? ==> s.table == c.table) &&
    (s.cacheLock.None? ==> s.cache == c.cache) &&
    (s.cacheLock.Some? && s.cacheLock.value in s.threads && s.threads[s.cacheLock.value].QueryHolds? ==> s.cache == c.cache)
  }

  /** What a caller was told is what the sequential operation would have told it. */
  ghost predicate EffectAgrees<H>(limits: Limits, c: Context<H>, e: Effect<H>) {
    match e
    case Did(call, writeOk, ret) => ret == Perform(limits, c, call, writeOk).ret
    case Saw(event, taken) => taken == Accepts(limits, c.cache, event)
    case Answered(q, answer) => Yields(q, c.cache, answer)
  }

  ghost predicate LogAgrees<H>(limits: Limits, own: Guid, log: seq<Effect<H>>) {
    forall k :: 0 <= k < |log| ==> EffectAgrees(limits, Replay(limits, own, log[..k]), log[k])
  }

  ghost predicate Consistent<H>(limits: Limits, own: Guid, s: System<H>) {
    var c := Replay(limits, own, s.log);
    LocksMatch(s) && LogAgrees(limits, own, s.log) && c.own == own && Inv(limits, c.cache) &&
    (forall t :: t in s.threads ==> ThreadAgrees(limits, own, c, s.log, s.threads[t])) &&
    MemoryIsCurrent(c, s)
  }

  lemma {:induction false} ReplayStep<H>(limits: Limits, own: Guid, log: seq<Effect<H>>, e: Effect<H>)
    ensures Replay(limits, own, log + [e]) == AfterEffect(limits, Replay(limits, own, log), e)
    ensures LogAgrees(limits, own, log) && EffectAgrees(limits, Replay(limits, own, log), e) ==> LogAgrees(limits, own, log + [e])
  {
    var longer := log + [e];
    assert longer[..|log|] == log;
    forall k | 0 <= k < |longer| && LogAgrees(limits, own, log) && EffectAgrees(limits, Replay(limits, own, log), e)
      ensures EffectAgrees(limits, Replay(limits, own, longer[..k]), longer[k])
    {
      if k < |log| {
        assert longer[..k] == log[..k];
      }
    }
  }

  lemma {:induction false} EffectKeepsCacheInv<H>(limits: Limits, c: Context<H>, e: Effect<H>)
    requires Inv(limits, c.cache)
    ensures AfterEffect(limits, c, e).own == c.own && Inv(limits, AfterEffect(limits, c, e).cache)
  {
    hide Inv, Check, Changed, Accepts;
    match e
    case Did(call, writeOk, _) => StepKeepsInv(limits, c.cache, SnapshotTaken(SnapshotOfTable(c.own, Changed(c.table, call))));
    case Saw(event, _) => StepKeepsInv(limits, c.cache, event);
    case Answered(_, _) =>
  }

  /** The only moves that change the log. */
  predicate Commits<H(==)>(limits: Limits, own: Guid, s: System<H>, t: Thread, m: Move<H>)
    requires t in s.threads
  {
    m.Advance? && match s.threads[t]
      case UpdateHolds(_, _) => true
      case CallHolds(call, writeOk, start) => !GoesOn(limits, own, call, writeOk, start)
      case CallHoldsCache(_, _, _) => true
      case QueryHolds(_, _, rest) => rest.Return?
      case _ => false
  }

  /** A finished critical section has the effect of the sequential operation, and the result. */
  lemma {:induction false} CommitIsSequential<H>(limits: Limits, own: Guid, s: System<H>, t: Thread) returns (e: Effect<H>)
    requires Consistent(limits, own, s) && Enabled(limits, s, t, Advance) && Commits(limits, own, s, t, Advance)
    ensures var c, r := Replay(limits, own, s.log), Next(limits, own, s, t, Advance);
      var d := AfterEffect(limits, c, e);
      r.log == s.log + [e] && EffectAgrees(limits, c, e) && ThreadAgrees(limits, own, d, r.log, r.threads[t]) &&
      (d.table == c.table || s.threads[t].HoldsGraph()) && (d.cache == c.cache || s.threads[t].HoldsCache()) &&
      (s.threads[t].HoldsCache() ==> r.cache == d.cache) && (!s.threads[t].HoldsCache() ==> r.cache == s.cache) &&
      r.table == s.table && r.threads[t].Pending().None? && !r.threads[t].UpdateWants? && !r.threads[t].UpdateHolds? &&
      (e.Did? ==> s.threads[t].Pending() == Some(e.call)) && (e.Saw? ==> s.threads[t].UpdateHolds? && e.event == s.threads[t].event)
  {
    hide Replay, Inv, Check, Changed, Step, Accepts, LocksMatch, LogAgrees, SnapshotFits, RollsBack, IsQuery;
    var c := Replay(limits, own, s.log);
    assert ThreadAgrees(limits, own, c, s.log, s.threads[t]);
    LocksMatchAt(s, t);
    match s.threads[t] {
      case UpdateHolds(event, _) => e := Saw(event, Accepts(limits, c.cache, event));
      case CallHolds(call, writeOk, start) =>
        var event := SnapshotTaken(SnapshotOfTable(own, Changed(start, call)));
        UnfitIsRefused(limits, c.cache, SnapshotOfTable(own, Changed(start, call)));
        RefusalChangesNothing(limits, c.cache, event);
        e := Did(call, writeOk, if Check(limits, start, call) != Ok then Check(limits, start, call) else Error);
      case CallHoldsCache(call, start, begin) =>
        e := Did(call, true, if Accepts(limits, begin, SnapshotTaken(SnapshotOfTable(own, Changed(start, call)))) then Ok else Error);
      case QueryHolds(q, n, rest) =>
        e := Answered(q, rest.answer);
        assert After(q, c.cache, n) == Return(rest.answer);
    }
  }

  lemma {:induction false} UnfitIsRefused(limits: Limits, c: Cache, s: Snapshot)
    ensures !SnapshotFits(limits, s) ==> !Accepts(limits, c, SnapshotTaken(s))
  {
  }

  /** Whoever holds a lock changes what it protects; what the others have read stays right. */
  lemma {:induction false} OthersStillAgree<H>(limits: Limits, own: Guid, s: System<H>, t: Thread, u: Thread, c: Context<H>, d: Context<H>, e: Effect<H>)
    requires LocksMatch(s) && t in s.threads && u in s.threads && u != t && ThreadAgrees(limits, own, c, s.log, s.threads[u])
    requires d.table == c.table || s.threads[t].HoldsGraph()
    requires d.cache == c.cache || s.threads[t].HoldsCache()
    ensures ThreadAgrees(limits, own, d, s.log + [e], s.threads[u])
  {
    hide GoesOn, IsQuery;
    LocksMatchAt(s, t);
    LocksMatchAt(s, u);
  }

  lemma {:induction false} CommitKeepsConsistent<H>(limits: Limits, own: Guid, s: System<H>, t: Thread)
    requires Consistent(limits, own, s) && Enabled(limits, s, t, Advance) && Commits(limits, own, s, t, Advance)
    ensures Consistent(limits, own, Next(limits, own, s, t, Advance))
  {
    hide Replay, Inv, LogAgrees, ThreadAgrees, EffectAgrees, AfterEffect, Next, Enabled;
    var c, r := Replay(limits, own, s.log), Next(limits, own, s, t, Advance);
    var e := CommitIsSequential(limits, own, s, t);
    ReplayStep(limits, own, s.log, e);
    EffectKeepsCacheInv(limits, c, e);
    MoveIsLocal(limits, own, s, t, Advance);
    NextKeepsLocks(limits, own, s, t, Advance);
    LocksMatchAt(s, t);
    var d := Replay(limits, own, r.log);
    forall u | u in r.threads ensures ThreadAgrees(limits, own, d, r.log, r.threads[u]) {
      if u != t {
        OthersStillAgree(limits, own, s, t, u, c, d, e);
      }
    }
    CommitKeepsMemory(limits, own, s, t, c, d);
  }

  lemma {:induction false} CommitKeepsMemory<H>(limits: Limits, own: Guid, s: System<H>, t: Thread, c: Context<H>, d: Context<H>)
    requires LocksMatch(s) && Enabled(limits, s, t, Advance) && Commits(limits, own, s, t, Advance) && MemoryIsCurrent(c, s)
    requires d.table == c.table || s.threads[t].HoldsGraph()
    requires d.cache == c.cache || s.threads[t].HoldsCache()
    requires s.threads[t].HoldsCache() ==> Next(limits, own, s, t, Advance).cache == d.cache
    requires !s.threads[t].HoldsCache() ==> Next(limits, own, s, t, Advance).cache == s.cache
    requires Next(limits, own, s, t, Advance).table == s.table
    ensures MemoryIsCurrent(d, Next(limits, own, s, t, Advance))
  {
    hide Step, Check, Changed, Accepts, GoesOn, SnapshotOfTable, IsQuery, Accessed, RollsBack;
    LocksMatchAt(s, t);
  }

  /** A move that does not commit leaves the replayed state alone; the thread still agrees with it. */
  lemma {:induction false} QuietMoveKeepsConsistent<H>(limits: Limits, own: Guid, s: System<H>, t: Thread, m: Move<H>)
    requires Consistent(limits, own, s) && Enabled(limits, s, t, m) && !Commits(limits, own, s, t, m)
    ensures Consistent(limits, own, Next(limits, own, s, t, m))
    ensures Next(limits, own, s, t, m).log == s.log
  {
    hide Replay, Inv, LogAgrees, ThreadAgrees, Next, Enabled;
    var c, r := Replay(limits, own, s.log), Next(limits, own, s, t, m);
    MoveIsLocal(limits, own, s, t, m);
    NextKeepsLocks(limits, own, s, t, m);
    QuietMoveAgrees(limits, own, s, t, m, c);
    forall u | u in r.threads ensures ThreadAgrees(limits, own, c, r.log, r.threads[u]) {
      if u != t {
        assert ThreadAgrees(limits, own, c, s.log, s.threads[u]);
      }
    }
  }

  lemma {:induction false} QuietMoveAgrees<H>(limits: Limits, own: Guid, s: System<H>, t: Thread, m: Move<H>, c: Context<H>)
    requires LocksMatch(s) && Enabled(limits, s, t, m) && !Commits(limits, own, s, t, m)
    requires ThreadAgrees(limits, own, c, s.log, s.threads[t]) && MemoryIsCurrent(c, s)
    ensures var r := Next(limits, own, s, t, m);
      r.log == s.log && ThreadAgrees(limits, own, c, r.log, r.threads[t]) && MemoryIsCurrent(c, r)
  {
    hide Step, Check, Changed, Accepts, GoesOn, SnapshotOfTable, IsQuery, Accessed, RollsBack, LocksMatch;
    LocksMatchAt(s, t);
    if m.Advance? && s.threads[t].CallHolds? {
      GoesOnWritten(limits, own, s.threads[t].call, s.threads[t].writeOk, s.threads[t].start);
    }
    if m.Advance? && s.threads[t].QueryHolds? {
      OneMoreAccess(s.threads[t].query, c.cache, s.threads[t].accesses);
    }
  }

  lemma {:induction false} GoesOnWritten<H>(limits: Limits, own: Guid, call: Call<H>, writeOk: bool, start: seq<Entry<H>>)
    ensures GoesOn(limits, own, call, writeOk, start) ==> writeOk
  {
  }

  lemma {:induction false} OneMoreAccess(r: Reader, c: Cache, n: nat)
    ensures After(r, c, 0) == r && After(r, c, n + 1) == Accessed(After(r, c, n), c)
  {
    AfterSum(r, c, n, 1);
    assert After(After(r, c, n), c, 1) == After(Accessed(After(r, c, n), c), c, 0);
  }

  lemma {:induction false} NextKeepsConsistent<H>(limits: Limits, own: Guid, s: System<H>, t: Thread, m: Move<H>)
    requires Consistent(limits, own, s) && Enabled(limits, s, t, m)
    ensures Consistent(limits, own, Next(limits, own, s, t, m))
  {
    if Commits(limits, own, s, t, m) {
      CommitKeepsConsistent(limits, own, s, t);
    } else {
      QuietMoveKeepsConsistent(limits, own, s, t, m);
    }
  }

  /** A query sees one state: as long as a thread is reading, whatever any thread does, the cache memory is the
      replayed state between whole updates, and stays the same state. */
  lemma {:induction false} ReaderSeesOneState<H>(limits: Limits, own: Guid, s: System<H>, t: Thread, u: Thread, m: Move<H>)
    requires Consistent(limits, own, s) && t in s.threads && s.threads[t].QueryHolds?
    requires Enabled(limits, s, u, m) && Next(limits, own, s, u, m).threads[t].QueryHolds?
    ensures var r := Next(limits, own, s, u, m);
      s.cache == Replay(limits, own, s.log).cache && r.cache == s.cache && Replay(limits, own, r.log).cache == s.cache
  {
    hide Replay, Inv, LogAgrees, ThreadAgrees, Next, Enabled;
    LocksMatchAt(s, t);
    MoveIsLocal(limits, own, s, u, m);
    NextKeepsConsistent(limits, own, s, u, m);
    LocksMatchAt(Next(limits, own, s, u, m), t);
    MoveKeepsReadCache(limits, own, s, t, u, m);
  }

  lemma {:induction false} MoveKeepsReadCache<H>(limits: Limits, own: Guid, s: System<H>, t: Thread, u: Thread, m: Move<H>)
    requires LocksMatch(s) && t in s.threads && s.threads[t].QueryHolds? && Enabled(limits, s, u, m)
    ensures Next(limits, own, s, u, m).cache == s.cache
  {
    hide Step, Check, Changed, Accepts, GoesOn, SnapshotOfTable, IsQuery, Accessed, RollsBack, LocksMatch;
    LocksMatchAt(s, t);
    LocksMatchAt(s, u);
  }

  /** What a finished request leaves in the log: a call or an update that has taken effect, and a query that has
      returned, is logged in the same move, with the query's own answer. */
  lemma {:induction false} FinishIsLogged<H>(limits: Limits, own: Guid, s: System<H>, t: Thread, m: Move<H>)
    requires LocksMatch(s) && Enabled(limits, s, t, m)
    ensures var pc, r := s.threads[t], Next(limits, own, s, t, m);
      t in r.threads &&
      (pc.Pending().Some? && r.threads[t].Pending().None? ==>
        |r.log| == |s.log| + 1 && r.log[..|s.log|] == s.log && r.log[|s.log|].Did? && r.log[|s.log|].call == pc.Pending().value &&
        r.threads[t].CallUnlocks? && r.threads[t].ret == r.log[|s.log|].ret) &&
      (pc.UpdateHolds? && !r.threads[t].UpdateHolds? ==>
        |r.log| == |s.log| + 1 && r.log[..|s.log|] == s.log && r.log[|s.log|].Saw? && r.log[|s.log|].event == pc.event) &&
      (pc.QueryHolds? && !r.threads[t].QueryHolds? ==> pc.rest.Return? && r.log == s.log + [Answered(pc.query, pc.rest.answer)])
  {
    hide Step, Check, Changed, Accepts, GoesOn, SnapshotOfTable, IsQuery, Accessed, RollsBack, LocksMatch;
  }

  /** An idle thread can start any call, update or query; a thread that has started goes on whenever the lock it
      waits for, if any, is free. */
  lemma {:induction false} StartsAndAdvancesExactly<H>(limits: Limits, s: System<H>, t: Thread, call: Call<H>, writeOk: bool, event: Event, q: Reader)
    requires t in s.threads
    ensures s.threads[t].Idle? ==> Enabled(limits, s, t, StartCall(call, writeOk)) && Enabled(limits, s, t, StartUpdate(event)) &&
                                   (IsQuery(limits, q) ==> Enabled(limits, s, t, StartQuery(q)))
    ensures Enabled(limits, s, t, Advance) <==>
            !s.threads[t].Idle? && (s.threads[t].CallWants? ==> s.graphLock.None?) &&
            (s.threads[t].CallWantsCache? || s.threads[t].UpdateWants? || s.threads[t].QueryWants? ==> s.cacheLock.None?)
  {
    hide IsQuery;
  }

  /** Mutual exclusion, and the lock order: whoever waits for the graph lock holds no lock, and whoever
      waits for the cache lock holds at most the graph lock. */
  lemma {:induction false} MutualExclusion<H>(limits: Limits, own: Guid, s: System<H>, t: Thread, u: Thread)
    requires Consistent(limits, own, s) && t in s.threads && u in s.threads
    ensures s.threads[t].HoldsGraph() && s.threads[u].HoldsGraph() ==> t == u
    ensures s.threads[t].HoldsCache() && s.threads[u].HoldsCache() ==> t == u
    ensures s.threads[t].CallWants? ==> s.graphLock != Some(t) && s.cacheLock != Some(t)
    ensures s.threads[t].UpdateWants? || s.threads[t].CallWantsCache? || s.threads[t].QueryWants? ==> s.cacheLock != Some(t)
  {
  }

  // ---------- progress ----------

  /** No deadlock: whenever some thread has not finished, some thread can go on. */
  lemma {:induction false} SomebodyCanAdvance<H>(limits: Limits, own: Guid, s: System<H>, t: Thread) returns (u: Thread)
    requires Consistent(limits, own, s) && t in s.threads && !s.threads[t].Idle?
    ensures Enabled(limits, s, u, Advance)
  {
    hide LogAgrees, ThreadAgrees, MemoryIsCurrent, Inv;
    u := if s.cacheLock.Some? then s.cacheLock.value else if s.graphLock.Some? then s.graphLock.value else t;
    LocksMatchAt(s, u);
  }

  /** How far a thread is from being idle and holding nothing. The number of accesses of a query depends on what
      the cache holds when its turn comes, so waiting for that counts more than any number of accesses. */
  datatype Distance = Distance(waits: nat, advances: nat) {
    predicate Below(other: Distance) {
      waits < other.waits || (waits == other.waits && advances < other.advances)
    }
  }

  ghost function Remaining<H>(s: System<H>, t: Thread): Distance
    requires t in s.threads
  {
    match s.threads[t]
    case Idle => Distance(0, 0)
    case UpdateHolds(_, _) => Distance(0, 1)
    case UpdateWants(_) => Distance(0, 2)
    case CallUnlocks(_, _, _) => Distance(0, 1)
    case CallHoldsCache(_, _, _) => Distance(0, 2)
    case CallWantsCache(_, _) => Distance(0, 3)
    case CallHolds(_, _, _) => Distance(0, 4)
    case CallWants(_, _) => Distance(0, 5)
    case QueryHolds(_, _, rest) => Distance(0, 1 + Left(rest, s.cache))
    case QueryWants(_) => Distance(1, 0)
  }

  lemma {:induction false} OwnDistanceShrinks<H>(limits: Limits, own: Guid, s: System<H>, t: Thread)
    requires Enabled(limits, s, t, Advance)
    requires s.threads[t].QueryHolds? ==> Ends(s.threads[t].rest, s.cache)
    ensures t in Next(limits, own, s, t, Advance).threads && Remaining(Next(limits, own, s, t, Advance), t).Below(Remaining(s, t))
  {
    hide Step, Check, Changed, Accepts, GoesOn, SnapshotOfTable, IsQuery, Accessed, Left, RollsBack, Ends;
    if s.threads[t].QueryHolds? && !s.threads[t].rest.Return? {
      AccessBringsCloser(s.threads[t].rest, s.cache);
    }
  }

  lemma {:induction false} ReadingQueryEnds<H>(limits: Limits, own: Guid, s: System<H>, t: Thread)
    requires Consistent(limits, own, s) && t in s.threads && s.threads[t].QueryHolds?
    ensures Ends(s.threads[t].rest, s.cache)
  {
    hide LogAgrees, Replay, Ends, Inv;
    var c := Replay(limits, own, s.log);
    LocksMatchAt(s, t);
    assert ThreadAgrees(limits, own, c, s.log, s.threads[t]);
    StillEnds(s.threads[t].query, c.cache, s.threads[t].accesses);
  }

  /** Locks are always released: every advance brings its thread closer to being idle and leaves the
      distance of every other thread as it was. There is no endless descent of distances. */
  lemma {:induction false} AdvancesEnd<H>(limits: Limits, own: Guid, s: System<H>, t: Thread, u: Thread)
    requires Consistent(limits, own, s) && Enabled(limits, s, t, Advance) && u in s.threads
    ensures var r := Next(limits, own, s, t, Advance);
      r.threads.Keys == s.threads.Keys &&
      (if u == t then Remaining(r, u).Below(Remaining(s, u)) else Remaining(r, u) == Remaining(s, u))
  {
    hide Next, Enabled, LogAgrees, ThreadAgrees, MemoryIsCurrent, Inv, Left;
    MoveIsLocal(limits, own, s, t, Advance);
    if u == t {
      if s.threads[t].QueryHolds? {
        ReadingQueryEnds(limits, own, s, t);
      }
      OwnDistanceShrinks(limits, own, s, t);
    } else if s.threads[u].QueryHolds? {
      MoveKeepsReadCache(limits, own, s, u, t, Advance);
    }
  }
}
