/** Whole executions of the threads: what was logged, what callers were told, and what queries answered. */
module LockRuns {
  import opened GraphTypes
  import opened CacheSpec
  import opened QuerySpec
  import opened LocalSpec
  import opened GraphQueries
  import opened Readers
  import opened QueryPrograms
  import opened Locks

  ghost predicate Execution<H>(limits: Limits, own: Guid, states: seq<System<H>>, who: seq<Thread>, moves: seq<Move<H>>) {
    |states| == |moves| + 1 && |who| == |moves| &&
    states[0].graphLock.None? && states[0].cacheLock.None? && states[0].log == [] &&
    states[0].table == Initial<H>(limits, own).table && states[0].cache == Initial<H>(limits, own).cache &&
    (forall t :: t in states[0].threads ==> states[0].threads[t].Idle?) &&
    forall i :: 0 <= i < |moves| ==>
      Enabled(limits, states[i], who[i], moves[i]) && states[i + 1] == Next(limits, own, states[i], who[i], moves[i])
  }

  /** Linearizability: at every point of every interleaving, what has happened is a sequential run of the
      logged operations; every result that was given out is the one the sequential run gives at that place
      of the log; memory whose lock is free holds exactly that run's result. */
  lemma {:induction false} ExecutionsAreSequential<H>(limits: Limits, own: Guid, states: seq<System<H>>, who: seq<Thread>, moves: seq<Move<H>>, n: nat)
    requires Execution(limits, own, states, who, moves) && n <= |moves|
    ensures Consistent(limits, own, states[n])
  {
    if n == 0 {
      StepKeepsInv(limits, EMPTY_CACHE, ParticipantAlive(own));
    } else {
      hide Consistent, Next, Enabled;
      ExecutionsAreSequential(limits, own, states, who, moves, n - 1);
      NextKeepsConsistent(limits, own, states[n - 1], who[n - 1], moves[n - 1]);
    }
  }

  // ---------- queries ----------

  /** Whatever program a query runs: when it is about to return, its answer is what the program computes alone on
      one state between whole cache updates, the state that the cache memory holds at that moment. */
  lemma {:induction false} QueriesAreAtomic<H>(limits: Limits, own: Guid, states: seq<System<H>>, who: seq<Thread>, moves: seq<Move<H>>, n: nat, t: Thread)
    requires Execution(limits, own, states, who, moves) && n <= |moves|
    requires t in states[n].threads && states[n].threads[t].QueryHolds? && states[n].threads[t].rest.Return?
    ensures states[n].cache == Replay(limits, own, states[n].log).cache
    ensures Yields(states[n].threads[t].query, states[n].cache, states[n].threads[t].rest.answer)
  {
    hide LogAgrees, Replay, Inv;
    var s := states[n];
    var c, pc := Replay(limits, own, s.log), s.threads[t];
    ExecutionsAreSequential(limits, own, states, who, moves, n);
    LocksMatchAt(s, t);
    assert ThreadAgrees(limits, own, c, s.log, pc);
    assert After(pc.query, c.cache, pc.accesses) == Return(pc.rest.answer);
  }

  /** As long as a thread is reading, over any number of moves of any threads, the cache memory is one and the same state,
      and that is the state the log leads to. */
  lemma {:induction false} WholeQuerySeesOneState<H>(limits: Limits, own: Guid, states: seq<System<H>>, who: seq<Thread>, moves: seq<Move<H>>,
                                                     i: nat, j: nat, t: Thread)
    requires Execution(limits, own, states, who, moves) && i <= j <= |moves|
    requires forall k :: i <= k <= j ==> t in states[k].threads && states[k].threads[t].QueryHolds?
    ensures states[j].cache == states[i].cache
    ensures states[j].cache == Replay(limits, own, states[j].log).cache
    decreases j
  {
    hide Next, Enabled, Replay;
    ExecutionsAreSequential(limits, own, states, who, moves, j);
    if i < j {
      WholeQuerySeesOneState(limits, own, states, who, moves, i, j - 1, t);
      ExecutionsAreSequential(limits, own, states, who, moves, j - 1);
      ReaderSeesOneState(limits, own, states[j - 1], t, who[j - 1], moves[j - 1]);
    } else {
      CurrentForReader(limits, own, states[j], t);
    }
  }

  lemma {:induction false} CurrentForReader<H>(limits: Limits, own: Guid, s: System<H>, t: Thread)
    requires Consistent(limits, own, s) && t in s.threads && s.threads[t].QueryHolds?
    ensures s.cache == Replay(limits, own, s.log).cache
  {
    hide Replay;
    LocksMatchAt(s, t);
  }

  /** Every count that was answered is the number of visible endpoints of the topic and direction in the one
      cache state that the log had led to. */
  lemma {:induction false} CountsAreAtomic<H>(limits: Limits, own: Guid, states: seq<System<H>>, who: seq<Thread>, moves: seq<Move<H>>,
                                              n: nat, k: nat, topic: string, writer: bool)
    requires Execution(limits, own, states, who, moves) && n <= |moves| && k < |states[n].log|
    requires states[n].log[k].Answered? && states[n].log[k].query == CountQuery(limits, topic, writer)
    ensures states[n].log[k].answer == Counted(TopicCount(Replay(limits, own, states[n].log[..k]).cache, topic, writer))
  {
    hide CountQuery, TopicCount;
    var c := LoggedAnswer(limits, own, states, who, moves, n, k);
    CountQueryAnswers(limits, c, topic, writer);
    YieldsOnce(CountQuery(limits, topic, writer), c, states[n].log[k].answer, Counted(TopicCount(c, topic, writer)));
  }

  /** Every listing of node names that was answered is that of the nodes of one such state, in order. */
  lemma {:induction false} NodeNamesAreAtomic<H>(limits: Limits, own: Guid, states: seq<System<H>>, who: seq<Thread>, moves: seq<Move<H>>, n: nat, k: nat)
    requires Execution(limits, own, states, who, moves) && n <= |moves| && k < |states[n].log|
    requires states[n].log[k].Answered? && states[n].log[k].query == NamesQuery()
    ensures var nodes, answer := Replay(limits, own, states[n].log[..k]).cache.nodes, states[n].log[k].answer;
      answer.NodesNamed? && |answer.names| == |answer.namespaces| == |nodes| &&
      forall i :: 0 <= i < |nodes| ==> answer.names[i] == nodes[i].item.name && answer.namespaces[i] == nodes[i].item.namespace_
  {
    hide NamesQuery;
    var c := LoggedAnswer(limits, own, states, who, moves, n, k);
    NamesQueryAnswers(c);
    YieldsOnce(NamesQuery(), c, states[n].log[k].answer, NodesNamed(NodeNames(c.nodes), NodeNamespaces(c.nodes)));
  }

  /** Every listing of topics and types that was answered holds the listed topics of one such state, and for each
      of them an array whose size is the number of its listed types and which holds exactly those. */
  lemma {:induction false} TopicListingsAreAtomic<H>(limits: Limits, own: Guid, states: seq<System<H>>, who: seq<Thread>, moves: seq<Move<H>>,
                                                     n: nat, k: nat, noDemangle: bool)
    requires Execution(limits, own, states, who, moves) && n <= |moves| && k < |states[n].log|
    requires states[n].log[k].Answered? && states[n].log[k].query == TopicsQuery(limits, noDemangle)
    ensures var c, answer := Replay(limits, own, states[n].log[..k]).cache, states[n].log[k].answer;
      answer.TopicsTyped? && answer.topics == ListedTopics(c, noDemangle) && |answer.types| == |answer.topics| &&
      forall i :: 0 <= i < |answer.topics| ==>
        answer.types[i].names == ListedTypes(c, noDemangle, answer.topics[i]) && answer.types[i].size == |answer.types[i].names|
  {
    hide TopicsQuery, ListedTopics, ListedTypes;
    var c := LoggedAnswer(limits, own, states, who, moves, n, k);
    var listed := ListedTopics(c, noDemangle);
    TopicsQueryAnswers(limits, c, noDemangle);
    YieldsOnce(TopicsQuery(limits, noDemangle), c, states[n].log[k].answer, TopicsTyped(listed, TypeArrays(c, noDemangle, listed)));
  }

  lemma {:induction false} LoggedAnswer<H>(limits: Limits, own: Guid, states: seq<System<H>>, who: seq<Thread>, moves: seq<Move<H>>, n: nat, k: nat)
    returns (c: Cache)
    requires Execution(limits, own, states, who, moves) && n <= |moves| && k < |states[n].log| && states[n].log[k].Answered?
    ensures c == Replay(limits, own, states[n].log[..k]).cache && Inv(limits, c)
    ensures Yields(states[n].log[k].query, c, states[n].log[k].answer)
  {
    hide Inv;
    ExecutionsAreSequential(limits, own, states, who, moves, n);
    ReplayKeepsCacheInv(limits, own, states[n].log[..k]);
    c := Replay(limits, own, states[n].log[..k]).cache;
    assert EffectAgrees(limits, Replay(limits, own, states[n].log[..k]), states[n].log[k]);
  }

  lemma {:induction false} ReplayKeepsCacheInv<H>(limits: Limits, own: Guid, log: seq<Effect<H>>)
    ensures Inv(limits, Replay(limits, own, log).cache)
    decreases |log|
  {
    if |log| == 0 {
      StepKeepsInv(limits, EMPTY_CACHE, ParticipantAlive(own));
    } else {
      ReplayKeepsCacheInv(limits, own, log[..|log| - 1]);
      EffectKeepsCacheInv(limits, Replay(limits, own, log[..|log| - 1]), log[|log| - 1]);
    }
  }

  // ---------- the guarantees of sequential runs ----------

  /** The handles under which an addition of a node was started in the first n moves. */
  ghost function Used<H>(moves: seq<Move<H>>, n: nat): set<H>
    requires n <= |moves|
  {
    if n == 0 then {}
    else Used(moves, n - 1) + if moves[n - 1].StartCall? && moves[n - 1].call.AddNode? then {moves[n - 1].call.node} else {}
  }

  /** What the program does: every node is added under a newly allocated handle, and the callbacks pass on foreign events only. */
  ghost predicate WellBehaved<H>(own: Guid, moves: seq<Move<H>>) {
    forall i :: 0 <= i < |moves| ==>
      (moves[i].StartCall? && moves[i].call.AddNode? ==> moves[i].call.node !in Used(moves, i)) &&
      (moves[i].StartUpdate? ==> Foreign(own, moves[i].event))
  }

  /** The handle that a thread is about to add. */
  function Adds<H>(pc: Pc<H>): Option<H> {
    if pc.Pending().Some? && pc.Pending().value.AddNode? then Some(pc.Pending().value.node) else None
  }

  predicate PassesForeign<H>(own: Guid, pc: Pc<H>) {
    match pc
    case UpdateWants(e) => Foreign(own, e)
    case UpdateHolds(e, _) => Foreign(own, e)
    case _ => true
  }

  /** Only used handles are in the table, and a handle that is about to be added is used, is not in the
      table, and belongs to one thread. */
  ghost predicate HandlesAreFresh<H(!new)>(own: Guid, table: seq<Entry<H>>, threads: map<Thread, Pc<H>>, used: set<H>) {
    (forall h :: Lookup(table, h).Some? ==> h in used) &&
    (forall t :: t in threads && Adds(threads[t]).Some? ==>
      Adds(threads[t]).value in used && Lookup(table, Adds(threads[t]).value).None?) &&
    (forall t, u :: t in threads && u in threads && t != u && Adds(threads[t]).Some? && Adds(threads[u]).Some? ==>
      Adds(threads[t]).value != Adds(threads[u]).value) &&
    (forall t :: t in threads ==> PassesForeign(own, threads[t]))
  }

  /** At every place of the log, the sequential run satisfies the context invariant, and a call other than a
      node addition that could write was told exactly what its own checks say. */
  ghost predicate LogIsSound<H>(limits: Limits, own: Guid, log: seq<Effect<H>>) {
    forall k :: 0 <= k <= |log| ==>
      LocalInv(limits, Replay(limits, own, log[..k])) &&
      (k < |log| && log[k].Did? && log[k].writeOk && !log[k].call.AddNode? ==>
        log[k].ret == Check(limits, Replay(limits, own, log[..k]).table, log[k].call))
  }

  ghost predicate Sound<H(!new)>(limits: Limits, own: Guid, s: System<H>, used: set<H>) {
    Consistent(limits, own, s) && LogIsSound(limits, own, s.log) &&
    HandlesAreFresh(own, Replay(limits, own, s.log).table, s.threads, used)
  }

  lemma {:induction false} EffectKeepsLogSound<H>(limits: Limits, own: Guid, log: seq<Effect<H>>, e: Effect<H>)
    requires LogIsSound(limits, own, log) && EffectAgrees(limits, Replay(limits, own, log), e)
    requires e.Did? && e.call.AddNode? ==> Lookup(Replay(limits, own, log).table, e.call.node).None?
    requires e.Saw? ==> Foreign(Replay(limits, own, log).own, e.event)
    ensures LogIsSound(limits, own, log + [e])
  {
    hide Replay, LocalInv, Check, Perform, Receive, Foreign;
    var longer, c := log + [e], Replay(limits, own, log);
    assert log[..|log|] == log && longer[..|log|] == log && longer[..|longer|] == longer;
    ReplayStep(limits, own, log, e);
    assert LocalInv(limits, c);
    match e {
      case Did(call, writeOk, _) =>
        PerformKeepsInv(limits, c, call, writeOk);
        if writeOk && !call.AddNode? {
          OnlyNodeAddsAreRefused(limits, c, call);
        }
      case Saw(event, _) => ReceiveKeepsInv(limits, c, event);
      case Answered(_, _) =>
    }
    assert forall k :: 0 <= k <= |log| ==> longer[..k] == log[..k];
  }

  /** An effect puts no handle into the table but the one that it adds. */
  lemma {:induction false} EffectAddsOneHandle<H>(limits: Limits, c: Context<H>, e: Effect<H>, h: H)
    requires LocalInv(limits, c) && (e.Did? && e.call.AddNode? ==> Lookup(c.table, e.call.node).None?)
    ensures Lookup(AfterEffect(limits, c, e).table, h).Some? ==>
            Lookup(c.table, h).Some? || (e.Did? && e.call.AddNode? && e.call.node == h)
  {
    if e.Did? {
      HandlesAreStable(limits, c, e.call, e.writeOk, h);
    }
  }

  lemma {:induction false} CommitKeepsSound<H(!new)>(limits: Limits, own: Guid, s: System<H>, t: Thread, used: set<H>)
    requires Sound(limits, own, s, used) && Enabled(limits, s, t, Advance) && Commits(limits, own, s, t, Advance)
    ensures Sound(limits, own, Next(limits, own, s, t, Advance), used)
  {
    hide Consistent, LogIsSound, LocalInv, Replay, Next, Enabled, Lookup, AfterEffect, EffectAgrees, Commits, Foreign, ThreadAgrees, LocksMatch, LockMoves;
    var c, r := Replay(limits, own, s.log), Next(limits, own, s, t, Advance);
    var e := CommitIsSequential(limits, own, s, t);
    CommitKeepsConsistent(limits, own, s, t);
    ReplayStep(limits, own, s.log, e);
    ConsistentFacts(limits, own, s);
    MoveIsLocal(limits, own, s, t, Advance);
    SoundNow(limits, own, s.log);
    assert PassesForeign(own, s.threads[t]);
    EffectKeepsLogSound(limits, own, s.log, e);
    forall h | true
      ensures Lookup(AfterEffect(limits, c, e).table, h).Some? ==>
              Lookup(c.table, h).Some? || (e.Did? && e.call.AddNode? && e.call.node == h)
    {
      EffectAddsOneHandle(limits, c, e, h);
    }
  }

  lemma {:induction false} ConsistentFacts<H>(limits: Limits, own: Guid, s: System<H>)
    requires Consistent(limits, own, s)
    ensures LocksMatch(s) && Replay(limits, own, s.log).own == own
  {
  }

  lemma {:induction false} SoundNow<H>(limits: Limits, own: Guid, log: seq<Effect<H>>)
    requires LogIsSound(limits, own, log)
    ensures LocalInv(limits, Replay(limits, own, log))
  {
    assert log[..|log|] == log;
  }

  lemma {:induction false} QuietMoveKeepsSound<H(!new)>(limits: Limits, own: Guid, s: System<H>, t: Thread, m: Move<H>, used: set<H>, more: set<H>)
    requires Sound(limits, own, s, used) && Enabled(limits, s, t, m) && !Commits(limits, own, s, t, m)
    requires m.StartUpdate? ==> Foreign(own, m.event)
    requires more == used + if m.StartCall? && m.call.AddNode? then {m.call.node} else {}
    requires m.StartCall? && m.call.AddNode? ==> m.call.node !in used
    ensures Sound(limits, own, Next(limits, own, s, t, m), more)
  {
    hide Consistent, LogIsSound, Replay, Next, Enabled, Lookup, Foreign, Commits, Adds, PassesForeign, LocksMatch, LockMoves;
    QuietMoveKeepsConsistent(limits, own, s, t, m);
    ConsistentFacts(limits, own, s);
    MoveIsLocal(limits, own, s, t, m);
    QuietMoveStarts(limits, own, s, t, m);
  }

  lemma {:induction false} QuietMoveStarts<H>(limits: Limits, own: Guid, s: System<H>, t: Thread, m: Move<H>)
    requires Enabled(limits, s, t, m) && !Commits(limits, own, s, t, m) && PassesForeign(own, s.threads[t])
    requires m.StartUpdate? ==> Foreign(own, m.event)
    ensures var r := Next(limits, own, s, t, m);
      t in r.threads && PassesForeign(own, r.threads[t]) &&
      (Adds(r.threads[t]).Some? ==> Adds(s.threads[t]) == Adds(r.threads[t]) ||
                                    (m.StartCall? && m.call.AddNode? && m.call.node == Adds(r.threads[t]).value))
  {
    hide Step, Check, Changed, Accepts, GoesOn, SnapshotOfTable, IsQuery, Accessed, RollsBack, Foreign;
  }

  lemma {:induction false} ExecutionsAreSound<H(!new)>(limits: Limits, own: Guid, states: seq<System<H>>, who: seq<Thread>, moves: seq<Move<H>>, n: nat)
    requires Execution(limits, own, states, who, moves) && WellBehaved(own, moves) && n <= |moves|
    ensures Sound(limits, own, states[n], Used(moves, n))
  {
    hide Consistent, LogIsSound, HandlesAreFresh, Next, Enabled, Commits, Foreign, Replay;
    if n == 0 {
      ExecutionsAreSequential(limits, own, states, who, moves, 0);
      StartIsSound(limits, own, states[0]);
    } else {
      var s, t, m := states[n - 1], who[n - 1], moves[n - 1];
      ExecutionsAreSound(limits, own, states, who, moves, n - 1);
      EnabledThread(limits, s, t, m);
      if Commits(limits, own, s, t, m) {
        CommitsAdvance(limits, own, s, t, m);
        assert Used(moves, n) == Used(moves, n - 1);
        CommitKeepsSound(limits, own, s, t, Used(moves, n - 1));
      } else {
        QuietMoveKeepsSound(limits, own, s, t, m, Used(moves, n - 1), Used(moves, n));
      }
    }
  }

  lemma {:induction false} EnabledThread<H>(limits: Limits, s: System<H>, t: Thread, m: Move<H>)
    requires Enabled(limits, s, t, m)
    ensures t in s.threads
  {
  }

  lemma {:induction false} CommitsAdvance<H>(limits: Limits, own: Guid, s: System<H>, t: Thread, m: Move<H>)
    requires t in s.threads && Commits(limits, own, s, t, m)
    ensures m == Advance
  {
  }

  lemma {:induction false} StartIsSound<H(!new)>(limits: Limits, own: Guid, s: System<H>)
    requires s.log == [] && forall t :: t in s.threads ==> s.threads[t].Idle?
    ensures LogIsSound(limits, own, s.log) && HandlesAreFresh(own, Replay(limits, own, s.log).table, s.threads, {})
  {
    InitialInv<H>(limits, own);
  }

  /** So the guarantees of sequential runs hold in every interleaving: at every place of the log the context invariant
      holds, and only node additions are refused by the cache. */
  lemma {:induction false} SequentialGuaranteesCarryOver<H(!new)>(limits: Limits, own: Guid, states: seq<System<H>>, who: seq<Thread>, moves: seq<Move<H>>,
                                                                 n: nat, k: nat)
    requires Execution(limits, own, states, who, moves) && WellBehaved(own, moves) && n <= |moves| && k <= |states[n].log|
    ensures var log := states[n].log;
      var c := Replay(limits, own, log[..k]);
      LocalInv(limits, c) &&
      (k < |log| && log[k].Did? ==> log[k].ret == Perform(limits, c, log[k].call, log[k].writeOk).ret) &&
      (k < |log| && log[k].Did? && log[k].writeOk && !log[k].call.AddNode? ==> log[k].ret == Check(limits, c.table, log[k].call))
  {
    hide LocalInv, Check, Perform, Replay;
    ExecutionsAreSequential(limits, own, states, who, moves, n);
    ExecutionsAreSound(limits, own, states, who, moves, n);
    if k < |states[n].log| {
      assert EffectAgrees(limits, Replay(limits, own, states[n].log[..k]), states[n].log[k]);
    }
  }
}
