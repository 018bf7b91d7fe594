/** Two contexts and the graph topic between them: what B's cache knows about A is A's table, once
    A's last sample has been taken, whatever else happened in between. */
module Convergence {
  import opened GraphTypes
  import opened CacheSpec
  import opened CacheRuns
  import opened Effects
  import opened LocalSpec

  datatype System<H> = System(
    a: Context<H>,
    samples: seq<Snapshot>,   // everything A has written, in order
    b: Cache,                 // the cache of B
    next: nat,                // B can still receive the samples from here on; skipped ones are lost
    held: Option<nat>)        // the last sample of A that B took since it last lost A

  datatype Move<H> =
    | ACalls(call: Call<H>, writeOk: bool)
    | AReceives(event: Event)
    | BReceives(k: nat)
    | BObserves(event: Event)

  /** What the environment may do. Samples of A reach B in order, but any of them may be missed. B may
      observe anything about anybody, including the loss of A, except samples of A that A did not write. */
  predicate Possible<H(==)>(s: System<H>, m: Move<H>) {
    match m
    case ACalls(call, _) => call.AddNode? ==> SlotOf(s.a.table, call.node) == |s.a.table|
    case AReceives(e) => Foreign(s.a.own, e)
    case BReceives(k) => s.next <= k < |s.samples|
    case BObserves(e) => !SnapshotOf(e, s.a.own)
  }

  function Next<H(==)>(limitsA: Limits, limitsB: Limits, s: System<H>, m: Move<H>): System<H>
    requires Possible(s, m)
  {
    match m
    case ACalls(call, writeOk) =>
      var a := Perform(limitsA, s.a, call, writeOk).context;
      var wrote := writeOk && Check(limitsA, s.a.table, call) == Ok;
      s.(a := a, samples := if wrote && a.wire.Some? then s.samples + [a.wire.value] else s.samples)
    case AReceives(e) => s.(a := Receive(limitsA, s.a, e))
    case BReceives(k) =>
      var e := SnapshotTaken(s.samples[k]);
      s.(b := Step(limitsB, s.b, e), next := k + 1, held := if Accepts(limitsB, s.b, e) then Some(k) else s.held)
    case BObserves(e) =>
      s.(b := Step(limitsB, s.b, e), held := if e == ParticipantGone(s.a.own) then None else s.held)
  }

  ghost predicate Run<H>(limitsA: Limits, limitsB: Limits, states: seq<System<H>>, moves: seq<Move<H>>) {
    |states| == |moves| + 1 &&
    (exists own :: states[0] == System(Initial(limitsA, own), [], EMPTY_CACHE, 0, None)) &&
    forall i :: 0 <= i < |moves| ==>
      Possible(states[i], moves[i]) && states[i + 1] == Next(limitsA, limitsB, states[i], moves[i])
  }

  ghost predicate SystemInv<H>(limitsA: Limits, limitsB: Limits, s: System<H>) {
    LocalInv(limitsA, s.a) && Inv(limitsB, s.b) &&
    s.next <= |s.samples| &&
    (forall k :: 0 <= k < |s.samples| ==> s.samples[k].participant == s.a.own) &&
    s.a.wire == (if s.samples == [] then None else Some(s.samples[|s.samples| - 1])) &&
    (s.held.Some? ==> s.held.value < s.next && Of(s.b.nodes, s.a.own) == s.samples[s.held.value].nodes) &&
    (s.held.None? ==> Of(s.b.nodes, s.a.own) == [])
  }

  /** A call writes exactly one sample, of its own participant, when it gets to a publish that works. */
  lemma {:induction false} WireAfterCall<H>(limits: Limits, s: Context<H>, call: Call<H>, writeOk: bool)
    ensures var a := Perform(limits, s, call, writeOk).context;
      a.own == s.own &&
      if writeOk && Check(limits, s.table, call) == Ok
      then a.wire.Some? && a.wire.value.participant == s.own
      else a.wire == s.wire
  {
  }

  lemma {:induction false} NextKeepsInv<H>(limitsA: Limits, limitsB: Limits, s: System<H>, m: Move<H>)
    requires SystemInv(limitsA, limitsB, s) && Possible(s, m)
    ensures SystemInv(limitsA, limitsB, Next(limitsA, limitsB, s, m))
  {
    hide LocalInv, Inv, Perform, Step, Accepts, Check;
    match m
    case ACalls(call, writeOk) =>
      PerformKeepsInv(limitsA, s.a, call, writeOk);
      WireAfterCall(limitsA, s.a, call, writeOk);
    case AReceives(e) =>
      ReceiveKeepsInv(limitsA, s.a, e);
    case BReceives(k) =>
      StepKeepsInv(limitsB, s.b, SnapshotTaken(s.samples[k]));
      NodesAfterStep(limitsB, s.b, SnapshotTaken(s.samples[k]), s.a.own);
    case BObserves(e) =>
      StepKeepsInv(limitsB, s.b, e);
      NodesAfterStep(limitsB, s.b, e, s.a.own);
  }

  lemma {:induction false} RunKeepsSystemInv<H>(limitsA: Limits, limitsB: Limits, states: seq<System<H>>, moves: seq<Move<H>>, n: nat)
    requires Run(limitsA, limitsB, states, moves) && n < |states|
    ensures SystemInv(limitsA, limitsB, states[n])
  {
    if n == 0 {
      InitialInv<H>(limitsA, states[0].a.own);
    } else {
      RunKeepsSystemInv(limitsA, limitsB, states, moves, n - 1);
      NextKeepsInv(limitsA, limitsB, states[n - 1], moves[n - 1]);
    }
  }

  /** Convergence: in every state of every run, if A's last publish succeeded and the last sample B took
      is the last one A wrote, then B's cached nodes for A are A's table: names, order and endpoint lists.
      It does not matter which earlier samples B missed or refused, which other participants came and
      went in either cache, which of A's earlier writes failed, or what the limits are. */
  lemma {:induction false} PeersConverge<H>(limitsA: Limits, limitsB: Limits, states: seq<System<H>>, moves: seq<Move<H>>, n: nat)
    requires Run(limitsA, limitsB, states, moves) && n < |states|
    requires states[n].a.lastPublish == Some(Ok)
    requires states[n].held == Some(|states[n].samples| - 1)
    ensures Of(states[n].b.nodes, states[n].a.own) == Infos(states[n].a.table)
  {
    RunKeepsSystemInv(limitsA, limitsB, states, moves, n);
  }

  /** And without any condition on what arrived, B never believes anything about A that A did not announce:
      its nodes for A are those of the last sample of A that it took since it last lost A, or none. */
  lemma {:induction false} PeersNeverInvent<H>(limitsA: Limits, limitsB: Limits, states: seq<System<H>>, moves: seq<Move<H>>, n: nat)
    requires Run(limitsA, limitsB, states, moves) && n < |states|
    ensures var s := states[n];
      if s.held.None? then Of(s.b.nodes, s.a.own) == []
      else s.held.value < |s.samples| && Of(s.b.nodes, s.a.own) == s.samples[s.held.value].nodes
  {
    RunKeepsSystemInv(limitsA, limitsB, states, moves, n);
  }

  /** When the arrival of a sample changes what B knows: it is taken iff B has room for it, and then B knows exactly its
      nodes; otherwise B is as before. */
  lemma {:induction false} ArrivalHasEffect<H>(limitsA: Limits, limitsB: Limits, states: seq<System<H>>, moves: seq<Move<H>>, n: nat, k: nat)
    requires Run(limitsA, limitsB, states, moves) && n < |moves| && moves[n] == BReceives(k)
    ensures k < |states[n].samples| && SnapshotSeen(limitsB, states[n].b, states[n].samples[k], states[n + 1].b)
  {
    hide SnapshotSeen, SnapshotHasRoom;
    RunKeepsSystemInv(limitsA, limitsB, states, moves, n);
    EventHasEffect(limitsB, states[n].b, SnapshotTaken(states[n].samples[k]));
  }

  /** So the two sides agree as soon as A's last sample arrives and B has room for it, if A's last publish succeeded. */
  lemma {:induction false} ArrivalOfLastConverges<H>(limitsA: Limits, limitsB: Limits, states: seq<System<H>>, moves: seq<Move<H>>, n: nat)
    requires Run(limitsA, limitsB, states, moves) && n < |moves| && states[n].samples != []
    requires moves[n] == BReceives(|states[n].samples| - 1) && states[n].a.lastPublish == Some(Ok)
    requires SnapshotHasRoom(limitsB, states[n].b, states[n].samples[|states[n].samples| - 1])
    ensures Of(states[n + 1].b.nodes, states[n].a.own) == Infos(states[n].a.table)
    ensures states[n + 1].held == Some(|states[n].samples| - 1) && states[n + 1].a == states[n].a
  {
    hide SnapshotHasRoom;
    var k := |states[n].samples| - 1;
    RunKeepsSystemInv(limitsA, limitsB, states, moves, n);
    ArrivalHasEffect(limitsA, limitsB, states, moves, n, k);
    TakenIffRoom(limitsB, states[n].b, SnapshotTaken(states[n].samples[k]));
  }
}
