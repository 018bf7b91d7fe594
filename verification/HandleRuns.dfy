/** Node handles over whole runs of calls and cache events. */
module HandleRuns {
  import opened GraphTypes
  import opened CacheSpec
  import opened LocalSpec

  datatype Action<H> = Api(call: Call<H>, writeOk: bool) | Observed(event: Event)

  function StateAfter<H(==)>(limits: Limits, own: Guid, run: seq<Action<H>>, n: nat): Context<H>
    requires n <= |run|
  {
    if n == 0 then Initial(limits, own)
    else
      var s := StateAfter(limits, own, run, n - 1);
      match run[n - 1]
      case Api(call, writeOk) => Perform(limits, s, call, writeOk).context
      case Observed(e) => Receive(limits, s, e)
  }

  /** The i-th action is a call on the handle that changed the table in the end. */
  predicate Effective<H(==)>(limits: Limits, own: Guid, run: seq<Action<H>>, i: nat, h: H)
    requires i < |run|
  {
    run[i].Api? && run[i].call.node == h &&
    TookEffect(run[i].call, Perform(limits, StateAfter(limits, own, run, i), run[i].call, run[i].writeOk).ret)
  }

  /** What the handle's own effective calls make of it, one after the other; nothing else counts. */
  function LastKnown<H(==)>(limits: Limits, own: Guid, run: seq<Action<H>>, n: nat, h: H): Option<NodeInfo>
    requires n <= |run|
  {
    if n == 0 then None
    else if Effective(limits, own, run, n - 1, h) then Resolved(LastKnown(limits, own, run, n - 1, h), run[n - 1].call)
    else LastKnown(limits, own, run, n - 1, h)
  }

  /** Nodes are added under handles that are not live, and the callbacks pass on foreign events. */
  ghost predicate Sensible<H>(limits: Limits, own: Guid, run: seq<Action<H>>) {
    forall i :: 0 <= i < |run| ==>
      (run[i].Api? && run[i].call.AddNode? ==> LastKnown(limits, own, run, i, run[i].call.node).None?) &&
      (run[i].Observed? ==> Foreign(own, run[i].event))
  }

  /** After any run, a handle resolves to what its own effective calls made of it: no call on another handle, no
      removal that moves it to another slot, no failed call and no cache event changes what it stands for. */
  lemma {:induction false} LookupIsFold<H(!new)>(limits: Limits, own: Guid, run: seq<Action<H>>, n: nat)
    requires Sensible(limits, own, run) && n <= |run|
    ensures var s := StateAfter(limits, own, run, n);
      LocalInv(limits, s) && s.own == own && forall h :: Lookup(s.table, h) == LastKnown(limits, own, run, n, h)
  {
    if n == 0 {
      InitialInv<H>(limits, own);
    } else {
      hide LocalInv, Lookup, Resolved, TookEffect, Foreign, Perform, Step;
      LookupIsFold(limits, own, run, n - 1);
      var s, a := StateAfter(limits, own, run, n - 1), run[n - 1];
      match a {
        case Api(call, writeOk) =>
          SlotIffSome(s.table, call.node);
          PerformKeepsInv(limits, s, call, writeOk);
          PerformKeepsOwn(limits, s, call, writeOk);
          forall h ensures Lookup(StateAfter(limits, own, run, n).table, h) == LastKnown(limits, own, run, n, h) {
            HandlesAreStable(limits, s, call, writeOk, h);
          }
        case Observed(e) => ReceiveKeepsInv(limits, s, e);
      }
    }
  }

  lemma {:induction false} SlotIffSome<H>(table: seq<Entry<H>>, h: H)
    ensures Lookup(table, h).None? ==> SlotOf(table, h) == |table|
  {
  }

  lemma {:induction false} PerformKeepsOwn<H>(limits: Limits, s: Context<H>, call: Call<H>, writeOk: bool)
    ensures Perform(limits, s, call, writeOk).context.own == s.own
  {
    hide Check, Changed, Step, Accepts;
  }

  /** A removed handle stays unresolved until a node is added under it again, whatever else happens, and every call
      on it is refused without effect. */
  lemma {:induction false} RemovedStaysRemoved<H(!new)>(limits: Limits, own: Guid, run: seq<Action<H>>, i: nat, n: nat, h: H)
    requires Sensible(limits, own, run) && i < n <= |run|
    requires Effective(limits, own, run, i, h) && run[i].call.RemoveNode?
    requires forall k :: i < k < n && run[k].Api? && run[k].call.AddNode? ==> run[k].call.node != h
    ensures Lookup(StateAfter(limits, own, run, n).table, h).None?
    ensures forall call: Call<H>, writeOk :: call.node == h && !call.AddNode? ==>
      Perform(limits, StateAfter(limits, own, run, n), call, writeOk) == Outcome(StateAfter(limits, own, run, n), InvalidArgument)
  {
    hide Effective, Lookup, StateAfter, Perform;
    LookupIsFold(limits, own, run, n);
    StaysUnknown(limits, own, run, i, n, h);
    var s := StateAfter(limits, own, run, n);
    forall call: Call<H>, writeOk | call.node == h && !call.AddNode?
      ensures Perform(limits, s, call, writeOk) == Outcome(s, InvalidArgument)
    {
      UnknownHandleIsRefused(limits, s, call, writeOk);
    }
  }

  lemma {:induction false} StaysUnknown<H>(limits: Limits, own: Guid, run: seq<Action<H>>, i: nat, n: nat, h: H)
    requires i < n <= |run|
    requires Effective(limits, own, run, i, h) && run[i].call.RemoveNode?
    requires forall k :: i < k < n && run[k].Api? && run[k].call.AddNode? ==> run[k].call.node != h
    ensures LastKnown(limits, own, run, n, h).None?
  {
    hide TookEffect, StateAfter, Perform;
    if i + 1 < n {
      StaysUnknown(limits, own, run, i, n - 1, h);
    }
  }
}
