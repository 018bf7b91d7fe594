/** The wait algorithm: detach everything, attach the requested entities, wait, and filter the
    caller's arrays in place. The shadow list mirrors what is attached in DDS. */
module WaitSets {
  import opened GraphTypes

  type Entity = int

  ghost function Elements(s: seq<Entity>): set<Entity> {
    set i | 0 <= i < |s| :: s[i]
  }

  /** The DDS wait set (section 2.2.2.1.6 of DDS 1.4). Each operation may fail, and then changes nothing that is
      attached. What has happened so far is recorded. */
  class DdsWaitSet {
    ghost var members: set<Entity>
    ghost var taken: set<Entity>      // guard conditions whose trigger has been consumed
    ghost var failures: nat           // operations that failed
    ghost var waits: nat              // waits that did not fail
    ghost var awaited: set<Entity>    // what was attached during the last of them
    ghost var reported: set<Entity>   // the entities whose trigger it reported

    constructor ()
      ensures members == {} && taken == {} && failures == 0 && waits == 0
    {
      members, taken, failures, waits, awaited, reported := {}, {}, 0, 0, {}, {};
    }

    method Attach(entity: Entity) returns (ok: bool)
      modifies this`members, this`failures
      ensures members == if ok then old(members) + {entity} else old(members)
      ensures failures == old(failures) + if ok then 0 else 1
    {
      ok := *;
      if ok {
        members := members + {entity};
      } else {
        failures := failures + 1;
      }
    }

    method Detach(entity: Entity) returns (ok: bool)
      modifies this`members, this`failures
      ensures members == if ok then old(members) - {entity} else old(members)
      ensures failures == old(failures) + if ok then 0 else 1
    {
      ok := *;
      if ok {
        members := members - {entity};
      } else {
        failures := failures + 1;
      }
    }

    /** Returns how many attached entities triggered, or a negative error. As many of them as there is
        room for are written to the front of the array, each once. */
    method Wait(triggered: array<Entity>) returns (result: int)
      modifies this`failures, this`waits, this`awaited, this`reported, triggered
      ensures result < 0 ==>
        failures == old(failures) + 1 && waits == old(waits) && awaited == old(awaited) && reported == old(reported)
      ensures result >= 0 ==> failures == old(failures) && waits == old(waits) + 1 && awaited == members
      ensures result >= 0 ==> reported <= members && result == |reported|
      ensures result >= 0 ==> var n := if result < triggered.Length then result else triggered.Length;
        Distinct(triggered[..n]) && Elements(triggered[..n]) <= reported
    {
      var failed: bool := *;
      if failed {
        failures, result := failures + 1, -1;
      } else {
        waits, awaited, reported, result := waits + 1, members, {}, 0;
      }
    }

    method TakeGuardCondition(entity: Entity)
      modifies this`taken
      ensures taken == old(taken) + {entity}
    {
      taken := taken + {entity};
    }
  }

  /** What the caller's arrays point to: a subscription or a guard condition, each with its DDS entity. */
  class Waitable {
    const entity: Entity

    constructor (entity: Entity)
      ensures this.entity == entity
    {
      this.entity := entity;
    }
  }

  /** One of the caller's lists; the list itself may be missing, and any entry may be null. */
  datatype Entries = Missing | Entries(items: array<Waitable?>)

  ghost function Items(e: Entries): seq<Waitable?>
    reads if e.Missing? then {} else {e.items}
  {
    if e.Missing? then [] else e.items[..]
  }

  ghost predicate NoNull(s: seq<Waitable?>) {
    forall i :: 0 <= i < |s| ==> s[i] != null
  }

  /** The DDS entities of the leading entries of a list. */
  ghost function EntitiesOf(s: seq<Waitable?>): (r: set<Entity>)
    requires NoNull(s)
  {
    set i | 0 <= i < |s| :: s[i].entity
  }

  /** What filtering leaves of a list: the entries whose entity fired, in their places. */
  ghost function Filtered(s: seq<Waitable?>, fired: set<Entity>): (r: seq<Waitable?>)
    requires NoNull(s)
    ensures |r| == |s| && forall i :: 0 <= i < |s| ==> r[i] == if s[i].entity in fired then s[i] else null
  {
    seq(|s|, i requires 0 <= i < |s| && NoNull(s) => if s[i].entity in fired then s[i] else null)
  }

  class WaitSet {
    const waitset: DdsWaitSet
    const attached: array<Entity>
    const triggered: array<Entity>
    const capacity: nat
    var attachedCount: nat

    ghost function Shadow(): set<Entity>
      reads this, attached
      requires attachedCount <= attached.Length
    {
      Elements(attached[..attachedCount])
    }

    /** Nothing is attached in DDS that the shadow list does not know of. */
    ghost predicate Valid()
      reads this, waitset, attached
    {
      attached.Length == triggered.Length == capacity && attached != triggered && attachedCount <= capacity &&
      waitset.members <= Shadow()
    }

    /** The shadow list is exactly what is attached in DDS. */
    ghost predicate Exact()
      reads this, waitset, attached
    {
      Valid() && waitset.members == Shadow()
    }

    constructor (maxConditions: nat)
      ensures Exact() && waitset.members == {} && fresh(waitset) && fresh(attached) && fresh(triggered)
      ensures capacity == if maxConditions == 0 then 16 else maxConditions
    {
      capacity := if maxConditions == 0 then 16 else maxConditions;
      attached := new Entity[if maxConditions == 0 then 16 else maxConditions](_ => 0);
      triggered := new Entity[if maxConditions == 0 then 16 else maxConditions](_ => 0);
      waitset := new DdsWaitSet();
      attachedCount := 0;
    }

    method AttachEntity(entity: Entity) returns (ret: Ret)
      requires Exact()
      modifies this, waitset`members, waitset`failures, attached
      ensures Exact() && waitset.failures == old(waitset.failures) + if ret == Error then 1 else 0
      ensures ret == Ok || (ret == InvalidArgument && old(attachedCount) == capacity) || (ret == Error && old(attachedCount) < capacity)
      ensures attachedCount == old(attachedCount) + if ret == Ok then 1 else 0
      ensures Shadow() == old(Shadow()) + if ret == Ok then {entity} else {}
    {
      if attachedCount >= capacity {
        return InvalidArgument;
      }
      var ok := waitset.Attach(entity);
      if !ok {
        return Error;
      }
      attached[attachedCount] := entity;
      attachedCount := attachedCount + 1;
      assert attached[..attachedCount] == attached[..attachedCount - 1] + [entity];
      ElementsAppend(attached[..attachedCount - 1], entity);
      return Ok;
    }

    /** When every detach works, nothing is left attached; when one fails, the shadow list is kept as it is. */
    method DetachAll() returns (ok: bool)
      requires Valid()
      modifies this, waitset`members, waitset`failures
      ensures Valid() && waitset.failures == old(waitset.failures) + if ok then 0 else 1
      ensures ok ==> attachedCount == 0 && waitset.members == {}
      ensures !ok ==> Shadow() == old(Shadow()) && waitset.members <= old(waitset.members)
    {
      for i := 0 to attachedCount
        invariant attachedCount == old(attachedCount)
        invariant waitset.members <= old(waitset.members) && waitset.failures == old(waitset.failures)
        invariant forall k :: 0 <= k < i ==> attached[k] !in waitset.members
      {
        var detached := waitset.Detach(attached[i]);
        if !detached {
          return false;
        }
      }
      assert waitset.members == {};
      attachedCount := 0;
      return true;
    }

    method AttachList(entries: Entries) returns (ret: Ret)
      requires Exact()
      modifies this, waitset`members, waitset`failures, attached
      ensures Exact() && waitset.failures == old(waitset.failures) + if ret == Error then 1 else 0
      ensures ret in {Ok, InvalidArgument, Error}
      ensures ret == Ok ==>
        (NoNull(Items(entries)) && Shadow() == old(Shadow()) + EntitiesOf(Items(entries)) &&
         attachedCount == old(attachedCount) + |Items(entries)|)
      ensures ret == Ok ==> attachedCount <= capacity
      ensures ret == InvalidArgument ==> !NoNull(Items(entries)) || old(attachedCount) + |Items(entries)| > capacity
    {
      if entries.Missing? {
        return Ok;
      }
      for i := 0 to entries.items.Length
        invariant Exact() && waitset.failures == old(waitset.failures)
        invariant NoNull(entries.items[..i]) && attachedCount == old(attachedCount) + i
        invariant Shadow() == old(Shadow()) + EntitiesOf(entries.items[..i])
      {
        if entries.items[i] == null {
          return InvalidArgument;
        }
        var attach := AttachEntity(entries.items[i].entity);
        if attach != Ok {
          return attach;
        }
        assert entries.items[..i + 1] == entries.items[..i] + [entries.items[i]];
        EntitiesAppend(entries.items[..i], entries.items[i]);
      }
      assert entries.items[..entries.items.Length] == entries.items[..];
      return Ok;
    }

    method WasTriggered(entity: Entity, count: nat) returns (found: bool)
      requires Valid() && count <= triggered.Length
      ensures found == (entity in Elements(triggered[..count]))
    {
      for i := 0 to count
        invariant forall k :: 0 <= k < i ==> triggered[k] != entity
      {
        if triggered[i] == entity {
          assert triggered[..count][i] == entity;
          return true;
        }
      }
      return false;
    }

    method FilterList(entries: Entries, count: nat, guards: bool, ghost fired: set<Entity>)
      requires Valid() && count <= triggered.Length && Elements(triggered[..count]) == fired
      requires NoNull(Items(entries))
      modifies waitset`taken, if entries.Missing? then {} else {entries.items}
      ensures Items(entries) == Filtered(old(Items(entries)), fired)
      ensures waitset.taken == old(waitset.taken) + if guards then EntitiesOf(old(Items(entries))) * fired else {}
    {
      if entries.Missing? {
        assert EntitiesOf([]) * fired == {};
        return;
      }
      ghost var before := entries.items[..];
      for i := 0 to entries.items.Length
        invariant forall k :: 0 <= k < i ==> entries.items[k] == Filtered(before, fired)[k]
        invariant forall k :: i <= k < |before| ==> entries.items[k] == before[k]
        invariant waitset.taken == old(waitset.taken) + if guards then EntitiesOf(before[..i]) * fired else {}
      {
        var found := WasTriggered(entries.items[i].entity, count);
        assert before[..i + 1] == before[..i] + [before[i]];
        EntitiesAppend(before[..i], before[i]);
        if !found {
          entries.items[i] := null;
        } else if guards {
          waitset.TakeGuardCondition(entries.items[i].entity);
        }
      }
      assert before[..|before|] == before;
    }

    /** What is wrong with the lists, if anything. */
    ghost predicate IsBadRequest(subscriptions: seq<Waitable?>, guardConditions: seq<Waitable?>) {
      !NoNull(subscriptions) || !NoNull(guardConditions) || |subscriptions| + |guardConditions| > capacity
    }

    /** Detaches everything and attaches both lists. Whatever fails, once the detaches worked the shadow
        list is exact; unless a DDS operation fails, the call works iff the lists are good. */
    method AttachAll(subscriptions: Entries, guardConditions: Entries) returns (ret: Ret, ghost detached: bool)
      requires Valid()
      modifies this, waitset`members, waitset`failures, attached
      ensures Valid() && ret in {Ok, InvalidArgument, Error}
      ensures waitset.failures == old(waitset.failures) + if ret == Error then 1 else 0
      ensures detached ==> Exact()
      ensures !detached ==> ret == Error && Shadow() == old(Shadow()) && waitset.members <= old(waitset.members)
      ensures ret == Ok ==> !IsBadRequest(Items(subscriptions), Items(guardConditions))
      ensures ret == Ok ==> waitset.members == EntitiesOf(Items(subscriptions)) + EntitiesOf(Items(guardConditions))
      ensures ret == InvalidArgument ==> IsBadRequest(Items(subscriptions), Items(guardConditions))
    {
      detached := false;
      var ok := DetachAll();
      if !ok {
        return Error, detached;
      }
      detached := true;
      assert Shadow() == {};
      ret := AttachList(subscriptions);
      if ret == Ok {
        ret := AttachList(guardConditions);
      }
    }

    /** The wait call. `detached` tells whether all detaches worked. A call that returns Ok or Timeout has made one wait,
        on exactly the requested entities, and has kept what that wait reported; every other call has not waited
        successfully. Error means that a DDS operation of this call failed, and nothing else does. */
    method Wait(subscriptions: Entries, guardConditions: Entries, unsupported: bool) returns (ret: Ret, ghost detached: bool)
      requires Valid()
      requires subscriptions.Missing? || guardConditions.Missing? || subscriptions.items != guardConditions.items
      modifies this, waitset, attached, triggered,
        (if subscriptions.Missing? then {} else {subscriptions.items}),
        (if guardConditions.Missing? then {} else {guardConditions.items})
      ensures Valid()
      ensures detached ==> Exact()
      ensures unsupported <==> ret == Unsupported
      ensures ret in {Ok, Timeout, InvalidArgument, Unsupported, Error}
      ensures waitset.failures == old(waitset.failures) + if ret == Error then 1 else 0
      ensures ret != Error && !unsupported ==>
        (ret == InvalidArgument <==> IsBadRequest(old(Items(subscriptions)), old(Items(guardConditions))))
      ensures unsupported ==> attachedCount == old(attachedCount) && waitset.members == old(waitset.members) && Shadow() == old(Shadow())
      ensures !detached ==> Shadow() == old(Shadow()) && waitset.members <= old(waitset.members)
      ensures old(Exact()) && (unsupported || detached) ==> Exact()
      ensures waitset.waits == old(waitset.waits) + if ret == Ok || ret == Timeout then 1 else 0
      ensures ret != Ok && ret != Timeout ==>
        (Items(subscriptions) == old(Items(subscriptions)) && Items(guardConditions) == old(Items(guardConditions)) &&
         waitset.taken == old(waitset.taken))
      ensures ret == Ok || ret == Timeout ==>
        (detached && NoNull(old(Items(subscriptions))) && NoNull(old(Items(guardConditions))) &&
         waitset.members == waitset.awaited == EntitiesOf(old(Items(subscriptions))) + EntitiesOf(old(Items(guardConditions))) &&
         waitset.reported <= waitset.awaited &&
         Items(subscriptions) == Filtered(old(Items(subscriptions)), waitset.reported) &&
         Items(guardConditions) == Filtered(old(Items(guardConditions)), waitset.reported) &&
         waitset.taken == old(waitset.taken) + EntitiesOf(old(Items(guardConditions))) * waitset.reported &&
         (ret == Timeout <==> waitset.reported == {}))
    {
      hide EntitiesOf, Filtered, NoNull, Elements;
      detached := false;
      if unsupported {
        return Unsupported, detached;
      }
      ret, detached := AttachAll(subscriptions, guardConditions);
      if ret != Ok {
        return;
      }
      var result := WaitAndFilter(subscriptions, guardConditions);
      ret := if result < 0 then Error else if result == 0 then Timeout else Ok;
    }

    /** Waits on what is attached and, unless that fails, keeps exactly the entries that were reported. */
    method WaitAndFilter(subscriptions: Entries, guardConditions: Entries) returns (result: int)
      requires Exact() && NoNull(Items(subscriptions)) && NoNull(Items(guardConditions))
      requires subscriptions.Missing? || guardConditions.Missing? || subscriptions.items != guardConditions.items
      modifies waitset, triggered,
        (if subscriptions.Missing? then {} else {subscriptions.items}),
        (if guardConditions.Missing? then {} else {guardConditions.items})
      ensures Exact() && waitset.members == old(waitset.members)
      ensures waitset.failures == old(waitset.failures) + if result < 0 then 1 else 0
      ensures waitset.waits == old(waitset.waits) + if result < 0 then 0 else 1
      ensures result < 0 ==>
        (Items(subscriptions) == old(Items(subscriptions)) && Items(guardConditions) == old(Items(guardConditions)) &&
         waitset.taken == old(waitset.taken))
      ensures result >= 0 ==>
        (waitset.awaited == waitset.members && waitset.reported <= waitset.awaited && (result == 0 <==> waitset.reported == {}) &&
         Items(subscriptions) == Filtered(old(Items(subscriptions)), waitset.reported) &&
         Items(guardConditions) == Filtered(old(Items(guardConditions)), waitset.reported) &&
         waitset.taken == old(waitset.taken) + EntitiesOf(old(Items(guardConditions))) * waitset.reported)
    {
      hide EntitiesOf, Filtered, NoNull, Elements;
      result := waitset.Wait(triggered);
      if result >= 0 {
        var count := if result < capacity then result else capacity;
        ReportIsComplete(attached[..attachedCount], triggered[..count], waitset.reported, capacity);
        FilterList(subscriptions, count, false, waitset.reported);
        FilterList(guardConditions, count, true, waitset.reported);
      }
    }
  }

  lemma {:induction false} ElementsAppend(s: seq<Entity>, x: Entity)
    ensures Elements(s + [x]) == Elements(s) + {x}
  {
    forall e ensures e in Elements(s + [x]) <==> e in Elements(s) + {x} {
      if e in Elements(s) {
        var i :| 0 <= i < |s| && s[i] == e;
        assert (s + [x])[i] == e;
      }
      if e == x {
        assert (s + [x])[|s|] == e;
      }
    }
  }

  lemma {:induction false} EntitiesAppend(s: seq<Waitable?>, w: Waitable)
    requires NoNull(s)
    ensures NoNull(s + [w]) && EntitiesOf(s + [w]) == EntitiesOf(s) + {w.entity}
  {
    forall e ensures e in EntitiesOf(s + [w]) <==> e in EntitiesOf(s) + {w.entity} {
      if e in EntitiesOf(s) {
        var i :| 0 <= i < |s| && s[i].entity == e;
        assert (s + [w])[i].entity == e;
      }
      if e == w.entity {
        assert (s + [w])[|s|].entity == e;
      }
    }
  }

  lemma {:induction false} ElementsSize(s: seq<Entity>)
    ensures |Elements(s)| <= |s|
    ensures Distinct(s) ==> |Elements(s)| == |s|
  {
    if s == [] {
      assert Elements(s) == {};
    } else {
      var front, last := s[..|s| - 1], s[|s| - 1];
      ElementsSize(front);
      ElementsAppend(front, last);
      assert s == front + [last];
      if Distinct(s) {
        assert last !in Elements(front);
      }
    }
  }

  lemma {:induction false} SubsetOfSameSize(a: set<Entity>, b: set<Entity>)
    requires a <= b && |a| == |b|
    ensures a == b
  {
    assert |b - a| == |b| - |a|;
    assert b == a + (b - a);
  }

  lemma {:induction false} SubsetSize(a: set<Entity>, b: set<Entity>)
    requires a <= b
    ensures |a| <= |b|
  {
    assert b == a + (b - a);
  }

  /** Clamping the count to the capacity drops nothing: no more entities can fire than were attached,
      and no more were attached than the array has room for. */
  lemma {:induction false} ReportIsComplete(attached: seq<Entity>, reported: seq<Entity>, fired: set<Entity>, capacity: nat)
    requires fired <= Elements(attached) && |attached| <= capacity
    requires |reported| == if |fired| < capacity then |fired| else capacity
    requires Distinct(reported) && Elements(reported) <= fired
    ensures Elements(reported) == fired
  {
    ElementsSize(attached);
    ElementsSize(reported);
    SubsetSize(fired, Elements(attached));
    SubsetOfSameSize(Elements(reported), fired);
  }

  /** A completed wait timed out exactly when it cleared every entry of both lists. */
  lemma {:induction false} TimeoutIffAllCleared(subs: seq<Waitable?>, guards: seq<Waitable?>, fired: set<Entity>)
    requires NoNull(subs) && NoNull(guards) && fired <= EntitiesOf(subs) + EntitiesOf(guards)
    ensures fired == {} <==>
            (forall i :: 0 <= i < |subs| ==> Filtered(subs, fired)[i] == null) &&
            (forall i :: 0 <= i < |guards| ==> Filtered(guards, fired)[i] == null)
  {
    if fired != {} {
      var e :| e in fired;
      if e in EntitiesOf(subs) {
        var i :| 0 <= i < |subs| && subs[i].entity == e;
        assert Filtered(subs, fired)[i] != null;
      } else {
        var i :| 0 <= i < |guards| && guards[i].entity == e;
        assert Filtered(guards, fired)[i] != null;
      }
    }
  }
}
