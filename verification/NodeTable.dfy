/** The local node table: slots, the handles that own them, and the back-indices inside the handles.
    Removing a node shifts the later ones down and rewrites their back-indices. */
module NodeTables {
  import opened GraphTypes
  import opened CacheSpec
  import opened SlotTables
  import L = LocalSpec

  /** A node handle; it points back to the context it lives in and to its slot there. */
  class NodeData {
    var home: NodeTable?
    var graphIndex: nat

    constructor ()
      ensures home == null
    {
      home, graphIndex := null, 0;
    }
  }

  // ---------- tables as pairs of sequences ----------

  function TableOf<H>(handles: seq<H>, contents: seq<NodeInfo>): (t: seq<L.Entry<H>>)
    requires |handles| <= |contents|
    ensures |t| == |handles| && forall i :: 0 <= i < |t| ==> t[i] == L.Entry(handles[i], contents[i])
  {
    seq(|handles|, i requires 0 <= i < |handles| <= |contents| => L.Entry(handles[i], contents[i]))
  }

  lemma {:induction false} TableGrows<H>(handles: seq<H>, contents: seq<NodeInfo>, node: H, info: NodeInfo)
    requires |handles| < |contents|
    ensures TableOf(handles + [node], contents[|handles| := info]) == TableOf(handles, contents) + [L.Entry(node, info)]
  {
  }

  lemma {:induction false} TableShrinks<H>(handles: seq<H>, contents: seq<NodeInfo>, info: NodeInfo)
    requires 0 < |handles| <= |contents|
    ensures var n := |handles| - 1;
      TableOf(handles[..n], contents[n := info]) == TableOf(handles, contents)[..n]
  {
  }

  lemma {:induction false} TableUpdates<H>(handles: seq<H>, contents: seq<NodeInfo>, i: nat, writer: bool, gids: seq<Guid>)
    requires i < |handles| <= |contents|
    ensures TableOf(handles, contents[i := contents[i].WithGids(writer, gids)]) ==
            L.WithList(TableOf(handles, contents), i, writer, gids)
  {
  }

  /** The first k places after the gap at r have been filled from their right neighbours. */
  function Shifted<T>(s: seq<T>, r: nat, k: nat): (t: seq<T>)
    requires r <= k < |s|
    ensures |t| == |s|
  {
    s[..r] + s[r + 1..k + 1] + s[k..]
  }

  lemma {:induction false} ShiftStep<T>(s: seq<T>, r: nat, k: nat)
    requires r <= k && k + 1 < |s|
    ensures Shifted(s, r, k)[k + 1] == s[k + 1]
    ensures Shifted(s, r, k)[k := Shifted(s, r, k)[k + 1]] == Shifted(s, r, k + 1)
  {
  }

  lemma {:induction false} ShiftEnds<T>(s: seq<T>, r: nat, n: nat, last: T)
    requires r < n <= |s|
    ensures Shifted(s, r, r) == s
    ensures Shifted(s, r, n - 1)[n - 1 := last] == RemoveAt(s[..n], r) + [last] + s[n..]
  {
  }

  lemma {:induction false} TableLoses<H>(handles: seq<H>, contents: seq<NodeInfo>, r: nat, rest: seq<NodeInfo>)
    requires r < |handles| <= |contents|
    ensures TableOf(RemoveAt(handles, r), RemoveAt(contents[..|handles|], r) + rest) == RemoveAt(TableOf(handles, contents), r)
  {
  }

  class NodeTable {
    const limits: Limits
    const slots: SlotTable
    const owners: array<NodeData?>
    var nodeCount: nat
    ghost var handles: seq<NodeData>               // the live handles, in slot order

    ghost function Arrays(): set<object> {
      {owners as object, slots.slots, slots.readers, slots.writers}
    }

    ghost predicate Shape() {
      slots.Shape() && slots.limits == limits && owners.Length == limits.maxNodes &&
      owners as object != slots.slots && this !in Arrays()
    }

    /** Handles and slots are in bijection, through the owner array one way and the back-indices the
        other way, and everything past the count is vacant. */
    ghost predicate Valid()
      reads this, Arrays(), handles
    {
      Shape() && slots.Valid() && nodeCount == |handles| <= limits.maxNodes &&
      (forall i :: 0 <= i < nodeCount ==> owners[i] == handles[i] && handles[i].home == this && handles[i].graphIndex == i) &&
      (forall i :: nodeCount <= i < owners.Length ==> owners[i] == null && slots.Contents()[i] == VACANT)
    }

    ghost function Table(): (t: seq<L.Entry<NodeData>>)
      requires Valid()
      reads this, Arrays(), handles
    {
      TableOf(handles, slots.Contents())
    }

    constructor (limits: Limits)
      ensures Valid() && this.limits == limits && Table() == [] && handles == []
      ensures fresh(Arrays())
    {
      this.limits := limits;
      slots := new SlotTable(limits);
      owners := new NodeData?[limits.maxNodes](_ => null);
      nodeCount, handles := 0, [];
    }

    /** Whether a handle is live, looking only at the handle and the owner array. */
    method NodeIsValid(node: NodeData?) returns (valid: bool)
      requires Valid()
      ensures valid <==> node != null && node in handles
      ensures valid ==> L.SlotOf(Table(), node) == node.graphIndex < nodeCount
      ensures node != null && !valid ==> L.SlotOf(Table(), node) == nodeCount
    {
      valid := node != null && node.home == this && node.graphIndex < nodeCount && owners[node.graphIndex] == node;
      if valid {
        L.SlotIsUnique(Table(), node.graphIndex);
      } else if node != null {
        assert forall i :: 0 <= i < nodeCount ==> Table()[i].owner == handles[i];
      }
    }

    method ResetNode(index: nat)
      requires Shape() && slots.Valid() && index < owners.Length
      modifies Arrays()
      ensures slots.Valid() && slots.Contents() == old(slots.Contents())[index := VACANT]
      ensures owners[..] == old(owners[..])[index := null]
      ensures HandlesAreAsBefore(null)
    {
      slots.Reset(index);
      owners[index] := null;
    }

    /** No handle was touched, except that one may have been given another index. */
    twostate predicate HandlesAreAsBefore(moved: NodeData?)
      reads this, handles
    {
      nodeCount == old(nodeCount) && handles == old(handles) &&
      forall i :: 0 <= i < |handles| ==>
        handles[i].home == old(handles[i].home) && (handles[i] != moved ==> handles[i].graphIndex == old(handles[i].graphIndex))
    }

    method Occupy(index: nat, node: NodeData, name: string, namespace_: string)
      requires Shape() && slots.Valid() && index < owners.Length
      modifies Arrays()
      ensures slots.Valid() && slots.Contents() == old(slots.Contents())[index := NodeInfo(name, namespace_, [], [])]
      ensures owners[..] == old(owners[..])[index := node]
      ensures HandlesAreAsBefore(null)
    {
      hide SlotTable.Valid, SlotTable.Contents;
      ResetNode(index);
      slots.SetNames(index, name, namespace_);
      owners[index] := node;
    }

    /** Moves a slot to another place and tells its owner where it is now. */
    method CopyNode(destination: nat, source: nat)
      requires Shape() && slots.Valid() && destination < owners.Length && source < owners.Length && destination != source
      requires owners[source] != null
      modifies Arrays(), owners[source]
      ensures slots.Valid() && slots.Contents() == old(slots.Contents())[destination := old(slots.Contents())[source]]
      ensures owners[..] == old(owners[..])[destination := old(owners[source])]
      ensures old(owners[source]).graphIndex == destination && old(owners[source]).home == old(owners[source].home)
      ensures HandlesAreAsBefore(old(owners[source]))
    {
      var owner := owners[source];
      slots.Copy(destination, source);
      owners[destination] := owner;
      owner.graphIndex := destination;
    }

    /** The next free slot goes to a new handle. */
    method Claim(node: NodeData, name: string, namespace_: string) returns (check: Ret)
      requires Valid() && node !in handles
      modifies this, Arrays(), node
      ensures Valid() && check == L.Check(limits, old(Table()), L.AddNode(node, name, namespace_))
      ensures handles == old(handles) + if check == Ok then [node] else []
      ensures Table() == if check == Ok then L.Changed(old(Table()), L.AddNode(node, name, namespace_)) else old(Table())
    {
      hide SlotTable.Valid, SlotTable.Contents, L.SlotOf;
      if |name| > GRAPH_STRING_BOUND || |namespace_| > GRAPH_STRING_BOUND {
        return InvalidArgument;
      }
      if nodeCount == limits.maxNodes {
        return Error;
      }
      Install(node, name, namespace_);
      return Ok;
    }

    /** Gives the next slot to the node. */
    method Install(node: NodeData, name: string, namespace_: string)
      requires Valid() && node !in handles && nodeCount < limits.maxNodes
      modifies this, Arrays(), node
      ensures Valid() && handles == old(handles) + [node]
      ensures Table() == old(Table()) + [L.Entry(node, NodeInfo(name, namespace_, [], []))]
    {
      hide SlotTable.Valid, SlotTable.Contents;
      TableGrows(handles, slots.Contents(), node, NodeInfo(name, namespace_, [], []));
      var index := nodeCount;
      Occupy(index, node, name, namespace_);
      node.home := this;
      node.graphIndex := index;
      nodeCount, handles := nodeCount + 1, handles + [node];
    }

    /** Takes back the last claim. */
    method Unclaim(node: NodeData)
      requires Valid() && handles != [] && handles[|handles| - 1] == node
      modifies this, Arrays(), node
      ensures Valid() && handles == old(handles)[..|old(handles)| - 1] && Table() == old(Table())[..|old(handles)| - 1]
      ensures node.home == null
    {
      hide SlotTable.Valid, SlotTable.Contents;
      assert forall i :: 0 <= i < nodeCount - 1 ==> handles[i].graphIndex != node.graphIndex;
      TableShrinks(handles, slots.Contents(), VACANT);
      nodeCount, handles := nodeCount - 1, handles[..nodeCount - 1];
      ResetNode(nodeCount);
      node.home := null;
    }

    /** Gives up the slot of a live handle without endpoints. */
    method Release(node: NodeData) returns (check: Ret)
      requires Valid()
      modifies this, Arrays(), handles
      ensures Valid() && check == L.Check(limits, old(Table()), L.RemoveNode(node))
      ensures Table() == if check == Ok then L.Changed(old(Table()), L.RemoveNode(node)) else old(Table())
      ensures check == Ok ==> node in old(handles) && node !in handles && node.home == null
      ensures check != Ok ==> handles == old(handles)
      ensures forall h :: h in handles ==> h in old(handles)
    {
      hide SlotTable.Valid, SlotTable.Contents, SlotTable.Length, L.SlotOf, RemoveAt;
      var valid := NodeIsValid(node);
      if !valid {
        return InvalidArgument;
      }
      var removed := node.graphIndex;
      if slots.Length(removed, false) != 0 || slots.Length(removed, true) != 0 {
        return InvalidArgument;
      }
      CloseSlot(removed);
      assert node !in handles;
      node.home := null;
      return Ok;
    }

    /** The slots between the removed one and index have been filled from their right neighbours, and
        the owners of what moved know it. */
    ghost predicate ShiftedTo(contents: seq<NodeInfo>, owned: seq<NodeData?>, removed: nat, index: nat)
      reads this, Arrays(), handles
    {
      Shape() && slots.Valid() && removed <= index < nodeCount == |handles| <= limits.maxNodes == |contents| == |owned| &&
      (forall i :: 0 <= i < nodeCount ==> owned[i] == handles[i]) &&
      owners[..] == Shifted(owned, removed, index) && slots.Contents() == Shifted(contents, removed, index) &&
      forall i :: 0 <= i < nodeCount && i != removed ==>
        (handles[i].home == this && handles[i].graphIndex == if removed < i <= index then i - 1 else i)
    }

    method ShiftOne(removed: nat, index: nat, ghost contents: seq<NodeInfo>, ghost owned: seq<NodeData?>)
      requires ShiftedTo(contents, owned, removed, index) && index + 1 < nodeCount
      modifies Arrays(), handles
      ensures nodeCount == old(nodeCount) && handles == old(handles)
      ensures ShiftedTo(contents, owned, removed, index + 1)
    {
      hide SlotTable.Valid, SlotTable.Contents, SlotTable.Shape, Shifted, RemoveAt;
      ShiftStep(contents, removed, index);
      ShiftStep(owned, removed, index);
      assert owners[index + 1] == owners[..][index + 1] == owned[index + 1] == handles[index + 1];
      assert forall i :: 0 <= i < nodeCount && i != removed && i != index + 1 ==> handles[i].graphIndex != handles[index + 1].graphIndex;
      CopyNode(index, index + 1);
    }

    /** Shifts every later slot down by one and tells each owner its new place. */
    method ShiftSlots(removed: nat)
      requires Valid() && removed < nodeCount
      modifies Arrays(), handles
      ensures nodeCount == old(nodeCount) && handles == old(handles)
      ensures ShiftedTo(old(slots.Contents()), old(owners[..]), removed, nodeCount - 1)
    {
      hide SlotTable.Valid, SlotTable.Contents, SlotTable.Shape, Shifted, RemoveAt;
      ghost var contents, owned := slots.Contents(), owners[..];
      ShiftEnds(contents, removed, nodeCount, VACANT);
      ShiftEnds(owned, removed, nodeCount, null);
      var index := removed;
      while index + 1 < nodeCount
        invariant nodeCount == old(nodeCount) && handles == old(handles)
        invariant ShiftedTo(contents, owned, removed, index)
      {
        ShiftOne(removed, index, contents, owned);
        index := index + 1;
      }
    }

    /** The arrays after the shift, with the last slot vacated. */
    method Vacate(removed: nat)
      requires Valid() && removed < nodeCount
      modifies this`nodeCount, Arrays(), handles
      ensures slots.Valid() && nodeCount == old(nodeCount) - 1 && handles == old(handles)
      ensures owners[..] == RemoveAt(old(owners[..])[..old(nodeCount)], removed) + [null] + old(owners[..])[old(nodeCount)..]
      ensures slots.Contents() == RemoveAt(old(slots.Contents())[..old(nodeCount)], removed) + [VACANT] + old(slots.Contents())[old(nodeCount)..]
      ensures forall i :: 0 <= i < old(nodeCount) && i != removed ==>
        (handles[i].home == this && handles[i].graphIndex == if removed < i then i - 1 else i)
    {
      hide SlotTable.Valid, SlotTable.Contents, Shifted, RemoveAt;
      ghost var contents, owned := slots.Contents(), owners[..];
      ShiftSlots(removed);
      ShiftEnds(contents, removed, nodeCount, VACANT);
      ShiftEnds(owned, removed, nodeCount, null);
      nodeCount := nodeCount - 1;
      ResetNode(nodeCount);
    }

    /** Closes the gap that a removed node leaves and links the handles up again. */
    method CloseSlot(removed: nat)
      requires Valid() && removed < nodeCount
      modifies this, Arrays(), handles
      ensures Valid() && handles == RemoveAt(old(handles), removed)
      ensures forall h :: h in handles <==> h in old(handles) && h != old(handles)[removed]
      ensures Table() == RemoveAt(old(Table()), removed)
    {
      hide SlotTable.Valid, SlotTable.Contents;
      ghost var contents, owned, all, n := slots.Contents(), owners[..], handles, nodeCount;
      assert Distinct(handles) by {
        assert forall i :: 0 <= i < nodeCount ==> handles[i].graphIndex == i;
      }
      Vacate(removed);
      TableLoses(all, contents, removed, [VACANT] + contents[n..]);
      RemoveAtFromDistinct(all, removed);
      handles := RemoveAt(all, removed);
      assert RemoveAt(contents[..n], removed) + [VACANT] + contents[n..] == RemoveAt(contents[..n], removed) + ([VACANT] + contents[n..]);
      Relinked(owned, contents, all, removed);
    }

    /** The shifted arrays and the rewritten back-indices link up again. */
    lemma {:induction false} Relinked(owned: seq<NodeData?>, contents: seq<NodeInfo>, all: seq<NodeData>, removed: nat)
      requires var n := |all|;
        Shape() && slots.Valid() && removed < n <= limits.maxNodes && nodeCount == n - 1 && handles == RemoveAt(all, removed) &&
        |owned| == |contents| == limits.maxNodes &&
        (forall i :: 0 <= i < n ==> owned[i] == all[i]) &&
        (forall i :: n <= i < |owned| ==> owned[i] == null && contents[i] == VACANT) &&
        owners[..] == RemoveAt(owned[..n], removed) + [null] + owned[n..] &&
        slots.Contents() == RemoveAt(contents[..n], removed) + [VACANT] + contents[n..] &&
        (forall i :: 0 <= i < n && i != removed ==> (all[i].home == this && all[i].graphIndex == if removed < i then i - 1 else i))
      ensures Valid()
    {
      hide SlotTable.Valid, SlotTable.Contents;
      forall i | 0 <= i < owners.Length
        ensures i < nodeCount ==> owners[i] == handles[i] && handles[i].home == this && handles[i].graphIndex == i
        ensures i >= nodeCount ==> owners[i] == null && slots.Contents()[i] == VACANT
      {
        assert owners[i] == owners[..][i];
        if i < nodeCount {
          assert handles[i] == all[if i < removed then i else i + 1];
        }
      }
    }

    /** When one list of a live slot changed and nothing else, the table is linked as before. */
    lemma {:induction false} ListChanged(owned: seq<NodeData?>, contents: seq<NodeInfo>, index: nat, writer: bool, gids: seq<Guid>)
      requires Shape() && slots.Valid() && owners[..] == owned && nodeCount == |handles| <= limits.maxNodes == |contents|
      requires forall i :: 0 <= i < nodeCount ==> owned[i] == handles[i] && handles[i].home == this && handles[i].graphIndex == i
      requires forall i :: nodeCount <= i < |owned| ==> owned[i] == null && contents[i] == VACANT
      requires index < nodeCount && slots.Contents() == contents[index := contents[index].WithGids(writer, gids)]
      ensures Valid() && Table() == L.WithList(TableOf(handles, contents), index, writer, gids)
    {
      hide SlotTable.Valid, SlotTable.Contents, L.WithList, TableOf;
      TableUpdates(handles, contents, index, writer, gids);
      assert forall i :: 0 <= i < owners.Length ==> owners[i] == owned[i];
    }

    method AppendGid(node: NodeData, guid: Guid, writer: bool) returns (check: Ret)
      requires Valid()
      modifies Arrays()
      ensures Valid() && check == L.Check(limits, old(Table()), L.AddEndpoint(node, guid, writer))
      ensures check == Ok ==> node in handles
      ensures Table() == if check == Ok then L.Changed(old(Table()), L.AddEndpoint(node, guid, writer)) else old(Table())
    {
      hide SlotTable.Valid, SlotTable.Contents, SlotTable.Length, L.SlotOf, L.WithList, IndexOf, TableOf;
      var valid := NodeIsValid(node);
      if !valid {
        return InvalidArgument;
      }
      var index := node.graphIndex;
      if slots.Length(index, writer) == limits.maxEndpointsPerNode {
        return Error;
      }
      ghost var contents, owned, gids := slots.Contents(), owners[..], slots.Contents()[index].Gids(writer);
      slots.Append(index, writer, guid);
      ListChanged(owned, contents, index, writer, gids + [guid]);
      return Ok;
    }

    /** Takes back the last entry of a live node's list. */
    method DropLastGid(node: NodeData, writer: bool)
      requires Valid() && node in handles
      requires L.SlotOf(Table(), node) < |Table()| && Table()[L.SlotOf(Table(), node)].info.Gids(writer) != []
      modifies Arrays()
      ensures Valid()
      ensures var t, i := old(Table()), L.SlotOf(old(Table()), node);
        Table() == L.WithList(t, i, writer, t[i].info.Gids(writer)[..|t[i].info.Gids(writer)| - 1])
    {
      hide SlotTable.Valid, SlotTable.Contents, SlotTable.Length, L.SlotOf, L.WithList, IndexOf, TableOf;
      var valid := NodeIsValid(node);
      var index := node.graphIndex;
      ghost var contents, owned, gids := slots.Contents(), owners[..], slots.Contents()[index].Gids(writer);
      slots.Unappend(index, writer);
      ListChanged(owned, contents, index, writer, gids[..|gids| - 1]);
    }

    method FindGid(node: NodeData, guid: Guid, writer: bool) returns (check: Ret, index: nat, removed: nat)
      requires Valid()
      ensures check == L.Check(limits, Table(), L.RemoveEndpoint(node, guid, writer))
      ensures check == Ok ==> index == L.SlotOf(Table(), node) < nodeCount
      ensures check == Ok ==> removed == IndexOf(Table()[index].info.Gids(writer), guid) < slots.Length(index, writer)
    {
      hide SlotTable.Valid, SlotTable.Contents, L.SlotOf, IndexOf, TableOf;
      index, removed := 0, 0;
      var valid := NodeIsValid(node);
      if !valid {
        return InvalidArgument, index, removed;
      }
      index := node.graphIndex;
      removed := slots.Find(index, writer, guid);
      check := if removed == slots.Length(index, writer) then InvalidArgument else Ok;
    }

    method RemoveGid(node: NodeData, guid: Guid, writer: bool) returns (check: Ret)
      requires Valid()
      modifies Arrays()
      ensures Valid() && check == L.Check(limits, old(Table()), L.RemoveEndpoint(node, guid, writer))
      ensures Table() == if check == Ok then L.Changed(old(Table()), L.RemoveEndpoint(node, guid, writer)) else old(Table())
    {
      hide SlotTable.Valid, SlotTable.Contents, SlotTable.Length, L.SlotOf, L.WithList, L.Check, IndexOf, TableOf;
      var index, removed;
      check, index, removed := FindGid(node, guid, writer);
      if check == Ok {
        ghost var contents, owned, gids := slots.Contents(), owners[..], slots.Contents()[index].Gids(writer);
        slots.RemoveGid(index, writer, removed);
        ListChanged(owned, contents, index, writer, RemoveAt(gids, removed));
      }
    }
  }
}
