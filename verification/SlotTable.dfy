/** The storage of the local graph table: one slot per node, with the GUIDs of its readers and
    writers in two matrices whose rows the slots own. Rows are shifted, copied and cleared in place. */
module SlotTables {
  import opened GraphTypes
  import opened CacheSpec

  datatype Slot = Slot(name: string, namespace_: string, readerLength: nat, writerLength: nat) {
    function Length(writer: bool): nat {
      if writer then writerLength else readerLength
    }

    function WithLength(writer: bool, n: nat): Slot {
      if writer then this.(writerLength := n) else this.(readerLength := n)
    }
  }

  const ZERO_SLOT := Slot("", "", 0, 0)
  const VACANT := NodeInfo("", "", [], [])

  function Row(a: array2<Guid>, i: nat, n: nat): (r: seq<Guid>)
    requires i < a.Length0 && n <= a.Length1
    reads a
    ensures |r| == n && forall k :: 0 <= k < n ==> r[k] == a[i, k]
  {
    seq(n, k requires 0 <= k < n && i < a.Length0 && n <= a.Length1 reads a => a[i, k])
  }

  class SlotTable {
    const limits: Limits
    const slots: array<Slot>
    const readers: array2<Guid>
    const writers: array2<Guid>

    ghost predicate Shape() {
      slots.Length == limits.maxNodes && readers != writers &&
      readers.Length0 == limits.maxNodes && readers.Length1 == limits.maxEndpointsPerNode &&
      writers.Length0 == limits.maxNodes && writers.Length1 == limits.maxEndpointsPerNode
    }

    /** The lengths stay within the rows, and the rows are cleared past them. */
    ghost predicate Valid()
      reads slots, readers, writers
    {
      Shape() &&
      (forall i :: 0 <= i < slots.Length ==>
        slots[i].readerLength <= limits.maxEndpointsPerNode && slots[i].writerLength <= limits.maxEndpointsPerNode) &&
      (forall i, k :: 0 <= i < slots.Length && slots[i].readerLength <= k < readers.Length1 ==> readers[i, k] == ZERO_GUID) &&
      (forall i, k :: 0 <= i < slots.Length && slots[i].writerLength <= k < writers.Length1 ==> writers[i, k] == ZERO_GUID)
    }

    function Info(i: nat): NodeInfo
      requires Valid() && i < slots.Length
      reads slots, readers, writers
    {
      NodeInfo(slots[i].name, slots[i].namespace_,
               Row(readers, i, slots[i].readerLength), Row(writers, i, slots[i].writerLength))
    }

    /** The contents of every slot, vacant ones included. */
    function Contents(): (r: seq<NodeInfo>)
      requires Valid()
      reads slots, readers, writers
      ensures |r| == limits.maxNodes
      ensures forall i :: 0 <= i < |r| ==> r[i] == Info(i)
    {
      seq(limits.maxNodes, i requires 0 <= i < limits.maxNodes && Valid() reads slots, readers, writers => Info(i))
    }

    constructor (limits: Limits)
      ensures Valid() && this.limits == limits && fresh(slots) && fresh(readers) && fresh(writers)
      ensures forall i :: 0 <= i < limits.maxNodes ==> Contents()[i] == VACANT
    {
      this.limits := limits;
      slots := new Slot[limits.maxNodes](_ => ZERO_SLOT);
      readers := new Guid[limits.maxNodes, limits.maxEndpointsPerNode]((_, _) => ZERO_GUID);
      writers := new Guid[limits.maxNodes, limits.maxEndpointsPerNode]((_, _) => ZERO_GUID);
    }

    function Matrix(writer: bool): array2<Guid> {
      if writer then writers else readers
    }

    /** How long the list of a slot is in one direction. */
    function Length(i: nat, writer: bool): (n: nat)
      requires Valid() && i < slots.Length
      reads slots, readers, writers
      ensures n == |Contents()[i].Gids(writer)| <= limits.maxEndpointsPerNode
    {
      slots[i].Length(writer)
    }

    /** The list of one slot in one direction. */
    function Gids(i: nat, writer: bool): seq<Guid>
      requires Valid() && i < slots.Length
      reads slots, readers, writers
    {
      Row(Matrix(writer), i, slots[i].Length(writer))
    }

    /** When the storage of every other slot is as before, only slot i of the contents changed. */
    twostate lemma OnlySlotChanged(i: nat)
      requires old(Valid()) && Valid() && i < slots.Length
      requires forall j :: 0 <= j < slots.Length && j != i ==> slots[j] == old(slots[j])
      requires forall j, k :: 0 <= j < slots.Length && j != i && 0 <= k < readers.Length1 ==>
        (readers[j, k] == old(readers[j, k]) && writers[j, k] == old(writers[j, k]))
      ensures Contents() == old(Contents())[i := Info(i)]
    {
      forall j | 0 <= j < slots.Length && j != i ensures Info(j) == old(Info(j)) {
        assert Row(readers, j, slots[j].readerLength) == old(Row(readers, j, slots[j].readerLength));
        assert Row(writers, j, slots[j].writerLength) == old(Row(writers, j, slots[j].writerLength));
      }
    }

    method Reset(i: nat)
      requires Valid() && i < slots.Length
      modifies slots, readers, writers
      ensures Valid() && Contents() == old(Contents())[i := VACANT]
      ensures slots[i] == ZERO_SLOT && forall j :: 0 <= j < slots.Length && j != i ==> slots[j] == old(slots[j])
      ensures forall j, k :: 0 <= j < slots.Length && j != i && 0 <= k < readers.Length1 ==>
        (readers[j, k] == old(readers[j, k]) && writers[j, k] == old(writers[j, k]))
    {
      slots[i] := ZERO_SLOT;
      forall k | 0 <= k < limits.maxEndpointsPerNode {
        readers[i, k] := ZERO_GUID;
      }
      forall k | 0 <= k < limits.maxEndpointsPerNode {
        writers[i, k] := ZERO_GUID;
      }
      OnlySlotChanged(i);
    }

    method SetNames(i: nat, name: string, namespace_: string)
      requires Valid() && i < slots.Length
      modifies slots
      ensures Valid() && Contents() == old(Contents())[i := old(Contents())[i].(name := name, namespace_ := namespace_)]
    {
      slots[i] := slots[i].(name := name, namespace_ := namespace_);
      OnlySlotChanged(i);
    }

    /** Copies a slot over another one: the destination is reset, then names, rows and lengths are copied. */
    method Copy(destination: nat, source: nat)
      requires Valid() && destination < slots.Length && source < slots.Length && destination != source
      modifies slots, readers, writers
      ensures Valid() && Contents() == old(Contents())[destination := old(Contents())[source]]
    {
      var from := slots[source];
      Reset(destination);
      CopyRow(readers, destination, source, from.readerLength);
      CopyRow(writers, destination, source, from.writerLength);
      slots[destination] := from;
      OnlySlotChanged(destination);
      assert Gids(destination, false) == old(Gids(source, false));
      assert Gids(destination, true) == old(Gids(source, true));
    }

    method CopyRow(a: array2<Guid>, destination: nat, source: nat, count: nat)
      requires destination < a.Length0 && source < a.Length0 && destination != source && count <= a.Length1
      modifies a
      ensures forall k :: 0 <= k < count ==> a[destination, k] == old(a[source, k])
      ensures forall i, k :: 0 <= i < a.Length0 && 0 <= k < a.Length1 && !(i == destination && k < count) ==> a[i, k] == old(a[i, k])
    {
      forall k | 0 <= k < count {
        a[destination, k] := a[source, k];
      }
    }

    method Append(i: nat, writer: bool, guid: Guid)
      requires Valid() && i < slots.Length && Length(i, writer) < limits.maxEndpointsPerNode
      modifies slots, Matrix(writer)
      ensures Valid()
      ensures var was := old(Contents())[i];
        Contents() == old(Contents())[i := was.WithGids(writer, was.Gids(writer) + [guid])]
    {
      hide Row, Contents;
      var length := slots[i].Length(writer);
      var a := Matrix(writer);
      a[i, length] := guid;
      slots[i] := slots[i].WithLength(writer, length + 1);
      assert Gids(i, writer) == old(Gids(i, writer)) + [guid];
      assert Gids(i, !writer) == old(Gids(i, !writer));
      OnlySlotChanged(i);
    }

    /** Takes back the last entry of a list and clears it. */
    method Unappend(i: nat, writer: bool)
      requires Valid() && i < slots.Length && 0 < Length(i, writer)
      modifies slots, Matrix(writer)
      ensures Valid()
      ensures var was := old(Contents())[i];
        Contents() == old(Contents())[i := was.WithGids(writer, was.Gids(writer)[..|was.Gids(writer)| - 1])]
    {
      hide Row, Contents;
      var length := slots[i].Length(writer);
      var a := Matrix(writer);
      slots[i] := slots[i].WithLength(writer, length - 1);
      a[i, length - 1] := ZERO_GUID;
      assert Gids(i, writer) == old(Gids(i, writer))[..length - 1];
      assert Gids(i, !writer) == old(Gids(i, !writer));
      OnlySlotChanged(i);
    }

    /** The index of the first entry equal to guid, or the length of the list. */
    method Find(i: nat, writer: bool, guid: Guid) returns (index: nat)
      requires Valid() && i < slots.Length
      ensures index == IndexOf(Contents()[i].Gids(writer), guid)
    {
      var a := Matrix(writer);
      index := 0;
      while index < slots[i].Length(writer) && a[i, index] != guid
        invariant index <= slots[i].Length(writer)
        invariant forall k :: 0 <= k < index ==> a[i, k] != guid
      {
        index := index + 1;
      }
      assert Gids(i, writer) == Contents()[i].Gids(writer);
    }

    /** Removes one entry of a list by shifting the later ones down and clearing the last place. */
    method RemoveGid(i: nat, writer: bool, index: nat)
      requires Valid() && i < slots.Length && index < Length(i, writer)
      modifies slots, Matrix(writer)
      ensures Valid()
      ensures var was := old(Contents())[i];
        Contents() == old(Contents())[i := was.WithGids(writer, RemoveAt(was.Gids(writer), index))]
    {
      hide Row, Contents;
      var length := slots[i].Length(writer);
      var a := Matrix(writer);
      CloseGap(a, i, index, length);
      slots[i] := slots[i].WithLength(writer, length - 1);
      assert Gids(i, writer) == RemoveAt(old(Gids(i, writer)), index);
      assert Gids(i, !writer) == old(Gids(i, !writer));
      OnlySlotChanged(i);
    }

    method CloseGap(a: array2<Guid>, i: nat, index: nat, length: nat)
      requires i < a.Length0 && index < length <= a.Length1
      modifies a
      ensures Row(a, i, length - 1) == RemoveAt(old(Row(a, i, length)), index)
      ensures a[i, length - 1] == ZERO_GUID
      ensures forall j, k :: 0 <= j < a.Length0 && 0 <= k < a.Length1 && (j != i || k >= length) ==> a[j, k] == old(a[j, k])
    {
      var k := index;
      while k + 1 < length
        invariant index <= k < length
        invariant forall m :: 0 <= m < k ==> a[i, m] == old(a[i, if m < index then m else m + 1])
        invariant forall m :: k < m < a.Length1 ==> a[i, m] == old(a[i, m])
        invariant forall j, m :: 0 <= j < a.Length0 && 0 <= m < a.Length1 && j != i ==> a[j, m] == old(a[j, m])
      {
        a[i, k] := a[i, k + 1];
        k := k + 1;
      }
      a[i, length - 1] := ZERO_GUID;
    }
  }
}
