/**
  pb_common.c: the cyclic iterator over a field table that encoder and decoder share.
  Addresses are integers; the table is held without its terminating entry.
 */
module FieldIterator {
  import opened Wire
  import opened Descriptors

  /** Size of field f in the struct; data_size is that of one array entry. */
  function Footprint(f: Field): nat {
    if f.htype.Repeated? then f.dataSize * f.arraySize else f.dataSize
  }

  /** Where the data of field i lies in the struct: the sizes and gaps before it, summed up */
  function Offset(fields: seq<Field>, i: nat): nat {
    if i >= |fields| then 0
    else if i == 0 then fields[0].dataOffset
    else if SameUnion(fields[i - 1], fields[i]) then Offset(fields, i - 1)
    else Offset(fields, i - 1) + Footprint(fields[i - 1]) + fields[i].dataOffset
  }

  /** Where its has_, _count or which_ member lies; a union has one for all members. */
  function SizeAddress(fields: seq<Field>, i: nat): int {
    if i >= |fields| then 0
    else if i > 0 && SameUnion(fields[i - 1], fields[i]) then SizeAddress(fields, i - 1)
    else Offset(fields, i) + fields[i].sizeOffset
  }

  /**
    From one field to the next, in the terms of the descriptors: a further member of a union stays
    where it is; any other field, the first member of another union too, lies behind the one before.
   */
  lemma NextPlace(fields: seq<Field>, i: nat)
    requires i + 1 < |fields|
    ensures var a, b := fields[i], fields[i + 1];
      if a.htype == Oneof && b.htype == Oneof && b.dataOffset == PB_SIZE_MAX then
        && Slot(fields, i + 1) == Slot(fields, i)
        && Offset(fields, i + 1) == Offset(fields, i)
        && SizeAddress(fields, i + 1) == SizeAddress(fields, i)
      else
        && Slot(fields, i + 1) == Slot(fields, i) + 1
        && Offset(fields, i + 1) ==
             Offset(fields, i) + (if a.htype == Repeated then a.dataSize * a.arraySize else a.dataSize) + b.dataOffset
        && SizeAddress(fields, i + 1) == Offset(fields, i + 1) + b.sizeOffset
  {
  }

  /**
    No field lies on another one before it, unless they are members of one union: the data of field
    i, and the gap that the next one announces, end where field j begins, or before.
   */
  lemma {:induction false} LayoutDisjoint(fields: seq<Field>, i: nat, j: nat)
    requires i < j < |fields|
    requires !(fields[i].htype == Oneof && fields[i + 1].htype == Oneof && fields[i + 1].dataOffset == PB_SIZE_MAX)
    ensures var size := if fields[i].htype == Repeated then fields[i].dataSize * fields[i].arraySize else
        fields[i].dataSize;
      Offset(fields, i) + size + fields[i + 1].dataOffset <= Offset(fields, j)
    decreases j
  {
    NextPlace(fields, i);
    if i + 1 < j {
      LayoutDisjoint(fields, i, j - 1);
    }
  }

  /** Fields that share a cell of the model are at the same place in the struct. */
  lemma {:induction false} SharedCellSharedPlace(fields: seq<Field>, i: nat, j: nat)
    requires i < j < |fields| && Slot(fields, i) == Slot(fields, j)
    ensures Offset(fields, i) == Offset(fields, j) && SizeAddress(fields, i) == SizeAddress(fields, j)
    decreases j
  {
    SlotMonotone(fields, i, j);
    if i < j - 1 {
      SlotMonotone(fields, i, j - 1);
      SharedCellSharedPlace(fields, i, j - 1);
    }
  }

  /** Where pSize points: into the struct, or at the local counter of a fixed-count array */
  datatype SizeRef = At(address: int) | LocalCounter

  class FieldIter {
    const start: seq<Field>
    const destStruct: int
    var pos: nat
    var requiredFieldIndex: nat
    var pData: int
    var pSize: SizeRef

    ghost predicate Valid()
      reads this
    {
      && (forall i | 0 <= i < |start| :: start[i].tag != 0)
      && (if start == [] then pos == 0 else pos < |start|)
      && requiredFieldIndex == RequiredBefore(start, pos)
      && pData == destStruct + Offset(start, pos)
      && (pSize == At(destStruct + SizeAddress(start, pos)) || (pSize == LocalCounter && Current().FixedCount()))
    }

    /** The descriptor that pos points at */
    function Current(): Field
      reads this
    {
      FieldAt(start, pos)
    }

    /** pb_field_iter_begin; false for an empty message type */
    constructor (fields: seq<Field>, dest: int)
      requires forall i | 0 <= i < |fields| :: fields[i].tag != 0
      ensures Valid() && start == fields && destStruct == dest && pos == 0
      ensures pSize.At?
    {
      start := fields;
      destStruct := dest;
      pos := 0;
      requiredFieldIndex := 0;
      pData := dest + FieldAt(fields, 0).dataOffset;
      pSize := At(dest + FieldAt(fields, 0).dataOffset + FieldAt(fields, 0).sizeOffset);
    }

    /** pb_field_iter_begin, on an iterator that reached the end of the table */
    method Restart()
      requires forall i | 0 <= i < |start| :: start[i].tag != 0
      modifies this
      ensures Valid() && pos == 0 && pSize.At?
    {
      pos := 0;
      requiredFieldIndex := 0;
      pData := destStruct + Current().dataOffset;
      pSize := At(pData + Current().sizeOffset);
    }

    /** pb_field_iter_next; false when the iterator wraps to the first field */
    method Next() returns (more: bool)
      requires Valid()
      modifies this
      ensures Valid()
      ensures more == (old(pos) + 1 < |start|)
      ensures pos == if more then old(pos) + 1 else 0
      ensures start != [] ==> pSize.At?
      ensures start == [] ==> pSize == old(pSize)
      ensures more ==>
        var prev := old(Current());
        if prev.htype == Oneof && Current().htype == Oneof && Current().dataOffset == PB_SIZE_MAX then
          pData == old(pData) && pSize == old(pSize)
        else
          && pData == old(pData) + Current().dataOffset +
               (if prev.htype == Repeated then prev.dataSize * prev.arraySize else prev.dataSize)
          && pSize == At(pData + Current().sizeOffset)
    {
      var prev := Current();
      if prev.tag == 0 {
        return false;
      }
      pos := pos + 1;
      if Current().tag == 0 {
        Restart();
        return false;
      }
      var prevSize := prev.dataSize;
      if prev.htype.Oneof? && Current().htype.Oneof? && Current().dataOffset == PB_SIZE_MAX {
        return true;
      } else if prev.htype.Repeated? {
        prevSize := prevSize * prev.arraySize;
      }
      if prev.htype.Required? {
        requiredFieldIndex := requiredFieldIndex + 1;
      }
      pData := pData + prevSize + Current().dataOffset;
      pSize := At(pData + Current().sizeOffset);
      return true;
    }

    /**
      pb_field_iter_find: from any position, at most one cycle. Found exactly if some field has
      the tag; if not, the iterator is back where it was.
     */
    method Find(tag: nat) returns (found: bool, ghost steps: nat)
      requires Valid()
      modifies this
      ensures Valid() && steps <= if start == [] then 1 else |start|
      ensures start != [] ==> (found <==> exists i | 0 <= i < |start| :: start[i].tag == tag)
      ensures start == [] ==> (found <==> tag == 0)
      ensures found ==> Current().tag == tag
      ensures !found ==> pos == old(pos)
      ensures start != [] && UniqueTags(start) ==> (found <==> Lookup(start, tag).Some?)
      ensures found && UniqueTags(start) ==> Lookup(start, tag) == Some(pos)
      ensures pSize == LocalCounter ==> old(pSize) == LocalCounter && pos == old(pos)
    {
      steps := 0;
      var first := pos;
      while true
        invariant Valid() && first == old(pos)
        invariant if start == [] then pos == 0 && steps == 0 else
          steps == (if pos >= first then pos - first else |start| - first + pos) < |start|
        invariant forall i | 0 <= i < |start| && Passed(first, i) :: start[i].tag != tag
        invariant pSize == LocalCounter ==> old(pSize) == LocalCounter && pos == first
        decreases |start| - steps
      {
        if Current().tag == tag {
          return true, steps;
        }
        var _ := Next();
        steps := steps + 1;
        if pos == first {
          return false, steps;
        }
      }
    }

    /** Field i has been passed on the way from position first. */
    ghost predicate Passed(first: nat, i: nat)
      reads this
    {
      if pos >= first then first <= i < pos else first <= i || i < pos
    }
  }
}
