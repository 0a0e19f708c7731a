/**
  Which fields share a place, in the terms of their descriptors, and what decoding leaves alone: a
  field is touched by its own records, and a union by those of its members.
 */
module Places {
  import opened Wire
  import opened Descriptors
  import opened DecoderSpec
  import opened FieldIterator
  import opened RequiredFields

  /** Field k is a further member of the union before it. */
  predicate Joins(fields: seq<Field>, k: nat) {
    0 < k < |fields| &&
    fields[k - 1].htype == Oneof && fields[k].htype == Oneof && fields[k].dataOffset == PB_SIZE_MAX
  }

  /** Every field behind the one, up to the other, is a further member of its union. */
  ghost predicate OneUnion(fields: seq<Field>, i: nat, j: nat) {
    forall k: nat | i < k <= j || j < k <= i :: Joins(fields, k)
  }

  lemma {:induction false} BelowOneUnion(fields: seq<Field>, i: nat, j: nat)
    requires i <= j < |fields|
    ensures Slot(fields, i) == Slot(fields, j) <==> OneUnion(fields, i, j)
    decreases j
  {
    if i < j {
      NextPlace(fields, j - 1);
      BelowOneUnion(fields, i, j - 1);
      if i < j - 1 {
        SlotMonotone(fields, i, j - 1);
      }
      assert OneUnion(fields, i, j) ==> OneUnion(fields, i, j - 1) && Joins(fields, j);
    }
  }

  /** Two fields share a cell if and only if no other field or union begins between them. */
  lemma CellsByOffset(fields: seq<Field>, i: nat, j: nat)
    requires i < |fields| && j < |fields|
    ensures Slot(fields, i) == Slot(fields, j) <==> OneUnion(fields, i, j)
  {
    hide Slot;
    if i <= j {
      BelowOneUnion(fields, i, j);
    } else {
      BelowOneUnion(fields, j, i);
      assert OneUnion(fields, i, j) <==> OneUnion(fields, j, i);
    }
  }

  /** A record of another field, also of another union, leaves the cell of field i alone. */
  lemma OthersKept(fields: seq<Field>, i: nat, j: nat, wt: nat, bs: seq<byte>, st: State)
    requires i < |fields| && j < |fields| && !OneUnion(fields, i, j) && DecKnown(fields, j, wt, bs, st).Ok?
    ensures CellAt(DecKnown(fields, j, wt, bs, st).val.cells, Slot(fields, i)) == CellAt(st.cells, Slot(fields, i))
  {
    hide DecCell, Slot, RequiredBefore, OneUnion;
    CellsByOffset(fields, i, j);
  }

  /** So does a whole input without a record of its own, or of its union. */
  lemma {:induction false} UnmetKept(fields: seq<Field>, bs: seq<byte>, st: State, i: nat)
    requires i < |fields| && DecFields(fields, bs, st).Ok?
    requires forall m | m in Met(fields, bs, st) :: !OneUnion(fields, i, m)
    ensures CellAt(DecFields(fields, bs, st).val.cells, Slot(fields, i)) == CellAt(st.cells, Slot(fields, i))
    decreases |bs|
  {
    hide DecTag, DecKnown, SkipField, Slot, OneUnion;
    if bs != [] && DecTag(bs).Tag? {
      var Tag(wt, tag, rest) := DecTag(bs);
      var j := Lookup(fields, tag);
      var Ok(st', rest') := DecField(fields, wt, tag, rest, st);
      assert Met(fields, bs, st) == (if j.Some? then {j.value} else {}) + Met(fields, rest', st');
      if j.Some? {
        OthersKept(fields, i, j.value, wt, rest, st);
      }
      UnmetKept(fields, rest', st', i);
    }
  }
}
