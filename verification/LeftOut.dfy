/**
  What the encoder leaves out as default: singular values by their type, and submessages by what
  their own encoding would be.
 */
module LeftOut {
  import opened Wire
  import opened Descriptors
  import opened EncoderSpec

  /** The value of a singular field is zero, or empty. */
  predicate Empty(f: Field, v: Value) {
    match f.ltype
    case LBool => v == VBool(false)
    case LVarint | LUvarint | LSvarint | LFixed32 | LFixed64 => v == VNum(0)
    case LBytes => v == VBytes([])
    case LString => v.VString? && (v.buf == [] || v.buf[0] == 0)
    case LFixedBytes => v == VFixed([])
    case LSubmessage => v.VMsg? && f.ptr.Sub? && EmptyMessage(f.ptr.fields, v.cells)
  }

  /**
    A submessage whose encoding has no bytes. Two kinds of fields have no bytes and still make the
    code send it: a union whose which_ is no member's tag, and an array of fixed count zero.
   */
  predicate EmptyMessage(fields: seq<Field>, cells: seq<Cell>) {
    && EncMessage(fields, cells) == Some([])
    && forall i | 0 <= i < |fields| :: DefaultForm(fields[i], CellAt(cells, Slot(fields, i)))
  }

  predicate DefaultForm(f: Field, c: Cell) {
    && (f.htype == Oneof ==> c.Union? && c.which == 0)
    && (f.htype == Repeated ==> f.sizeOffset != 0)
  }

  lemma TagHasBytes(f: Field)
    ensures FieldTag(f) != []
  {
  }

  lemma SingleHasBytes(f: Field, v: Value)
    ensures EncSingle(f, v) != Some([])
  {
    hide EncValue, FieldTag;
    TagHasBytes(f);
  }

  lemma ArrayHasBytes(f: Field, items: seq<Value>, count: nat)
    ensures EncArray(f, items, count) == Some([]) <==> count == 0
  {
    hide EncValue, EncItems, FieldTag;
    if 0 < count <= f.arraySize && count <= |items| && !f.Packable() {
      TagHasBytes(f);
      assert items[..count] != [];
    }
  }

  /** A field is default if and only if it has no bytes, with the two exceptions. */
  lemma DefaultHasNoBytes(f: Field, c: Cell)
    requires CellShape(f, c) && f.tag != 0
    ensures IsDefault(f, c) <==> EncField(f, c) == Some([]) && DefaultForm(f, c)
  {
    hide ValueShape, EncSingle, EncArray, AllDefault;
    match f.htype {
      case Required => SingleHasBytes(f, c.v);
      case Optional => SingleHasBytes(f, c.v);
      case Repeated => ArrayHasBytes(f, c.items, if f.sizeOffset == 0 then f.arraySize else c.count);
      case Oneof =>
    }
  }

  lemma {:induction false} DefaultsHaveNoBytes(fields: seq<Field>, cells: seq<Cell>, i: nat)
    requires Shape(fields, cells) && forall k | i <= k < |fields| :: fields[k].tag != 0
    ensures AllDefault(fields, cells, i) <==>
      EncFields(fields, cells, i) == Some([]) &&
      forall k | i <= k < |fields| :: DefaultForm(fields[k], CellAt(cells, Slot(fields, k)))
    decreases |fields| - i
  {
    hide CellShape, IsDefault, EncField, DefaultForm, Slot;
    if i < |fields| {
      DefaultsHaveNoBytes(fields, cells, i + 1);
      DefaultHasNoBytes(fields[i], CellAt(cells, Slot(fields, i)));
      NoBytes(EncField(fields[i], CellAt(cells, Slot(fields, i))), EncFields(fields, cells, i + 1));
    }
  }

  lemma NoBytes(a: Option<seq<byte>>, b: Option<seq<byte>>)
    ensures Cat(a, b) == Some([]) <==> a == Some([]) && b == Some([])
  {
    if Cat(a, b).Some? {
      assert |a.value + b.value| == |a.value| + |b.value|;
    }
  }

  /** A submessage is left out exactly if it is empty. */
  lemma EmptySubmessage(fields: seq<Field>, cells: seq<Cell>)
    requires WellFormed(fields) && Shape(fields, cells)
    ensures AllDefault(fields, cells, 0) <==> EmptyMessage(fields, cells)
  {
    hide EncFields, AllDefault, DefaultForm, WellFormedField, CellShape;
    DefaultsHaveNoBytes(fields, cells, 0);
  }

  /** An optional field has no bytes exactly if its flag is clear or, without flag, its value is empty. */
  lemma LeftOutExactly(f: Field, c: Cell)
    requires WellFormedField(f) && CellShape(f, c) && f.htype == Optional
    ensures EncField(f, c) == Some([]) <==> if f.sizeOffset != 0 then !c.has else Empty(f, c.v)
  {
    hide EncSingle, AllDefault, EmptyMessage, Shape, WellFormed;
    SingleHasBytes(f, c.v);
    if f.ltype.LSubmessage? {
      EmptySubmessage(f.ptr.fields, c.v.cells);
    }
  }

  /** A member of a union has no bytes unless which_ is its tag, an array unless it has elements. */
  lemma UnionAndArrayLeftOut(f: Field, c: Cell)
    requires CellShape(f, c)
    ensures f.htype == Required ==> EncField(f, c) != Some([])
    ensures f.htype == Oneof ==> (EncField(f, c) == Some([]) <==> c.which != f.tag)
    ensures f.htype == Repeated ==>
      (EncField(f, c) == Some([]) <==> (if f.sizeOffset != 0 then c.count else f.arraySize) == 0)
  {
    hide ValueShape, EncSingle, EncArray;
    match f.htype {
      case Required => SingleHasBytes(f, c.v);
      case Optional =>
      case Repeated => ArrayHasBytes(f, c.items, if f.sizeOffset == 0 then f.arraySize else c.count);
      case Oneof => SingleHasBytes(f, c.v);
    }
  }
}
