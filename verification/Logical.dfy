/**
  The logical value of a struct: what a program reads out of it by the rules of the descriptors,
  leaving out bytes after a string's terminator, array entries past the counter, optional values
  whose flag is clear, and union contents that which_ does not select.
 */
module Logical {
  import opened Wire
  import opened Descriptors
  import opened EncoderSpec

  /** Both structs mean the same message. */
  ghost predicate SameMessage(fields: seq<Field>, a: seq<Cell>, b: seq<Cell>)
    decreases fields
  {
    forall i | 0 <= i < |fields| ::
      SameCell(fields[i], CellAt(a, Slot(fields, i)), CellAt(b, Slot(fields, i)))
  }

  ghost predicate SameCell(f: Field, a: Cell, b: Cell)
    decreases f, 1
  {
    match f.htype
    case Required => SameValue(f, CellValue(a), CellValue(b))
    case Optional =>
      if f.sizeOffset == 0 then SameValue(f, CellValue(a), CellValue(b))
      else a.Opt? && b.Opt? && a.has == b.has && (a.has ==> SameValue(f, a.v, b.v))
    case Repeated =>
      if f.sizeOffset != 0 then a.Arr? && b.Arr? && a.count == b.count && SameItems(f, a.items, b.items, a.count)
      else a.Fix? && b.Fix? && SameItems(f, a.items, b.items, f.arraySize)
    case Oneof => Selected(f, a) == Selected(f, b) && (Selected(f, a) ==> SameValue(f, a.v, b.v))
  }

  predicate Selected(f: Field, c: Cell) {
    c.Union? && c.which == f.tag
  }

  ghost predicate SameItems(f: Field, a: seq<Value>, b: seq<Value>, n: nat)
    decreases f, 0, 1
  {
    |a| == |b| && forall k | 0 <= k < n && k < |a| :: SameValue(f, a[k], b[k])
  }

  ghost predicate SameValue(f: Field, a: Value, b: Value)
    decreases f, 0, 0
  {
    match f.ltype
    case LString => CString(BytesOf(a)) == CString(BytesOf(b))
    case LSubmessage => f.ptr.Sub? && SameMessage(f.ptr.fields, CellsOf(a), CellsOf(b))
    case _ => a == b
  }

  function CString(buf: seq<byte>): seq<byte> {
    buf[..StrLen(buf)]
  }

  /** Every string that would be sent has its terminator inside the array. */
  ghost predicate Terminated(fields: seq<Field>, cells: seq<Cell>)
    decreases fields
  {
    forall i | 0 <= i < |fields| :: TerminatedCell(fields[i], CellAt(cells, Slot(fields, i)))
  }

  ghost predicate TerminatedCell(f: Field, c: Cell)
    decreases f, 1
  {
    match f.htype
    case Required => TerminatedValue(f, CellValue(c))
    case Optional => IsSent(f, c) ==> TerminatedValue(f, CellValue(c))
    case Repeated =>
      if c.Arr? then forall k | 0 <= k < c.count && k < |c.items| :: TerminatedValue(f, c.items[k])
      else if c.Fix? then forall k | 0 <= k < |c.items| :: TerminatedValue(f, c.items[k])
      else true
    case Oneof => Selected(f, c) ==> TerminatedValue(f, CellValue(c))
  }

  ghost predicate TerminatedValue(f: Field, v: Value)
    decreases f, 0
  {
    match f.ltype
    case LString => StrLen(BytesOf(v)) < f.dataSize
    case LSubmessage => f.ptr.Sub? ==> Terminated(f.ptr.fields, CellsOf(v))
    case _ => true
  }

  /** Every struct means the same as itself. */
  lemma {:induction false} SameReflexive(fields: seq<Field>, c: seq<Cell>)
    requires Shape(fields, c)
    ensures SameMessage(fields, c, c)
    decreases fields
  {
    forall i | 0 <= i < |fields|
      ensures SameCell(fields[i], CellAt(c, Slot(fields, i)), CellAt(c, Slot(fields, i)))
    {
      SameCellReflexive(fields[i], CellAt(c, Slot(fields, i)));
    }
  }

  lemma {:induction false} SameCellReflexive(f: Field, c: Cell)
    requires CellShape(f, c)
    ensures SameCell(f, c, c)
    decreases f, 1
  {
    hide ValueShape, SameValue;
    if f.htype.Repeated? {
      forall k | 0 <= k < |c.items|
        ensures SameValue(f, c.items[k], c.items[k])
      {
        SameValueReflexive(f, c.items[k]);
      }
    } else if f.htype.Oneof? ==> Selected(f, c) {
      SameValueReflexive(f, c.v);
    }
  }

  lemma {:induction false} SameValueReflexive(f: Field, v: Value)
    requires ValueShape(f, v)
    ensures SameValue(f, v, v)
    decreases f, 0
  {
    if f.ltype.LSubmessage? {
      SameReflexive(f.ptr.fields, v.cells);
    }
  }
}
