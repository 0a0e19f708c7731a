/**
  Structs that the encoder accepts, and that decoding keeps so: every counter is within its array,
  every string is terminated inside its buffer, every byte array fits, every integer is in range.
 */
module GoodStructs {
  import opened Descriptors
  import opened EncoderSpec
  import opened Logical

  /**
    A good struct. The elements of arrays are good as far as a counter counts them; in a tidy
    struct they all are, also those of fixed-count arrays.
   */
  ghost predicate Good(fields: seq<Field>, cells: seq<Cell>, tidy: bool := false)
    decreases fields
  {
    && |cells| == SlotCount(fields)
    && forall i | 0 <= i < |fields| :: GoodCell(fields[i], CellAt(cells, Slot(fields, i)), tidy)
  }

  ghost predicate GoodCell(f: Field, c: Cell, tidy: bool := false)
    decreases f, 1
  {
    match f.htype
    case Required => c.One? && GoodValue(f, c.v, tidy)
    case Optional => (if f.sizeOffset != 0 then c.Opt? else c.One?) && GoodValue(f, c.v, tidy)
    case Repeated =>
      && (if f.sizeOffset != 0 then c.Arr? && GoodItems(f, c.items, c.count, tidy) else c.Fix?)
      && |c.items| == f.arraySize
      && (forall k | 0 <= k < |c.items| :: ValueShape(f, c.items[k]))
      && TidyItems(f, c.items, tidy)
    case Oneof => c.Union? && (Selected(f, c) ==> GoodValue(f, c.v, tidy))
  }

  ghost predicate GoodItems(f: Field, items: seq<Value>, n: nat, tidy: bool := false)
    decreases f, 0, 1
  {
    n <= f.arraySize && forall k | 0 <= k < n && k < |items| :: GoodValue(f, items[k], tidy)
  }

  ghost predicate TidyItems(f: Field, items: seq<Value>, tidy: bool)
    decreases f, 0, 1
  {
    tidy ==> forall k | 0 <= k < |items| :: GoodValue(f, items[k], true)
  }

  ghost predicate GoodValue(f: Field, v: Value, tidy: bool := false)
    decreases f, 0, 0
  {
    match f.ltype
    case LBytes => v.VBytes? && |v.data| + BYTES_HEADER <= f.dataSize
    case LString => v.VString? && |v.buf| == f.dataSize && StrLen(v.buf) < f.dataSize
    case LSubmessage => v.VMsg? && f.ptr.Sub? && Good(f.ptr.fields, v.cells, tidy)
    case _ => ValueShape(f, v)
  }

  /** The default values of the table are good. */
  ghost predicate GoodDefaults(fields: seq<Field>)
    decreases fields
  {
    forall i | 0 <= i < |fields| :: GoodDefault(fields[i])
  }

  ghost predicate GoodDefault(f: Field)
    decreases f
  {
    && (f.ptr.Sub? ==> GoodDefaults(f.ptr.fields))
    && (f.ptr.Default? ==> GoodValue(f, f.ptr.value))
  }
}
