/**
  Decoding keeps structs good, whatever bytes are decoded, and tidy structs tidy. Of the elements
  of fixed-count arrays, which may be old, the former says only their type; see Received for those
  that were received.
 */
module Invariant {
  import opened Words
  import opened Wire
  import opened WireProperties
  import opened Descriptors
  import opened EncoderSpec
  import opened DecoderSpec
  import opened Logical
  import opened Defaults
  import opened GoodStructs

  lemma {:induction false} GoodIsShape(fields: seq<Field>, cells: seq<Cell>, tidy: bool := false)
    requires Good(fields, cells, tidy)
    ensures Shape(fields, cells)
    decreases fields
  {
    forall i | 0 <= i < |fields|
      ensures CellShape(fields[i], CellAt(cells, Slot(fields, i)))
    {
      var f, c := fields[i], CellAt(cells, Slot(fields, i));
      if !f.htype.Repeated? && (f.htype.Oneof? ==> Selected(f, c)) {
        GoodValueShape(f, CellValue(c), tidy);
      }
    }
  }

  lemma {:induction false} GoodValueShape(f: Field, v: Value, tidy: bool := false)
    requires GoodValue(f, v, tidy)
    ensures ValueShape(f, v)
    decreases f
  {
    if f.ltype.LSubmessage? {
      GoodIsShape(f.ptr.fields, v.cells, tidy);
    }
  }

  // ---- Defaults are good ----

  lemma {:induction false} SetDefaultsGood(fields: seq<Field>, cells: seq<Cell>, tidy: bool := false)
    requires WellFormed(fields) && GoodDefaults(fields) && Shape(fields, cells)
    requires tidy ==> Good(fields, cells, true)
    ensures Good(fields, SetDefaults(fields, cells), tidy)
    decreases fields
  {
    forall i | 0 <= i < |fields|
      ensures GoodCell(fields[i], CellAt(SetDefaults(fields, cells), Slot(fields, i)), tidy)
    {
      SetDefaultsAt(fields, cells, 0, i);
      SetDefaultGood(fields[i], CellAt(cells, Slot(fields, i)), tidy);
    }
  }

  lemma {:induction false} SetDefaultGood(f: Field, c: Cell, tidy: bool := false)
    requires WellFormedField(f) && GoodDefault(f) && CellShape(f, c) && (tidy ==> GoodCell(f, c, true))
    ensures GoodCell(f, SetDefault(f, c), tidy)
    decreases f
  {
    if f.htype.Required? || f.htype.Optional? {
      if f.ltype.LSubmessage? {
        SetDefaultsGood(f.ptr.fields, c.v.cells, tidy);
      } else {
        ZeroValueGood(f, tidy);
      }
    } else if f.htype.Repeated? {
      ZeroStartShapes(f, c.items);
      ZeroStartTidy(f, c.items, tidy);
    }
  }

  lemma ZeroStartTidy(f: Field, items: seq<Value>, tidy: bool)
    requires TidyItems(f, items, tidy)
    ensures TidyItems(f, ZERO_START(f, items), tidy)
  {
    hide ValueShape, ZeroValue, GoodValue;
    ZeroStartKeeps(f, items);
  }

  /** A struct of zeros is tidy. */
  lemma {:induction false} ZeroTidy(fields: seq<Field>)
    requires WellFormed(fields)
    ensures Good(fields, ZeroCells(fields, |fields|), true)
    decreases fields
  {
    if |fields| > 0 {
      ZeroCellsAt(fields, |fields|, 0);
    }
    forall i | 0 <= i < |fields|
      ensures GoodCell(fields[i], CellAt(ZeroCells(fields, |fields|), Slot(fields, i)), true)
    {
      ZeroCellsAt(fields, |fields|, i);
      ZeroCellTidy(fields[i], CellAt(ZeroCells(fields, |fields|), Slot(fields, i)));
    }
  }

  lemma {:induction false} ZeroCellTidy(f: Field, c: Cell)
    requires WellFormedField(f) && if f.htype.Oneof? then c.Union? && c.which == 0 else c == ZeroCell(f)
    ensures GoodCell(f, c, true)
    decreases f, 1
  {
    hide ZeroValue, GoodValue, ValueShape, WellFormedField;
    ZeroIsTidy(f);
    assert f.htype.Oneof? ==> 1 <= f.tag by { TagPositive(f); }
  }

  lemma TagPositive(f: Field)
    requires WellFormedField(f)
    ensures 1 <= f.tag
  {
  }

  lemma {:induction false} ZeroIsTidy(f: Field)
    requires WellFormedField(f)
    ensures GoodValue(f, ZeroValue(f), true) && ValueShape(f, ZeroValue(f))
    decreases f, 0
  {
    ZeroValueShape(f);
    if f.ltype.LSubmessage? {
      ZeroTidy(f.ptr.fields);
    }
  }

  lemma ZeroValueGood(f: Field, tidy: bool := false)
    requires WellFormedField(f) && !f.ltype.LSubmessage?
    ensures GoodValue(f, ZeroValue(f), tidy)
  {
  }

  lemma FreshMessageGood(fields: seq<Field>, tidy: bool := false)
    requires WellFormed(fields) && GoodDefaults(fields)
    ensures Good(fields, FreshMessage(fields), tidy)
  {
    ZeroShape(fields);
    ZeroTidy(fields);
    SetDefaultsGood(fields, ZeroCells(fields, |fields|), tidy);
  }

  // ---- Decoded values are good ----

  lemma {:induction false} StrLenUpTo(data: seq<byte>, tail: seq<byte>)
    ensures StrLen(data + [0] + tail) <= |data|
    decreases |data|
  {
    var buf := data + [0] + tail;
    if data != [] && data[0] != 0 {
      assert buf[1..] == data[1..] + [0] + tail;
      StrLenUpTo(data[1..], tail);
    }
  }

  lemma WriteStringGood(prior: Value, data: seq<byte>, size: nat)
    requires |data| < size
    ensures var buf := WriteString(prior, data, size); |buf| == size && StrLen(buf) < size
  {
    var buf := WriteString(prior, data, size);
    StrLenUpTo(data, buf[|data| + 1..]);
    assert buf == data + [0] + buf[|data| + 1..];
  }

  lemma IntegerGood(f: Field, bs: seq<byte>, prior: Value, tidy: bool := false)
    requires WellFormedField(f) && f.Packable() && DecValue(f, bs, prior).Ok?
    ensures GoodValue(f, DecValue(f, bs, prior).val, tidy)
  {
    hide DecVarintFrom, DecVarint32, Signed, Unzigzag, DecSignedField, DecUnsignedField, DecZigzagField, Word32;
    if f.ltype.LFixed32? || f.ltype.LFixed64? {
      FixedGood(bs);
    } else if !f.ltype.LBool? {
      IntegerParsed(f.dataSize, bs);
      IntegerFieldsExact(f.dataSize, bs);
    }
  }

  lemma IntegerParsed(size: nat, bs: seq<byte>)
    requires DecSignedField(size, bs).Ok? || DecUnsignedField(size, bs).Ok? || DecZigzagField(size, bs).Ok?
    ensures DecVarint(bs).Ok?
  {
  }

  lemma Word32Bound(b0: byte, b1: byte, b2: byte, b3: byte)
    ensures Word32(b0, b1, b2, b3) < U32
  {
  }

  lemma FixedGood(bs: seq<byte>)
    ensures DecFixed32(bs).Ok? ==> DecFixed32(bs).val < U32
    ensures DecFixed64(bs).Ok? ==> DecFixed64(bs).val < U64
  {
    hide Word32;
    if |bs| >= 4 {
      Word32Bound(bs[0], bs[1], bs[2], bs[3]);
    }
    if |bs| >= 8 {
      Word32Bound(bs[4], bs[5], bs[6], bs[7]);
    }
  }

  lemma BufferGood(f: Field, bs: seq<byte>, prior: Value, tidy: bool := false)
    requires WellFormedField(f) && DecValue(f, bs, prior).Ok?
    requires f.ltype.LBytes? || f.ltype.LString? || f.ltype.LFixedBytes?
    ensures GoodValue(f, DecValue(f, bs, prior).val, tidy)
  {
    hide DecVarint32, WriteString;
    if f.ltype.LString? {
      var Ok(size, rest) := DecVarint32(bs);
      WriteStringGood(prior, rest[..size], f.dataSize);
    }
  }

  /** What the storage of a field must be like before the field is decoded into it */
  ghost predicate GoodTarget(f: Field, prior: Value, tidy: bool := false) {
    f.ltype.LSubmessage? ==>
      prior.VMsg? && f.ptr.Sub?
      && (if f.htype.Repeated? then Shape(f.ptr.fields, prior.cells) else Good(f.ptr.fields, prior.cells, tidy))
      && (tidy ==> Good(f.ptr.fields, prior.cells, true))
  }

  lemma {:induction false} DecValueGood(f: Field, bs: seq<byte>, prior: Value, tidy: bool := false)
    requires WellFormedField(f) && GoodDefault(f) && GoodTarget(f, prior, tidy)
    requires DecValue(f, bs, prior).Ok?
    ensures GoodValue(f, DecValue(f, bs, prior).val, tidy)
    decreases |bs|, 0
  {
    if f.ltype.LSubmessage? {
      hide DecString, DecMessage, Shape, Good, WellFormed, GoodDefaults;
      var sub := f.ptr.fields;
      var Ok(window, rest) := DecString(bs);
      if f.htype.Repeated? {
        SetDefaultsGood(sub, prior.cells, tidy);
        DecMessageGood(sub, window, SetDefaults(sub, prior.cells), tidy);
      } else {
        DecMessageGood(sub, window, prior.cells, tidy);
      }
    } else {
      hide DecValue, GoodValue, WellFormedField;
      if f.Packable() {
        IntegerGood(f, bs, prior, tidy);
      } else {
        BufferGood(f, bs, prior, tidy);
      }
    }
  }

  ghost predicate ItemShapes(f: Field, items: seq<Value>) {
    |items| == f.arraySize && forall k | 0 <= k < |items| :: ValueShape(f, items[k])
  }

  lemma {:induction false} StoreGood(f: Field, bs: seq<byte>, n: nat, items: seq<Value>, tidy: bool := false)
    requires WellFormedField(f) && GoodDefault(f) && f.htype.Repeated?
    requires ItemShapes(f, items) && TidyItems(f, items, tidy) && n < f.arraySize
    requires DecValue(f, bs, ItemAt(items, n)).Ok?
    ensures var items' := WithItem(items, n, DecValue(f, bs, ItemAt(items, n)).val);
      && ItemShapes(f, items') && TidyItems(f, items', tidy)
      && (GoodItems(f, items, n, tidy) ==> GoodItems(f, items', n + 1, tidy))
    decreases |bs|, 1
  {
    hide DecValue, ValueShape, GoodValue, WellFormedField, GoodDefault;
    assert GoodTarget(f, items[n], tidy) by { ItemTarget(f, items[n], tidy); }
    DecValueGood(f, bs, items[n], tidy);
    GoodValueShape(f, DecValue(f, bs, items[n]).val, tidy);
  }

  lemma ItemTarget(f: Field, v: Value, tidy: bool := false)
    requires f.htype.Repeated? && ValueShape(f, v) && (tidy ==> GoodValue(f, v, true))
    ensures GoodTarget(f, v, tidy)
  {
    hide Shape;
  }

  lemma {:induction false} DecItemsGood(f: Field, window: seq<byte>, n: nat, items: seq<Value>, tidy: bool := false)
    requires WellFormedField(f) && GoodDefault(f) && f.htype.Repeated?
    requires ItemShapes(f, items) && TidyItems(f, items, tidy) && DecItems(f, window, n, items).Ok?
    ensures var r := DecItems(f, window, n, items).val;
      ItemShapes(f, r.1) && TidyItems(f, r.1, tidy) && (GoodItems(f, items, n, tidy) ==> GoodItems(f, r.1, r.0, tidy))
    decreases |window|, 2
  {
    hide DecValue, ItemShapes, TidyItems, GoodItems, WellFormedField, GoodDefault;
    if window != [] {
      var Ok(v, rest) := DecValue(f, window, ItemAt(items, n));
      StoreGood(f, window, n, items, tidy);
      DecItemsGood(f, rest, n + 1, WithItem(items, n, v), tidy);
    }
  }

  lemma {:induction false} DecArrayGood(
    f: Field, wt: nat, bs: seq<byte>, n: nat, items: seq<Value>, tidy: bool := false)
    requires WellFormedField(f) && GoodDefault(f) && f.htype.Repeated?
    requires ItemShapes(f, items) && TidyItems(f, items, tidy) && DecArray(f, wt, bs, n, items).Ok?
    ensures var r := DecArray(f, wt, bs, n, items).val;
      ItemShapes(f, r.1) && TidyItems(f, r.1, tidy) && (GoodItems(f, items, n, tidy) ==> GoodItems(f, r.1, r.0, tidy))
    decreases |bs|, 3
  {
    hide DecValue, DecString, DecItems, ItemShapes, TidyItems, GoodItems, WellFormedField, GoodDefault;
    if wt == WT_STRING && f.Packable() {
      DecItemsGood(f, DecString(bs).val, n, items, tidy);
    } else {
      StoreGood(f, bs, n, items, tidy);
    }
  }

  lemma SingleTarget(f: Field, c: Cell, tidy: bool := false)
    requires WellFormedField(f) && GoodDefault(f) && GoodCell(f, c, tidy) && !f.htype.Repeated?
    ensures GoodTarget(f, if f.htype.Oneof? then OneofTarget(f, c) else CellValue(c), tidy)
  {
    hide Good;
    if f.htype.Oneof? && f.ltype.LSubmessage? {
      FreshMessageGood(f.ptr.fields, tidy);
    }
  }

  lemma {:induction false} DecCellGood(f: Field, wt: nat, bs: seq<byte>, c: Cell, fixedSize: nat, tidy: bool := false)
    requires WellFormedField(f) && GoodDefault(f) && GoodCell(f, c, tidy)
    requires DecCell(f, wt, bs, c, fixedSize).Ok?
    ensures var c' := DecCell(f, wt, bs, c, fixedSize).val.0;
      GoodCell(f, c', tidy) && (f.htype.Oneof? ==> Selected(f, c'))
    decreases |bs|, 4
  {
    hide DecValue, DecArray, OneofTarget, WellFormedField, GoodDefault, GoodValue, ValueShape, GoodItems;
    if f.htype.Repeated? {
      DecArrayGood(f, wt, bs, if f.sizeOffset == 0 then fixedSize else c.count, c.items, tidy);
    } else {
      SingleTarget(f, c, tidy);
      DecValueGood(f, bs, if f.htype.Oneof? then OneofTarget(f, c) else CellValue(c), tidy);
    }
  }

  lemma StoreCell(fields: seq<Field>, i: nat, cells: seq<Cell>, c: Cell, tidy: bool := false)
    requires UniqueTags(fields) && i < |fields| && Good(fields, cells, tidy) && GoodCell(fields[i], c, tidy)
    requires fields[i].htype.Oneof? ==> Selected(fields[i], c)
    ensures Good(fields, WithCell(cells, Slot(fields, i), c), tidy)
  {
    hide GoodCell, Slot, SlotCount;
    SlotInRange(fields, i);
    var cells' := WithCell(cells, Slot(fields, i), c);
    forall j | 0 <= j < |fields| && j != i
      ensures GoodCell(fields[j], CellAt(cells', Slot(fields, j)), tidy)
    {
      SlotInRange(fields, j);
      if Slot(fields, j) == Slot(fields, i) {
        SlotShared(fields, i, j);
        OtherMemberGood(fields[i], fields[j], c, tidy);
      }
    }
  }

  lemma OtherMemberGood(f: Field, g: Field, c: Cell, tidy: bool := false)
    requires f.htype.Oneof? && g.htype.Oneof? && f.tag != g.tag && Selected(f, c)
    ensures GoodCell(g, c, tidy)
  {
  }

  lemma TableAt(fields: seq<Field>, cells: seq<Cell>, i: nat, tidy: bool := false)
    requires WellFormed(fields) && GoodDefaults(fields) && Good(fields, cells, tidy) && i < |fields|
    ensures UniqueTags(fields) && WellFormedField(fields[i]) && GoodDefault(fields[i])
    ensures GoodCell(fields[i], CellAt(cells, Slot(fields, i)), tidy)
  {
  }

  lemma EmptyTableGood(cells: seq<Cell>, others: seq<Cell>, tidy: bool := false)
    requires Good([], cells, tidy) && |others| == |cells|
    ensures Good([], others, tidy)
  {
  }

  lemma {:induction false} DecFieldGood(
    fields: seq<Field>, wt: nat, tag: nat, bs: seq<byte>, st: State, tidy: bool := false)
    requires WellFormed(fields) && GoodDefaults(fields) && Good(fields, st.cells, tidy)
    requires DecField(fields, wt, tag, bs, st).Ok?
    ensures Good(fields, DecField(fields, wt, tag, bs, st).val.cells, tidy)
    decreases |bs|, 5
  {
    hide WellFormed, GoodDefaults, Good, DecCell, SkipField, Slot, Mark, WellFormedField, GoodDefault, GoodCell;
    if Lookup(fields, tag).Some? {
      var i := Lookup(fields, tag).value;
      if fields == [] {
        EmptyTableGood(st.cells, DecField(fields, wt, tag, bs, st).val.cells, tidy);
      } else {
        var st1 := Turn(fields, i, st).value;
        var c := CellAt(st.cells, Slot(fields, i));
        TableAt(fields, st.cells, i, tidy);
        DecCellGood(fields[i], wt, bs, c, st1.fixedSize, tidy);
        StoreCell(fields, i, st.cells, DecCell(fields[i], wt, bs, c, st1.fixedSize).val.0, tidy);
      }
    }
  }

  lemma {:induction false} DecFieldsGood(fields: seq<Field>, bs: seq<byte>, st: State, tidy: bool := false)
    requires WellFormed(fields) && GoodDefaults(fields) && Good(fields, st.cells, tidy) && DecFields(fields, bs, st).Ok?
    ensures Good(fields, DecFields(fields, bs, st).val.cells, tidy)
    decreases |bs|, 6
  {
    hide WellFormed, GoodDefaults, Good, DecField, DecTag;
    if bs != [] && DecTag(bs).Tag? {
      var Tag(wt, tag, rest) := DecTag(bs);
      DecFieldGood(fields, wt, tag, rest, st, tidy);
      var Ok(st', rest') := DecField(fields, wt, tag, rest, st);
      DecFieldsGood(fields, rest', st', tidy);
    }
  }

  /** pb_decode_noinit keeps the invariant, on every input it accepts. */
  lemma {:induction false} DecMessageGood(fields: seq<Field>, bs: seq<byte>, cells: seq<Cell>, tidy: bool := false)
    requires WellFormed(fields) && GoodDefaults(fields) && Good(fields, cells, tidy)
    requires DecMessage(fields, bs, cells).Ok?
    ensures Good(fields, DecMessage(fields, bs, cells).val, tidy)
    decreases |bs|, 7
  {
    hide WellFormed, GoodDefaults, Good, DecFields, FixedComplete, RequiredPresent;
    DecFieldsGood(fields, bs, Start(cells), tidy);
  }

  /** pb_decode establishes the invariant in any memory. */
  lemma DecodeGood(fields: seq<Field>, bs: seq<byte>, cells: seq<Cell>, tidy: bool := false)
    requires WellFormed(fields) && GoodDefaults(fields) && Shape(fields, cells) && Decode(fields, bs, cells).Ok?
    requires tidy ==> Good(fields, cells, true)
    ensures Good(fields, Decode(fields, bs, cells).val, tidy)
  {
    hide WellFormed, GoodDefaults, Good, DecMessage, Shape;
    SetDefaultsGood(fields, cells, tidy);
    DecMessageGood(fields, bs, SetDefaults(fields, cells), tidy);
  }
}
