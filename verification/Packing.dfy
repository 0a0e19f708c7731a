/**
  A packed array and the same elements in fields of their own are received alike.
 */
module Packing {
  import opened Words
  import opened Wire
  import opened WireProperties
  import opened Descriptors
  import opened EncoderSpec
  import opened DecoderSpec
  import opened RoundTrip

  function StoreAll(items: seq<Value>, n: nat, values: seq<Value>): seq<Value>
    decreases |values|
  {
    if values == [] then items else StoreAll(WithItem(items, n, values[0]), n + 1, values[1..])
  }

  predicate FitsBehind(f: Field, n: nat, values: seq<Value>) {
    values == [] || n + |values| <= f.arraySize
  }

  ghost predicate Elements(f: Field, values: seq<Value>) {
    WellFormedField(f) && f.Packable() && forall k | 0 <= k < |values| :: ValueShape(f, values[k])
  }

  lemma ElementsTail(f: Field, values: seq<Value>)
    requires Elements(f, values) && values != []
    ensures WellFormedField(f) && ValueShape(f, values[0]) && Elements(f, values[1..]) && f.Packable()
  {
    hide ValueShape, WellFormedField;
  }

  lemma PackedOverflow(f: Field, b: seq<byte>, more: seq<byte>, n: nat, prior: seq<Value>)
    requires b != [] && n >= f.arraySize
    ensures DecItems(f, b + more, n, prior).Bad?
  {
  }

  lemma EncItemsStep(f: Field, values: seq<Value>)
    requires values != [] && EncItems(f, values[1..]).Some? && EncValue(f, values[0]).Some?
    ensures EncItems(f, values) == Some(EncValue(f, values[0]).value + EncItems(f, values[1..]).value)
  {
    hide EncValue;
  }

  lemma FitsTail(f: Field, n: nat, values: seq<Value>)
    requires values != []
    ensures FitsBehind(f, n, values) <==> n < f.arraySize && FitsBehind(f, n + 1, values[1..])
  {
  }

  lemma StoreAllStep(items: seq<Value>, n: nat, values: seq<Value>)
    requires values != []
    ensures StoreAll(items, n, values) == StoreAll(WithItem(items, n, values[0]), n + 1, values[1..])
  {
  }

  lemma NothingPackedExact(f: Field, n: nat, prior: seq<Value>)
    ensures EncItems(f, []) == Some([]) && DecItems(f, [], n, prior) == Ok((n, prior), [])
    ensures FitsBehind(f, n, []) && StoreAll(prior, n, []) == prior
  {
  }

  lemma NothingTaggedExact(f: Field, n: nat, prior: seq<Value>, y: seq<byte>)
    ensures EncTagged(f, []) == Some([]) && [] + y == y
    ensures FitsBehind(f, n, []) && StoreAll(prior, n, []) == prior
  {
  }

  /** A packed block fills the array from position n on, or is refused if it does not fit. */
  lemma {:induction false} PackedExact(f: Field, values: seq<Value>, n: nat, prior: seq<Value>)
    requires Elements(f, values)
    ensures EncItems(f, values).Some?
    ensures DecItems(f, EncItems(f, values).value, n, prior) ==
            if FitsBehind(f, n, values) then Ok((n + |values|, StoreAll(prior, n, values)), []) else Bad
    decreases |values|
  {
    hide *;
    if values == [] {
      NothingPackedExact(f, n, prior);
    } else {
      PackedExactStep(f, values, n, prior);
    }
  }

  lemma {:induction false} PackedExactStep(f: Field, values: seq<Value>, n: nat, prior: seq<Value>)
    requires Elements(f, values) && values != []
    ensures EncItems(f, values).Some?
    ensures DecItems(f, EncItems(f, values).value, n, prior) ==
            if FitsBehind(f, n, values) then Ok((n + |values|, StoreAll(prior, n, values)), []) else Bad
    decreases |values|, 0
  {
    hide *;
    var v := values[0];
    ElementsTail(f, values);
    PackedExact(f, values[1..], n + 1, WithItem(prior, n, v));
    var more := EncItems(f, values[1..]).value;
    NumberRoundTrip(f, v, more, ItemAt(prior, n));
    EncItemsStep(f, values);
    EncValueNonEmpty(f, v);
    FitsTail(f, n, values);
    StoreAllStep(prior, n, values);
    if n < f.arraySize {
      PackedStep(f, values, n, prior);
    } else {
      PackedOverflow(f, EncValue(f, v).value, more, n, prior);
    }
  }

  lemma DecNumber(f: Field, w: seq<byte>, n: nat, prior: seq<Value>, v: Value, y: seq<byte>)
    requires f.Packable() && DecValue(f, w, ItemAt(prior, n)) == Ok(v, y)
    ensures DecArray(f, WireType(f.ltype), w, n, prior) ==
            if n < f.arraySize then Ok((n + 1, WithItem(prior, n, v)), y) else Bad
  {
    hide DecValue;
  }

  /** So do tagged elements. */
  lemma {:induction false} TaggedExact(
    fields: seq<Field>, i: nat, values: seq<Value>, n: nat, prior: seq<Value>, st: State, y: seq<byte>)
    requires WellFormed(fields) && i < |fields| && |st.cells| == SlotCount(fields)
    requires fields[i].htype.Repeated? && Elements(fields[i], values)
    ensures EncTagged(fields[i], values).Some?
    ensures DecFields(fields, EncTagged(fields[i], values).value + y, Hold(fields, i, st, n, prior)) ==
            if FitsBehind(fields[i], n, values)
            then DecFields(fields, y, Hold(fields, i, st, n + |values|, StoreAll(prior, n, values)))
            else Bad
    decreases |values|
  {
    hide *;
    if values == [] {
      NothingTaggedExact(fields[i], n, prior, y);
    } else {
      TaggedExactStep(fields, i, values, n, prior, st, y);
    }
  }

  lemma EncTaggedSome(f: Field, values: seq<Value>)
    requires values != [] && EncValue(f, values[0]).Some? && EncTagged(f, values[1..]).Some?
    ensures EncTagged(f, values).Some?
  {
  }

  lemma {:induction false} TaggedExactStep(
    fields: seq<Field>, i: nat, values: seq<Value>, n: nat, prior: seq<Value>, st: State, y: seq<byte>)
    requires WellFormed(fields) && i < |fields| && |st.cells| == SlotCount(fields)
    requires fields[i].htype.Repeated? && Elements(fields[i], values) && values != []
    ensures EncTagged(fields[i], values).Some?
    ensures DecFields(fields, EncTagged(fields[i], values).value + y, Hold(fields, i, st, n, prior)) ==
            if FitsBehind(fields[i], n, values)
            then DecFields(fields, y, Hold(fields, i, st, n + |values|, StoreAll(prior, n, values)))
            else Bad
    decreases |values|, 0
  {
    hide *;
    var f, v := fields[i], values[0];
    TableFacts(fields, i);
    ElementsTail(f, values);
    TaggedExact(fields, i, values[1..], n + 1, WithItem(prior, n, v), st, y);
    var more := EncTagged(f, values[1..]).value + y;
    NumberRoundTrip(f, v, more, ItemAt(prior, n));
    EncTaggedSome(f, values);
    TaggedBytes(f, values, y);
    var w := EncValue(f, v).value + more;
    FieldTagIs(f);
    ArrayRecord(fields, i, WireType(f.ltype), w, st, n, prior);
    DecNumber(f, w, n, prior, v, more);
    FitsTail(f, n, values);
    StoreAllStep(prior, n, values);
  }

  lemma PackedAsRecord(
    fields: seq<Field>, i: nat, values: seq<Value>, n: nat, prior: seq<Value>, st: State, y: seq<byte>)
    requires WellFormed(fields) && i < |fields| && |st.cells| == SlotCount(fields)
    requires fields[i].htype.Repeated? && Elements(fields[i], values)
    requires EncPacked(fields[i], values).Some? ==> |EncPacked(fields[i], values).value| < U32
    ensures EncPacked(fields[i], values).Some?
    ensures DecFields(fields, EncPacked(fields[i], values).value + y, Hold(fields, i, st, n, prior)) ==
            if FitsBehind(fields[i], n, values)
            then DecFields(fields, y, Hold(fields, i, st, n + |values|, StoreAll(prior, n, values)))
            else Bad
  {
    hide *;
    var f := fields[i];
    TableFacts(fields, i);
    PackedExact(f, values, n, prior);
    var w := EncItems(f, values).value;
    PackedBytes(f, values, y);
    ArrayRecord(fields, i, WT_STRING, EncString(w) + y, st, n, prior);
    ElementsPackable(f, values);
    DecPackedBlock(f, w, y, n, prior);
  }

  lemma ElementsPackable(f: Field, values: seq<Value>)
    requires Elements(f, values)
    ensures f.Packable()
  {
  }

  /** The array of field i holds n elements, and is the one being received if it has no counter. */
  predicate Receiving(fields: seq<Field>, i: nat, st: State, n: nat, items: seq<Value>) {
    var c := CellAt(st.cells, Slot(fields, i));
    if FieldAt(fields, i).sizeOffset != 0 then c == Arr(n, items)
    else c == Fix(items) && st.fixedField == Some(i) && st.fixedSize == n
  }

  lemma ReceivingHolds(fields: seq<Field>, i: nat, st: State, n: nat, items: seq<Value>)
    requires i < |fields| && |st.cells| == SlotCount(fields) && Receiving(fields, i, st, n, items)
    ensures Hold(fields, i, st, n, items) == st
  {
    SlotInRange(fields, i);
    assert WithCell(st.cells, Slot(fields, i), CellAt(st.cells, Slot(fields, i))) == st.cells;
  }

  /** The first record turns the decoder to the field, or is refused. */
  lemma TurnFirst(fields: seq<Field>, i: nat, wt: nat, w: seq<byte>, st: State)
    requires UniqueTags(fields) && i < |fields| && wt < 8
    ensures var turned := Turn(fields, i, st);
      DecFields(fields, EncTag(wt, fields[i].tag) + w, st) ==
      if turned.None? then Bad else DecFields(fields, EncTag(wt, fields[i].tag) + w, turned.value)
  {
    hide DecFields, EncTag, DecCell, Slot, Mark, UniqueTags, FixedComplete;
    RecordStep(fields, i, wt, w, st);
    var turned := Turn(fields, i, st);
    if turned.Some? {
      RecordStep(fields, i, wt, w, turned.value);
      assert Turn(fields, i, turned.value) == turned;
      assert DecKnown(fields, i, wt, w, turned.value) == DecKnown(fields, i, wt, w, st);
    } else {
      assert DecKnown(fields, i, wt, w, st).Bad?;
    }
  }

  lemma TurnReceives(fields: seq<Field>, i: nat, st: State) returns (n: nat, items: seq<Value>)
    requires i < |fields| && fields[i].htype.Repeated? && Turn(fields, i, st).Some?
    requires var c := CellAt(st.cells, Slot(fields, i)); if fields[i].sizeOffset != 0 then c.Arr? else c.Fix?
    ensures var st1 := Turn(fields, i, st).value;
      Receiving(fields, i, st1, n, items) && |st1.cells| == |st.cells|
  {
    hide Slot, FixedComplete;
    var c := CellAt(st.cells, Slot(fields, i));
    n := if fields[i].sizeOffset != 0 then c.count else Turn(fields, i, st).value.fixedSize;
    items := c.items;
  }

  lemma AlikeOnceTurned(fields: seq<Field>, i: nat, values: seq<Value>, st: State, y: seq<byte>)
    requires WellFormed(fields) && i < |fields| && |st.cells| == SlotCount(fields)
    requires fields[i].htype.Repeated? && Elements(fields[i], values)
    requires var c := CellAt(st.cells, Slot(fields, i)); if fields[i].sizeOffset != 0 then c.Arr? else c.Fix?
    requires Turn(fields, i, st) == Some(st)
    requires EncPacked(fields[i], values).Some? ==> |EncPacked(fields[i], values).value| < U32
    ensures EncPacked(fields[i], values).Some? && EncTagged(fields[i], values).Some?
    ensures DecFields(fields, EncPacked(fields[i], values).value + y, st) ==
            DecFields(fields, EncTagged(fields[i], values).value + y, st)
  {
    hide *;
    var n, items := TurnReceives(fields, i, st);
    ReceivingHolds(fields, i, st, n, items);
    PackedAsRecord(fields, i, values, n, items, st, y);
    TaggedExact(fields, i, values, n, items, st, y);
  }

  lemma TurnTwice(fields: seq<Field>, i: nat, st: State)
    requires Turn(fields, i, st).Some?
    ensures var st1 := Turn(fields, i, st).value; Turn(fields, i, st1) == Some(st1) && st1.cells == st.cells
  {
    hide FixedComplete;
  }

  lemma NothingToTurn(fields: seq<Field>, i: nat, st: State)
    requires i < |fields| && (fields[i].FixedCount() ==> st.fixedField == Some(i))
    ensures Turn(fields, i, st) == Some(st)
  {
  }

  /** Both forms of some elements start with a tag of the array's field. */
  lemma BothStartWithTag(fields: seq<Field>, i: nat, values: seq<Value>, y: seq<byte>)
    returns (packed: seq<byte>, wt: nat, tagged: seq<byte>)
    requires WellFormed(fields) && i < |fields| && Elements(fields[i], values) && values != []
    requires EncPacked(fields[i], values).Some? && EncTagged(fields[i], values).Some?
    ensures EncPacked(fields[i], values).value + y == EncTag(WT_STRING, fields[i].tag) + packed
    ensures wt < 8 && EncTagged(fields[i], values).value + y == EncTag(wt, fields[i].tag) + tagged
  {
    hide *;
    var f := fields[i];
    PackedParts(f, values);
    PackedBytes(f, values, y);
    packed := EncString(EncItems(f, values).value) + y;
    TaggedBytes(f, values, y);
    TaggedParts(f, values);
    FieldTagIs(f);
    TableFacts(fields, i);
    wt, tagged := WireType(f.ltype), EncValue(f, values[0]).value + (EncTagged(f, values[1..]).value + y);
  }

  lemma PackedParts(f: Field, values: seq<Value>)
    requires EncPacked(f, values).Some?
    ensures EncItems(f, values).Some?
  {
    hide EncItems;
  }

  lemma TaggedParts(f: Field, values: seq<Value>)
    requires EncTagged(f, values).Some? && values != []
    ensures EncValue(f, values[0]).Some? && EncTagged(f, values[1..]).Some?
  {
    hide EncValue;
  }

  /**
    Packed and unpacked arrays decode alike: from any state, whatever elements are there already
    and whatever bytes follow, both forms give the same verdict and the same struct. The one
    exception is an empty block, which turns the decoder to a fixed-count array as no elements do.
   */
  lemma PackedUnpackedAlike(fields: seq<Field>, i: nat, values: seq<Value>, st: State, y: seq<byte>)
    requires WellFormed(fields) && i < |fields| && |st.cells| == SlotCount(fields)
    requires fields[i].htype.Repeated? && Elements(fields[i], values)
    requires var c := CellAt(st.cells, Slot(fields, i)); if fields[i].sizeOffset != 0 then c.Arr? else c.Fix?
    requires values != [] || !fields[i].FixedCount() || st.fixedField == Some(i)
    requires EncPacked(fields[i], values).Some? ==> |EncPacked(fields[i], values).value| < U32
    ensures EncPacked(fields[i], values).Some? && EncTagged(fields[i], values).Some?
    ensures DecFields(fields, EncPacked(fields[i], values).value + y, st) ==
            DecFields(fields, EncTagged(fields[i], values).value + y, st)
  {
    hide *;
    if values == [] {
      NothingToTurn(fields, i, st);
      AlikeOnceTurned(fields, i, values, st, y);
    } else {
      ElementsEncode(fields[i], values);
      var packed, wt, tagged := BothStartWithTag(fields, i, values, y);
      TableFacts(fields, i);
      TurnFirst(fields, i, WT_STRING, packed, st);
      TurnFirst(fields, i, wt, tagged, st);
      if Turn(fields, i, st).Some? {
        TurnTwice(fields, i, st);
        AlikeOnceTurned(fields, i, values, Turn(fields, i, st).value, y);
      }
    }
  }

  /**
    The exception: an empty block for a fixed-count array that is not being received leaves the
    message incomplete, although no elements in fields of their own leave it as it is.
   */
  lemma EmptyBlockTurns(fields: seq<Field>, i: nat, st: State)
    requires WellFormed(fields) && i < |fields| && fields[i].FixedCount() && fields[i].Packable()
    requires fields[i].arraySize > 0 && st.fixedField != Some(i) && FixedComplete(fields, st)
    ensures EncPacked(fields[i], []).Some? && EncTagged(fields[i], []) == Some([])
    ensures var r := DecFields(fields, EncPacked(fields[i], []).value, st);
      r.Ok? && !FixedComplete(fields, r.val)
  {
    hide DecFields, EncTag, DecString, DecTag, Slot, WellFormed, EncVarint;
    var f := fields[i];
    TableFacts(fields, i);
    EmptyBlock(f);
    RecordStep(fields, i, WT_STRING, EncString([]), st);
    assert DecArray(f, WT_STRING, EncString([]), 0, CellItems(CellAt(st.cells, Slot(fields, i)))).Ok?;
    assert DecKnown(fields, i, WT_STRING, EncString([]), st).Ok?;
    var st1 := DecKnown(fields, i, WT_STRING, EncString([]), st).val;
    assert st1.fixedField == Some(i) && st1.fixedSize == 0;
    NothingLeft(fields, st1, []);
  }

  lemma EmptyBlock(f: Field)
    ensures EncPacked(f, []) == Some(EncTag(WT_STRING, f.tag) + EncString([]))
    ensures DecString(EncString([])) == Ok([], [])
  {
    hide EncTag, DecString;
    StringRoundTrip([], []);
    assert EncString([]) + [] == EncString([]);
  }

  lemma {:induction false} ElementsEncode(f: Field, values: seq<Value>)
    requires Elements(f, values)
    ensures EncPacked(f, values).Some? && EncTagged(f, values).Some?
    decreases |values|
  {
    hide EncValue, ValueShape, WellFormedField, EncTag;
    PackedExact(f, values, 0, []);
    if values != [] {
      ElementsTail(f, values);
      ElementsEncode(f, values[1..]);
      NumberRoundTrip(f, values[0], [], BLANK);
    }
  }
}
