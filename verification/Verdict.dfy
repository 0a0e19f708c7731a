/**
  The verdict of the decoder, the bytes it uses and the counters it keeps depend on the input
  alone, not on what the struct held before it was set to defaults.
 */
module Verdict {
  import opened Wire
  import opened Descriptors
  import opened DecoderSpec
  import opened Logical
  import opened Defaults
  import opened GoodStructs
  import opened Invariant

  /** The same verdict and the same bytes left */
  ghost predicate Agree<S(!new), T(!new)>(p: Parsed<S>, q: Parsed<T>) {
    p.Ok? == q.Ok? && (p.Ok? ==> p.rest == q.rest)
  }

  /** A nested message that is set to defaults with the message around it, and merged into */
  predicate Nested(f: Field) {
    f.ltype.LSubmessage? && (f.htype.Required? || f.htype.Optional?)
  }

  /** All counters are the same, except in arrays and unions, which begin anew. */
  ghost predicate SameCounts(fields: seq<Field>, a: seq<Cell>, b: seq<Cell>)
    decreases fields
  {
    forall i | 0 <= i < |fields| ::
      SameCount(fields[i], CellAt(a, Slot(fields, i)), CellAt(b, Slot(fields, i)))
  }

  ghost predicate SameCount(f: Field, c: Cell, d: Cell)
    decreases f
  {
    && (f.htype.Repeated? && f.sizeOffset != 0 ==> c.Arr? && d.Arr? && c.count == d.count)
    && (Nested(f) && f.ptr.Sub? ==> SameCounts(f.ptr.fields, CellsOf(CellValue(c)), CellsOf(CellValue(d))))
  }

  lemma {:induction false} SetDefaultsCounts(fields: seq<Field>, a: seq<Cell>, b: seq<Cell>)
    requires WellFormed(fields) && Shape(fields, a) && Shape(fields, b)
    ensures SameCounts(fields, SetDefaults(fields, a), SetDefaults(fields, b))
    decreases fields
  {
    forall i | 0 <= i < |fields|
      ensures SameCount(fields[i],
        CellAt(SetDefaults(fields, a), Slot(fields, i)), CellAt(SetDefaults(fields, b), Slot(fields, i)))
    {
      SetDefaultsAt(fields, a, 0, i);
      SetDefaultsAt(fields, b, 0, i);
      SetDefaultCount(fields[i], CellAt(a, Slot(fields, i)), CellAt(b, Slot(fields, i)));
    }
  }

  lemma {:induction false} SetDefaultCount(f: Field, c: Cell, d: Cell)
    requires WellFormedField(f) && CellShape(f, c) && CellShape(f, d)
    ensures SameCount(f, SetDefault(f, c), SetDefault(f, d))
    decreases f
  {
    if Nested(f) {
      SetDefaultsCounts(f.ptr.fields, c.v.cells, d.v.cells);
    }
  }

  lemma ScalarVerdict(f: Field, bs: seq<byte>, p: Value, q: Value)
    requires !f.ltype.LSubmessage?
    ensures Agree(DecValue(f, bs, p), DecValue(f, bs, q))
  {
    hide DecVarint32, DecSignedField, DecUnsignedField, DecZigzagField, DecFixed32, DecFixed64, DecBytes;
    hide DecFixedBytes;
    hide WriteString;
  }

  /** What two places for a value of field f must have in common */
  ghost predicate SameTarget(f: Field, p: Value, q: Value) {
    && GoodTarget(f, p) && GoodTarget(f, q)
    && (Nested(f) && f.ptr.Sub? ==> SameCounts(f.ptr.fields, CellsOf(p), CellsOf(q)))
    && (f.ltype.LSubmessage? && f.htype.Oneof? ==> p == q)
  }

  /** The struct that a nested message is decoded into */
  function Into(f: Field, prior: Value): seq<Cell> {
    if f.htype.Repeated? then SetDefaults(f.SubFields(), CellsOf(prior)) else CellsOf(prior)
  }

  lemma SubmessageValue(f: Field, bs: seq<byte>, prior: Value)
    requires f.ltype.LSubmessage? && f.ptr.Sub?
    ensures DecValue(f, bs, prior) ==
      (var s := DecString(bs);
       if s.Bad? then Bad
       else
         var r := DecMessage(f.ptr.fields, s.val, Into(f, prior));
         if r.Ok? then Ok(VMsg(r.val), s.rest) else Bad)
  {
    hide DecString, DecMessage, SetDefaults;
  }

  lemma SubTable(f: Field)
    requires WellFormedField(f) && GoodDefault(f) && f.ltype.LSubmessage?
    ensures f.ptr.Sub? && WellFormed(f.ptr.fields) && GoodDefaults(f.ptr.fields)
  {
  }

  lemma IntoTwins(f: Field, p: Value, q: Value)
    requires WellFormedField(f) && GoodDefault(f) && SameTarget(f, p, q) && f.ltype.LSubmessage?
    ensures f.ptr.Sub? && Good(f.ptr.fields, Into(f, p)) && Good(f.ptr.fields, Into(f, q))
    ensures if f.htype.Oneof? then p == q else SameCounts(f.ptr.fields, Into(f, p), Into(f, q))
  {
    hide Good, SameCounts, SetDefaults, Shape, WellFormed, GoodDefaults;
    SubTable(f);
    if f.htype.Repeated? {
      SetDefaultsCounts(f.ptr.fields, p.cells, q.cells);
      SetDefaultsGood(f.ptr.fields, p.cells);
      SetDefaultsGood(f.ptr.fields, q.cells);
    }
  }

  lemma {:induction false} ValueVerdict(f: Field, bs: seq<byte>, p: Value, q: Value)
    requires WellFormedField(f) && GoodDefault(f) && SameTarget(f, p, q)
    ensures var v, w := DecValue(f, bs, p), DecValue(f, bs, q);
      Agree(v, w) &&
      (v.Ok? && Nested(f) && f.ptr.Sub? ==> SameCounts(f.ptr.fields, CellsOf(v.val), CellsOf(w.val)))
    decreases |bs|, 0
  {
    hide DecValue, DecString, DecMessage, Good, SameCounts, WellFormedField, GoodDefault, SameTarget, Into;
    if f.ltype.LSubmessage? {
      SubTable(f);
      IntoTwins(f, p, q);
      SubmessageValue(f, bs, p);
      SubmessageValue(f, bs, q);
      if DecString(bs).Ok? && !f.htype.Oneof? {
        MessageVerdict(f.ptr.fields, DecString(bs).val, Into(f, p), Into(f, q));
      }
    } else {
      ScalarVerdict(f, bs, p, q);
    }
  }

  lemma {:induction false} StoreVerdict(f: Field, bs: seq<byte>, n: nat, a: seq<Value>, b: seq<Value>)
    requires WellFormedField(f) && GoodDefault(f) && f.htype.Repeated?
    requires ItemShapes(f, a) && ItemShapes(f, b) && n < f.arraySize
    ensures var v, w := DecValue(f, bs, ItemAt(a, n)), DecValue(f, bs, ItemAt(b, n));
      Agree(v, w) && (v.Ok? ==> ItemShapes(f, WithItem(a, n, v.val)) && ItemShapes(f, WithItem(b, n, w.val)))
    decreases |bs|, 1
  {
    hide DecValue, ValueShape, GoodTarget, GoodItems, WellFormedField, GoodDefault;
    ItemTarget(f, a[n]);
    ItemTarget(f, b[n]);
    assert SameTarget(f, a[n], b[n]);
    ValueVerdict(f, bs, a[n], b[n]);
    if DecValue(f, bs, a[n]).Ok? {
      StoreGood(f, bs, n, a);
      StoreGood(f, bs, n, b);
    }
  }

  lemma {:induction false} ItemsVerdict(f: Field, window: seq<byte>, n: nat, a: seq<Value>, b: seq<Value>)
    requires WellFormedField(f) && GoodDefault(f) && f.htype.Repeated?
    requires ItemShapes(f, a) && ItemShapes(f, b)
    ensures var p, q := DecItems(f, window, n, a), DecItems(f, window, n, b);
      Agree(p, q) && (p.Ok? ==> p.val.0 == q.val.0)
    decreases |window|, 2
  {
    hide DecValue, WellFormedField, GoodDefault, ItemShapes;
    if window != [] && n < f.arraySize {
      StoreVerdict(f, window, n, a, b);
      var v, w := DecValue(f, window, ItemAt(a, n)), DecValue(f, window, ItemAt(b, n));
      if v.Ok? {
        ItemsVerdict(f, v.rest, n + 1, WithItem(a, n, v.val), WithItem(b, n, w.val));
      }
    }
  }

  lemma {:induction false} ArrayVerdict(f: Field, wt: nat, bs: seq<byte>, n: nat, a: seq<Value>, b: seq<Value>)
    requires WellFormedField(f) && GoodDefault(f) && f.htype.Repeated?
    requires ItemShapes(f, a) && ItemShapes(f, b)
    ensures var p, q := DecArray(f, wt, bs, n, a), DecArray(f, wt, bs, n, b);
      Agree(p, q) && (p.Ok? ==> p.val.0 == q.val.0)
    decreases |bs|, 3
  {
    hide DecValue, DecString, DecItems, WellFormedField, GoodDefault, ItemShapes;
    if wt == WT_STRING && f.Packable() {
      if DecString(bs).Ok? {
        ItemsVerdict(f, DecString(bs).val, n, a, b);
      }
    } else if n < f.arraySize {
      StoreVerdict(f, bs, n, a, b);
    }
  }

  lemma SingleSameTarget(f: Field, c: Cell, d: Cell)
    requires WellFormedField(f) && GoodDefault(f) && !f.htype.Repeated?
    requires GoodCell(f, c) && GoodCell(f, d) && SameCount(f, c, d)
    ensures if f.htype.Oneof? then SameTarget(f, OneofTarget(f, c), OneofTarget(f, d))
      else SameTarget(f, CellValue(c), CellValue(d))
  {
    hide Good, SameCounts, GoodTarget, FreshMessage;
    SingleTarget(f, c);
    SingleTarget(f, d);
  }

  lemma CellItemShapes(f: Field, c: Cell)
    requires GoodCell(f, c) && f.htype.Repeated?
    ensures ItemShapes(f, c.items) && (f.sizeOffset != 0 ==> c.Arr?) && (f.sizeOffset == 0 ==> c.Fix?)
  {
    hide ValueShape, GoodItems;
  }

  lemma {:induction false} ArrayCellVerdict(f: Field, wt: nat, bs: seq<byte>, c: Cell, d: Cell, n: nat)
    requires WellFormedField(f) && GoodDefault(f) && f.htype.Repeated?
    requires GoodCell(f, c) && GoodCell(f, d) && SameCount(f, c, d)
    ensures var p, q := DecCell(f, wt, bs, c, n), DecCell(f, wt, bs, d, n);
      Agree(p, q) && (p.Ok? ==> p.val.1 == q.val.1 && SameCount(f, p.val.0, q.val.0))
    decreases |bs|, 4, 0
  {
    hide DecArray, WellFormedField, GoodDefault, GoodCell, SameCounts;
    CellItemShapes(f, c);
    CellItemShapes(f, d);
    ArrayVerdict(f, wt, bs, if f.sizeOffset == 0 then n else c.count, c.items, d.items);
  }

  /** A field that is no array: its decoder is applied to its place in the struct. */
  lemma SingleCell(f: Field, wt: nat, bs: seq<byte>, c: Cell, n: nat)
    requires !f.htype.Repeated?
    ensures var p := DecCell(f, wt, bs, c, n);
      var r := DecValue(f, bs, if f.htype.Oneof? then OneofTarget(f, c) else CellValue(c));
      Agree(p, r) && (p.Ok? ==> p.val.1 == n && CellValue(p.val.0) == r.val)
  {
    hide DecValue, OneofTarget;
  }

  lemma {:induction false} SingleCellVerdict(f: Field, wt: nat, bs: seq<byte>, c: Cell, d: Cell, n: nat)
    requires WellFormedField(f) && GoodDefault(f) && !f.htype.Repeated?
    requires GoodCell(f, c) && GoodCell(f, d) && SameCount(f, c, d)
    ensures var p, q := DecCell(f, wt, bs, c, n), DecCell(f, wt, bs, d, n);
      Agree(p, q) && (p.Ok? ==> p.val.1 == q.val.1 && SameCount(f, p.val.0, q.val.0))
    decreases |bs|, 4, 0
  {
    hide DecCell, DecValue, OneofTarget, WellFormedField, GoodDefault, GoodCell, SameTarget, SameCounts;
    SingleSameTarget(f, c, d);
    SingleCell(f, wt, bs, c, n);
    SingleCell(f, wt, bs, d, n);
    if f.htype.Oneof? {
      ValueVerdict(f, bs, OneofTarget(f, c), OneofTarget(f, d));
    } else {
      ValueVerdict(f, bs, CellValue(c), CellValue(d));
    }
  }

  lemma {:induction false} CellVerdict(f: Field, wt: nat, bs: seq<byte>, c: Cell, d: Cell, n: nat)
    requires WellFormedField(f) && GoodDefault(f) && GoodCell(f, c) && GoodCell(f, d) && SameCount(f, c, d)
    ensures var p, q := DecCell(f, wt, bs, c, n), DecCell(f, wt, bs, d, n);
      Agree(p, q) && (p.Ok? ==> p.val.1 == q.val.1 && SameCount(f, p.val.0, q.val.0))
    decreases |bs|, 4, 1
  {
    hide DecCell, WellFormedField, GoodDefault, GoodCell, SameCount;
    if f.htype.Repeated? {
      ArrayCellVerdict(f, wt, bs, c, d, n);
    } else {
      SingleCellVerdict(f, wt, bs, c, d, n);
    }
  }

  /** Two good structs with the same counters */
  ghost predicate Twins(fields: seq<Field>, a: seq<Cell>, b: seq<Cell>) {
    Good(fields, a) && Good(fields, b) && SameCounts(fields, a, b)
  }

  ghost predicate GoodTable(fields: seq<Field>) {
    WellFormed(fields) && GoodDefaults(fields)
  }

  ghost predicate TwinStates(fields: seq<Field>, s: State, t: State) {
    Twins(fields, s.cells, t.cells) && s.seen == t.seen && s.fixedField == t.fixedField && s.fixedSize == t.fixedSize
  }

  lemma TwinsAt(fields: seq<Field>, a: seq<Cell>, b: seq<Cell>, i: nat)
    requires GoodTable(fields) && Twins(fields, a, b) && i < |fields|
    ensures UniqueTags(fields) && WellFormedField(fields[i]) && GoodDefault(fields[i])
    ensures var s := Slot(fields, i);
      s < |a| == |b| == SlotCount(fields)
      && GoodCell(fields[i], CellAt(a, s)) && GoodCell(fields[i], CellAt(b, s))
      && SameCount(fields[i], CellAt(a, s), CellAt(b, s))
  {
    hide WellFormedField, GoodDefault, GoodCell, SameCount;
    SlotInRange(fields, i);
  }

  lemma StoreTwins(fields: seq<Field>, i: nat, a: seq<Cell>, b: seq<Cell>, c: Cell, d: Cell)
    requires GoodTable(fields) && Twins(fields, a, b) && i < |fields|
    requires GoodCell(fields[i], c) && GoodCell(fields[i], d) && SameCount(fields[i], c, d)
    requires fields[i].htype.Oneof? ==> Selected(fields[i], c) && Selected(fields[i], d)
    ensures Twins(fields, WithCell(a, Slot(fields, i), c), WithCell(b, Slot(fields, i), d))
  {
    hide WellFormedField, GoodDefaults, GoodCell, SameCount, Slot, SlotCount, Good;
    TwinsAt(fields, a, b, i);
    StoreCell(fields, i, a, c);
    StoreCell(fields, i, b, d);
    var a', b' := WithCell(a, Slot(fields, i), c), WithCell(b, Slot(fields, i), d);
    forall j | 0 <= j < |fields| && j != i
      ensures SameCount(fields[j], CellAt(a', Slot(fields, j)), CellAt(b', Slot(fields, j)))
    {
      TwinsAt(fields, a, b, j);
      if Slot(fields, j) == Slot(fields, i) {
        SlotShared(fields, i, j);
        OneofCount(fields[j], c, d);
      }
    }
  }

  lemma OneofCount(f: Field, c: Cell, d: Cell)
    requires f.htype.Oneof?
    ensures SameCount(f, c, d)
  {
  }

  lemma EmptyTableVerdict(wt: nat, tag: nat, bs: seq<byte>, s: State, t: State)
    requires TwinStates([], s, t)
    ensures var p, q := DecField([], wt, tag, bs, s), DecField([], wt, tag, bs, t);
      Agree(p, q) && (p.Ok? ==> TwinStates([], p.val, q.val))
  {
    hide DecVarint32, SkipField;
  }

  lemma {:induction false} FieldVerdict(fields: seq<Field>, wt: nat, tag: nat, bs: seq<byte>, s: State, t: State)
    requires GoodTable(fields) && TwinStates(fields, s, t)
    ensures var p, q := DecField(fields, wt, tag, bs, s), DecField(fields, wt, tag, bs, t);
      Agree(p, q) && (p.Ok? ==> TwinStates(fields, p.val, q.val))
    decreases |bs|, 5
  {
    hide GoodTable, Twins, DecCell, SkipField, Slot, Mark, WellFormedField, GoodDefault, GoodCell, SameCount;
    if fields == [] {
      EmptyTableVerdict(wt, tag, bs, s, t);
    } else if Lookup(fields, tag).Some? && Turn(fields, Lookup(fields, tag).value, s).Some? {
      var i := Lookup(fields, tag).value;
      var f, n := fields[i], Turn(fields, i, s).value.fixedSize;
      var c, d := CellAt(s.cells, Slot(fields, i)), CellAt(t.cells, Slot(fields, i));
      TwinsAt(fields, s.cells, t.cells, i);
      CellVerdict(f, wt, bs, c, d, n);
      var p, q := DecCell(f, wt, bs, c, n), DecCell(f, wt, bs, d, n);
      if p.Ok? {
        DecCellGood(f, wt, bs, c, n);
        DecCellGood(f, wt, bs, d, n);
        StoreTwins(fields, i, s.cells, t.cells, p.val.0, q.val.0);
      }
    }
  }

  lemma {:induction false} FieldsVerdict(fields: seq<Field>, bs: seq<byte>, s: State, t: State)
    requires GoodTable(fields) && TwinStates(fields, s, t)
    ensures var p, q := DecFields(fields, bs, s), DecFields(fields, bs, t);
      Agree(p, q) && (p.Ok? ==> TwinStates(fields, p.val, q.val))
    decreases |bs|, 6
  {
    hide GoodTable, TwinStates, DecField, DecTag;
    if bs != [] && DecTag(bs).Tag? {
      var Tag(wt, tag, rest) := DecTag(bs);
      FieldVerdict(fields, wt, tag, rest, s, t);
      var p, q := DecField(fields, wt, tag, rest, s), DecField(fields, wt, tag, rest, t);
      if p.Ok? {
        FieldsVerdict(fields, p.rest, p.val, q.val);
      }
    }
  }

  /** pb_decode_noinit in two structs with the same counters: same verdict, same bytes left, same counters */
  lemma {:induction false} MessageVerdict(fields: seq<Field>, bs: seq<byte>, a: seq<Cell>, b: seq<Cell>)
    requires WellFormed(fields) && GoodDefaults(fields)
    requires Good(fields, a) && Good(fields, b) && SameCounts(fields, a, b)
    ensures var p, q := DecMessage(fields, bs, a), DecMessage(fields, bs, b);
      Agree(p, q) && (p.Ok? ==> Twins(fields, p.val, q.val))
    decreases |bs|, 7
  {
    hide DecFields, Good, SameCounts, RequiredPresent, WellFormed, GoodDefaults;
    FieldsVerdict(fields, bs, Start(a), Start(b));
  }

  /** The verdict of pb_decode and the bytes it leaves depend on the input alone, in every table. */
  lemma DecodeVerdict(fields: seq<Field>, bs: seq<byte>, a: seq<Cell>, b: seq<Cell>)
    requires WellFormed(fields) && GoodDefaults(fields) && Shape(fields, a) && Shape(fields, b)
    ensures Agree(Decode(fields, bs, a), Decode(fields, bs, b))
  {
    hide DecMessage, Good, SameCounts, Shape, WellFormed, GoodDefaults, SetDefaults;
    SetDefaultsTwins(fields, a, b);
    MessageVerdict(fields, bs, SetDefaults(fields, a), SetDefaults(fields, b));
  }

  lemma SetDefaultsTwins(fields: seq<Field>, a: seq<Cell>, b: seq<Cell>)
    requires WellFormed(fields) && GoodDefaults(fields) && Shape(fields, a) && Shape(fields, b)
    ensures Twins(fields, SetDefaults(fields, a), SetDefaults(fields, b))
  {
    hide WellFormed, GoodDefaults, Good, SameCounts, Shape, SetDefaults;
    SetDefaultsGood(fields, a);
    SetDefaultsGood(fields, b);
    SetDefaultsCounts(fields, a, b);
  }
}
