/**
  What an accepted input makes of each field: scalars, arrays, nested messages and elements, told
  from the records that reached the field.
 */
module Outcomes {
  import opened Wire
  import opened Descriptors
  import opened DecoderSpec
  import opened Defaults
  import opened GoodStructs
  import opened Invariant
  import opened Verdict
  import opened History

  // ---- Accepted input, in parts ----

  ghost predicate Accepts(fields: seq<Field>, parts: seq<seq<byte>>) {
    DecParts(fields, parts, FreshMessage(fields)).Some?
  }

  /** The records of field i when the parts are decoded, in any struct */
  function FieldRecords(fields: seq<Field>, parts: seq<seq<byte>>, i: nat): seq<Record> {
    At(PartRecords(fields, parts, FreshMessage(fields)), Slot(fields, i))
  }

  lemma OnePart(fields: seq<Field>, bs: seq<byte>, cells: seq<Cell>)
    ensures var r := DecMessage(fields, bs, cells);
      DecParts(fields, [bs], cells) == if r.Ok? then Some(r.val) else None
  {
    hide DecMessage;
    assert [bs][1..] == [];
  }

  lemma NoParts(fields: seq<Field>, cells: seq<Cell>)
    ensures DecParts(fields, [], cells) == Some(cells)
  {
  }

  lemma BothFromOne(fields: seq<Field>, parts: seq<seq<byte>>, a: seq<Cell>, b: seq<Cell>)
    requires GoodTable(fields) && Shape(fields, a) && Shape(fields, b)
    requires DecParts(fields, parts, SetDefaults(fields, a)).Some?
    ensures DecParts(fields, parts, SetDefaults(fields, b)).Some?
  {
    hide WellFormed, GoodDefaults, Good, SameCounts, Shape, DecParts, PartRecords, SetDefaults;
    SetDefaultsTwins(fields, a, b);
    SameParts(fields, parts, SetDefaults(fields, a), SetDefaults(fields, b));
  }

  lemma SameVerdict(fields: seq<Field>, bs: seq<byte>, a: seq<Cell>, b: seq<Cell>)
    requires GoodTable(fields) && Shape(fields, a) && Shape(fields, b)
    ensures Agree(Decode(fields, bs, a), Decode(fields, bs, b))
  {
    hide WellFormed, GoodDefaults, Shape, Decode;
    DecodeVerdict(fields, bs, a, b);
  }

  lemma AcceptedIsOnePart(fields: seq<Field>, bs: seq<byte>, dest: seq<Cell>)
    requires GoodTable(fields) && Shape(fields, dest) && Decode(fields, bs, dest).Ok?
    ensures Accepts(fields, [bs])
  {
    hide WellFormed, GoodDefaults, Shape, DecMessage, DecParts, SetDefaults, ZeroCells;
    var zero := ZeroCells(fields, |fields|);
    ZeroShape(fields);
    assert FreshMessage(fields) == SetDefaults(fields, zero);
    SameVerdict(fields, bs, dest, zero);
    OnePart(fields, bs, SetDefaults(fields, zero));
  }

  lemma BothAccept(fields: seq<Field>, parts: seq<seq<byte>>, a: seq<Cell>, b: seq<Cell>)
    requires GoodTable(fields) && Accepts(fields, parts) && Shape(fields, a) && Shape(fields, b)
    ensures DecParts(fields, parts, SetDefaults(fields, a)).Some?
    ensures DecParts(fields, parts, SetDefaults(fields, b)).Some?
  {
    hide WellFormed, GoodDefaults, Good, SameCounts, Shape, DecParts, PartRecords, SetDefaults, ZeroCells;
    ZeroShape(fields);
    assert FreshMessage(fields) == SetDefaults(fields, ZeroCells(fields, |fields|));
    SetDefaultsTwins(fields, a, ZeroCells(fields, |fields|));
    SetDefaultsTwins(fields, b, ZeroCells(fields, |fields|));
    SameParts(fields, parts, SetDefaults(fields, a), FreshMessage(fields));
    SameParts(fields, parts, SetDefaults(fields, b), FreshMessage(fields));
  }

  // ---- The outcome, cell by cell ----

  lemma TagsUnique(fields: seq<Field>)
    requires GoodTable(fields)
    ensures UniqueTags(fields)
  {
  }

  lemma ShapeSize(fields: seq<Field>, a: seq<Cell>)
    requires Shape(fields, a)
    ensures |a| == SlotCount(fields)
  {
  }

  lemma ShapeAt(fields: seq<Field>, a: seq<Cell>, i: nat)
    requires GoodTable(fields) && Shape(fields, a) && i < |fields|
    ensures WellFormedField(fields[i]) && GoodDefault(fields[i]) && CellShape(fields[i], CellAt(a, Slot(fields, i)))
  {
  }

  /** A fixed-count array ends complete, or with the m elements it had if it is not met. */
  predicate FixedEnds(f: Field, records: seq<Record>, c: Cell, m: nat) {
    Chained(records, c, m) && EndOf(records, c, m) == if records == [] then m else f.arraySize
  }

  /** Each cell of the outcome is what the records of its field made of its default. */
  lemma OutcomeCell(fields: seq<Field>, parts: seq<seq<byte>>, a: seq<Cell>, i: nat)
    requires GoodTable(fields) && Accepts(fields, parts) && Shape(fields, a) && i < |fields|
    ensures var p := DecParts(fields, parts, SetDefaults(fields, a));
      var c := SetDefault(fields[i], CellAt(a, Slot(fields, i)));
      && p.Some? && CellAt(p.value, Slot(fields, i)) == Fold(FieldRecords(fields, parts, i), c)
      && Steps(FieldRecords(fields, parts, i), c)
      && (fields[i].FixedCount() ==> forall m: nat :: FixedEnds(fields[i], FieldRecords(fields, parts, i), c, m))
  {
    hide WellFormed, GoodDefaults, Good, SameCounts, Shape, DecParts, PartRecords, SetDefaultsFrom, ZeroCells;
    hide Fold, Steps, At, Slot, SlotCount, Chained, EndOf;
    var d, slot := SetDefaults(fields, a), Slot(fields, i);
    ZeroShape(fields);
    SetDefaultsTwins(fields, a, ZeroCells(fields, |fields|));
    SameParts(fields, parts, d, FreshMessage(fields));
    ShapeSize(fields, a);
    SetDefaultsAt(fields, a, 0, i);
    SlotInRange(fields, i);
    PartsFollow(fields, parts, d, slot);
    if fields[i].FixedCount() {
      TagsUnique(fields);
      forall m: nat
        ensures FixedEnds(fields[i], FieldRecords(fields, parts, i), SetDefault(fields[i], CellAt(a, slot)), m)
      {
        PartsChain(fields, i, parts, d, m);
      }
    }
  }

  /** What is known of the records of a field from a run that was accepted, from default z on */
  ghost predicate Ran(f: Field, records: seq<Record>, z: Cell) {
    && WellFormedField(f) && GoodDefault(f) && AllOf(records, f) && !f.htype.Oneof?
    && CellShape(f, z) && Steps(records, SetDefault(f, z))
    && (f.FixedCount() ==> forall m: nat :: FixedEnds(f, records, SetDefault(f, z), m))
  }

  lemma RanAnywhere(f: Field, records: seq<Record>, z: Cell, c: Cell, m: nat)
    requires Ran(f, records, z) && CellShape(f, c)
    ensures Steps(records, SetDefault(f, c)) && GoodCell(f, SetDefault(f, c))
    ensures f.FixedCount() ==> FixedEnds(f, records, SetDefault(f, c), m)
  {
    hide WellFormedField, GoodDefault, GoodCell, CellShape, SetDefault, Steps, Fold, Chained, EndOf, SameCount;
    SetDefaultGood(f, z);
    SetDefaultGood(f, c);
    SetDefaultCount(f, z, c);
    SameSteps(f, records, SetDefault(f, z), SetDefault(f, c), m);
    if f.FixedCount() {
      assert FixedEnds(f, records, SetDefault(f, z), m);
    }
  }

  lemma OneofTag(f: Field)
    requires WellFormedField(f)
    ensures 1 <= f.tag && (f.ltype.LSubmessage? <==> f.ptr.Sub?)
  {
  }

  lemma RanField(fields: seq<Field>, parts: seq<seq<byte>>, i: nat) returns (z: Cell)
    requires GoodTable(fields) && Accepts(fields, parts) && i < |fields|
    ensures WellFormedField(fields[i]) && GoodDefault(fields[i])
    ensures !fields[i].htype.Oneof? ==> Ran(fields[i], FieldRecords(fields, parts, i), z)
    ensures fields[i].htype.Oneof? ==> AllMembers(FieldRecords(fields, parts, i), fields[i])
  {
    hide WellFormed, GoodDefaults, Shape, CellShape, DecParts, PartRecords, SetDefault, SetDefaults, Fold;
    hide Steps, At, Slot;
    hide WellFormedField, GoodDefault, FixedEnds, ZeroCells;
    var zero := ZeroCells(fields, |fields|);
    ZeroShape(fields);
    ShapeAt(fields, zero, i);
    OutcomeCell(fields, parts, zero, i);
    PartRecordsKnown(fields, parts, FreshMessage(fields));
    OwnRecords(fields, PartRecords(fields, parts, FreshMessage(fields)), i);
    z := CellAt(zero, Slot(fields, i));
  }

  // ---- Arrays of elements that do not depend on what they replace ----

  /** Decoding an element of f from bs gives related values whatever it replaces. */
  ghost predicate Renewed(f: Field, bs: seq<byte>, related: (Value, Value) -> bool) {
    forall w, p, q ::
      (f.Packable() || w == bs) && ValueShape(f, p) && ValueShape(f, q)
      && DecValue(f, w, p).Ok? && DecValue(f, w, q).Ok? ==>
      related(DecValue(f, w, p).val, DecValue(f, w, q).val)
  }

  ghost predicate RelatedUpTo(related: (Value, Value) -> bool, a: seq<Value>, b: seq<Value>, n: nat) {
    forall k | 0 <= k < n && k < |a| && k < |b| :: related(a[k], b[k])
  }

  lemma StoreRelated(
    f: Field, w: seq<byte>, bs: seq<byte>, n: nat, a: seq<Value>, b: seq<Value>, related: (Value, Value) -> bool)
    requires WellFormedField(f) && GoodDefault(f) && f.htype.Repeated? && (f.Packable() || w == bs)
    requires ItemShapes(f, a) && ItemShapes(f, b) && n < f.arraySize
    requires Renewed(f, bs, related) && RelatedUpTo(related, a, b, n)
    requires DecValue(f, w, ItemAt(a, n)).Ok? && DecValue(f, w, ItemAt(b, n)).Ok?
    ensures var x := WithItem(a, n, DecValue(f, w, ItemAt(a, n)).val);
      var y := WithItem(b, n, DecValue(f, w, ItemAt(b, n)).val);
      ItemShapes(f, x) && ItemShapes(f, y) && RelatedUpTo(related, x, y, n + 1)
  {
    hide DecValue, ValueShape, WellFormedField, GoodDefault, GoodItems;
    StoreGood(f, w, n, a);
    StoreGood(f, w, n, b);
  }

  lemma {:induction false} ItemsRelated(
    f: Field, window: seq<byte>, n: nat, a: seq<Value>, b: seq<Value>, related: (Value, Value) -> bool)
    requires WellFormedField(f) && GoodDefault(f) && f.htype.Repeated? && f.Packable()
    requires ItemShapes(f, a) && ItemShapes(f, b) && Renewed(f, [], related) && RelatedUpTo(related, a, b, n)
    requires DecItems(f, window, n, a).Ok? && DecItems(f, window, n, b).Ok?
    ensures var p, q := DecItems(f, window, n, a).val, DecItems(f, window, n, b).val;
      p.0 == q.0 && RelatedUpTo(related, p.1, q.1, p.0)
    decreases |window|
  {
    hide DecValue, WellFormedField, GoodDefault, ItemShapes, Renewed, RelatedUpTo;
    if window != [] {
      StoreRelated(f, window, [], n, a, b, related);
      StoreVerdict(f, window, n, a, b);
      var v, w := DecValue(f, window, ItemAt(a, n)), DecValue(f, window, ItemAt(b, n));
      ItemsRelated(f, v.rest, n + 1, WithItem(a, n, v.val), WithItem(b, n, w.val), related);
    }
  }

  lemma RenewedAnywhere(f: Field, bs: seq<byte>, related: (Value, Value) -> bool)
    requires Renewed(f, bs, related) && f.Packable()
    ensures Renewed(f, [], related)
  {
    hide DecValue, ValueShape;
  }

  lemma ArrayRelated(
    f: Field, wt: nat, bs: seq<byte>, n: nat, a: seq<Value>, b: seq<Value>, related: (Value, Value) -> bool)
    requires WellFormedField(f) && GoodDefault(f) && f.htype.Repeated?
    requires ItemShapes(f, a) && ItemShapes(f, b) && Renewed(f, bs, related) && RelatedUpTo(related, a, b, n)
    requires DecArray(f, wt, bs, n, a).Ok? && DecArray(f, wt, bs, n, b).Ok?
    ensures var p, q := DecArray(f, wt, bs, n, a).val, DecArray(f, wt, bs, n, b).val;
      p.0 == q.0 && RelatedUpTo(related, p.1, q.1, p.0) && ItemShapes(f, p.1) && ItemShapes(f, q.1)
  {
    hide DecValue, DecString, DecItems, WellFormedField, GoodDefault, ItemShapes, RelatedUpTo, GoodItems;
    DecArrayGood(f, wt, bs, n, a);
    DecArrayGood(f, wt, bs, n, b);
    if wt == WT_STRING && f.Packable() {
      assert Renewed(f, [], related) by { RenewedAnywhere(f, bs, related); }
      ItemsRelated(f, DecString(bs).val, n, a, b, related);
    } else {
      StoreRelated(f, bs, bs, n, a, b, related);
    }
  }

  /** Array cells that are related as far as they are filled */
  ghost predicate RelatedCells(f: Field, related: (Value, Value) -> bool, c: Cell, d: Cell, n: nat) {
    && (if f.sizeOffset != 0 then c.Arr? && d.Arr? && c.count == n == d.count else c.Fix? && d.Fix?)
    && ItemShapes(f, c.items) && ItemShapes(f, d.items) && RelatedUpTo(related, c.items, d.items, n)
  }

  lemma RelatedStep(f: Field, r: Record, c: Cell, d: Cell, m: nat, related: (Value, Value) -> bool)
    requires WellFormedField(f) && GoodDefault(f) && f.htype.Repeated? && r.field == f
    requires RelatedCells(f, related, c, d, m) && Renewed(f, r.bytes, related)
    requires f.FixedCount() ==> r.n <= m
    requires Decoded(r, c).Ok? && Decoded(r, d).Ok?
    ensures var n := if f.FixedCount() then After(r, c, m) else Step(r, c).count;
      RelatedCells(f, related, Step(r, c), Step(r, d), n)
  {
    hide DecValue, DecArray, WellFormedField, GoodDefault, ItemShapes, Renewed;
    var n := if f.sizeOffset == 0 then r.n else m;
    assert RelatedUpTo(related, c.items, d.items, n);
    hide RelatedUpTo;
    ArrayRelated(f, r.wt, r.bytes, n, c.items, d.items, related);
  }

  /** How many elements of an array are new after some records */
  function Filled(f: Field, records: seq<Record>, c: Cell, m: nat): nat {
    if f.FixedCount() then EndOf(records, c, m)
    else if Fold(records, c).Arr? then Fold(records, c).count else 0
  }

  ghost predicate AllRenewed(f: Field, records: seq<Record>, related: (Value, Value) -> bool) {
    forall k | 0 <= k < |records| :: Renewed(f, records[k].bytes, related)
  }

  lemma {:induction false} RelatedFold(
    f: Field, records: seq<Record>, c: Cell, d: Cell, m: nat, related: (Value, Value) -> bool)
    requires WellFormedField(f) && GoodDefault(f) && f.htype.Repeated? && AllOf(records, f)
    requires RelatedCells(f, related, c, d, m) && AllRenewed(f, records, related)
    requires Steps(records, c) && Steps(records, d) && (f.FixedCount() ==> Chained(records, c, m))
    ensures RelatedCells(f, related, Fold(records, c), Fold(records, d), Filled(f, records, c, m))
    decreases |records|
  {
    hide DecCell, WellFormedField, GoodDefault, ItemShapes, RelatedUpTo, Renewed, Step, After;
    if records != [] {
      var r := records[0];
      RelatedStep(f, r, c, d, m, related);
      var n := if f.FixedCount() then After(r, c, m) else Step(r, c).count;
      RelatedFold(f, records[1..], Step(r, c), Step(r, d), n, related);
    }
  }

  lemma EmptyRelated(f: Field, c: Cell, d: Cell, related: (Value, Value) -> bool)
    requires WellFormedField(f) && GoodDefault(f) && f.htype.Repeated? && CellShape(f, c) && CellShape(f, d)
    ensures RelatedCells(f, related, SetDefault(f, c), SetDefault(f, d), 0)
  {
    hide ValueShape, WellFormedField, GoodDefault, GoodItems;
    SetDefaultGood(f, c);
    SetDefaultGood(f, d);
  }

  // ---- Elements that are messages ----

  function Window(r: Record): seq<byte> {
    if DecString(r.bytes).Ok? then DecString(r.bytes).val else []
  }

  lemma SubmessageField(f: Field)
    requires WellFormedField(f) && f.ptr.Sub?
    ensures f.ltype.LSubmessage? && !f.Packable()
  {
  }

  /** Decoding one window into an element is decoding the window as the only part. */
  lemma ElementValue(f: Field, bs: seq<byte>, prior: Value)
    requires f.ltype.LSubmessage? && f.ptr.Sub? && f.htype.Repeated?
    ensures DecValue(f, bs, prior).Ok? <==>
      DecString(bs).Ok? && DecParts(f.ptr.fields, [DecString(bs).val], SetDefaults(f.ptr.fields, CellsOf(prior))).Some?
    ensures DecValue(f, bs, prior).Ok? ==>
      var p := DecParts(f.ptr.fields, [DecString(bs).val], SetDefaults(f.ptr.fields, CellsOf(prior)));
      DecValue(f, bs, prior).val == VMsg(p.value)
  {
    hide DecValue, DecString, DecMessage, SetDefaults;
    SubmessageValue(f, bs, prior);
    if DecString(bs).Ok? {
      OnePart(f.ptr.fields, DecString(bs).val, SetDefaults(f.ptr.fields, CellsOf(prior)));
    }
  }

  lemma OneElement(f: Field, wt: nat, bs: seq<byte>, n: nat, items: seq<Value>)
    requires !f.Packable() && |items| == f.arraySize
    ensures DecArray(f, wt, bs, n, items) ==
      if n >= f.arraySize then Bad
      else
        var r := DecValue(f, bs, items[n]);
        if r.Ok? then Ok((n + 1, WithItem(items, n, r.val)), r.rest) else Bad
  {
    hide DecValue;
  }

  lemma ElementStep(f: Field, r: Record, n: nat, items: seq<Value>)
    requires f.htype.Repeated? && f.sizeOffset != 0 && !f.Packable() && r.field == f
    requires |items| == f.arraySize && Decoded(r, Arr(n, items)).Ok?
    ensures n < f.arraySize && DecValue(f, r.bytes, items[n]).Ok?
    ensures Step(r, Arr(n, items)) == Arr(n + 1, WithItem(items, n, DecValue(f, r.bytes, items[n]).val))
  {
    hide DecValue, DecArray;
    OneElement(f, r.wt, r.bytes, n, items);
  }

  /** Element k of an array with a counter is decoded once, from its own window. */
  lemma {:induction false} CounterFold(f: Field, records: seq<Record>, n: nat, items: seq<Value>)
    returns (out: seq<Value>)
    requires f.htype.Repeated? && f.sizeOffset != 0 && !f.Packable() && AllOf(records, f)
    requires |items| == f.arraySize && Steps(records, Arr(n, items))
    ensures Fold(records, Arr(n, items)) == Arr(n + |records|, out) && |out| == |items|
    ensures n <= f.arraySize ==> n + |records| <= f.arraySize
    ensures forall k | 0 <= k < n && k < |out| :: out[k] == items[k]
    ensures forall k | 0 <= k < |records| && n + k < |out| ::
      DecValue(f, records[k].bytes, items[n + k]).Ok? && out[n + k] == DecValue(f, records[k].bytes, items[n + k]).val
    decreases |records|
  {
    hide DecValue, Decoded, Step;
    if records == [] {
      out := items;
    } else {
      var r := records[0];
      ElementStep(f, r, n, items);
      var next := WithItem(items, n, DecValue(f, r.bytes, items[n]).val);
      out := CounterFold(f, records[1..], n + 1, next);
      forall k | 0 <= k < |records| && n + k < |out|
        ensures DecValue(f, records[k].bytes, items[n + k]).Ok?
        ensures out[n + k] == DecValue(f, records[k].bytes, items[n + k]).val
      {
        if k > 0 {
          assert records[k] == records[1..][k - 1] && next[n + k] == items[n + k];
        }
      }
    }
  }

  lemma ArrayPrior(f: Field, wt: nat, bs: seq<byte>, n: nat, items: seq<Value>) returns (p: Value)
    requires f.ltype.LSubmessage? && f.ptr.Sub? && ItemShapes(f, items) && DecArray(f, wt, bs, n, items).Ok?
    ensures p.VMsg? && Shape(f.ptr.fields, p.cells) && DecValue(f, bs, p).Ok?
  {
    hide DecValue;
    p := items[n];
  }

  /** What element record k replaced */
  lemma {:induction false} ElementPrior(f: Field, records: seq<Record>, c: Cell, k: nat) returns (p: Value)
    requires WellFormedField(f) && GoodDefault(f) && f.htype.Repeated? && f.ltype.LSubmessage? && f.ptr.Sub?
    requires AllOf(records, f) && Steps(records, c) && GoodCell(f, c) && k < |records|
    ensures p.VMsg? && Shape(f.ptr.fields, p.cells) && DecValue(f, records[k].bytes, p).Ok?
    decreases k
  {
    hide DecValue, GoodCell, WellFormedField, GoodDefault, DecArray;
    var r := records[0];
    if k == 0 {
      CellItemShapes(f, c);
      p := ArrayPrior(f, r.wt, r.bytes, if f.sizeOffset == 0 then r.n else c.count, c.items);
    } else {
      DecCellGood(f, r.wt, r.bytes, c, r.n);
      p := ElementPrior(f, records[1..], Step(r, c), k - 1);
    }
  }

  lemma ElementAccepted(f: Field, records: seq<Record>, z: Cell, k: nat)
    requires Ran(f, records, z) && f.ptr.Sub? && f.htype.Repeated? && k < |records|
    ensures Accepts(f.ptr.fields, [Window(records[k])])
  {
    hide Fold, DecParts, SetDefaults, GoodCell, Shape, WellFormed, GoodDefaults, ZeroCells, DecValue, DecString;
    hide WellFormedField, GoodDefault, SetDefault;
    SubmessageField(f);
    SetDefaultGood(f, z);
    var p := ElementPrior(f, records, SetDefault(f, z), k);
    ElementValue(f, records[k].bytes, p);
    var sub := f.ptr.fields;
    SubTable(f);
    ZeroShape(sub);
    BothFromOne(sub, [Window(records[k])], CellsOf(p), ZeroCells(sub, |sub|));
  }

  /** A later record puts its element in the same place of a fixed-count array. */
  ghost predicate Superseded(f: Field, records: seq<Record>, k: nat) {
    f.FixedCount() && exists j :: k < j < |records| && k < |records| && records[j].n == records[k].n
  }

  /** Where record k puts its element, in an array that was empty */
  function Target(f: Field, records: seq<Record>, k: nat): nat {
    if f.FixedCount() && k < |records| then records[k].n else k
  }

  /** What record k replaces */
  function Replaced(f: Field, records: seq<Record>, c: Cell, k: nat): Value {
    if k <= |records| then ItemAt(CellItems(Fold(records[..k], c)), Target(f, records, k)) else BLANK
  }

  /** The number of elements, in an array with a counter */
  function CountOf(c: Cell): nat {
    if c.Arr? then c.count else 0
  }

  lemma PriorCells(f: Field, v: Value)
    requires f.ltype.LSubmessage? && ValueShape(f, v)
    ensures v.VMsg? && f.ptr.Sub? && Shape(f.ptr.fields, v.cells)
  {
  }

  lemma OnePartAccepted(fields: seq<Field>, bs: seq<byte>, a: seq<Cell>)
    requires GoodTable(fields) && Shape(fields, a) && DecParts(fields, [bs], SetDefaults(fields, a)).Some?
    ensures Accepts(fields, [bs])
  {
    hide WellFormed, GoodDefaults, Shape, DecParts, SetDefaults, ZeroCells;
    ZeroShape(fields);
    assert FreshMessage(fields) == SetDefaults(fields, ZeroCells(fields, |fields|));
    BothFromOne(fields, [bs], a, ZeroCells(fields, |fields|));
  }

  lemma EmptyArray(f: Field, c: Cell)
    requires CellShape(f, c) && f.htype.Repeated?
    ensures CountOf(SetDefault(f, c)) == 0
  {
    hide ValueShape;
  }

  /** One record puts one element in its place. */
  lemma PutElement(f: Field, r: Record, c: Cell, m: nat)
    requires WellFormedField(f) && GoodDefault(f) && f.ptr.Sub? && f.htype.Repeated? && r.field == f
    requires GoodCell(f, c) && Decoded(r, c).Ok?
    ensures var at := if f.FixedCount() then r.n else CountOf(c);
      && at < f.arraySize == |CellItems(c)| && ValueShape(f, CellItems(c)[at])
      && DecValue(f, r.bytes, CellItems(c)[at]).Ok?
      && CellItems(Step(r, c)) == CellItems(c)[at := DecValue(f, r.bytes, CellItems(c)[at]).val]
    ensures f.FixedCount() ==> After(r, c, m) == r.n + 1
    ensures !f.FixedCount() ==> CountOf(Step(r, c)) == CountOf(c) + 1
    ensures GoodCell(f, Step(r, c))
  {
    hide DecValue, WellFormedField, GoodDefault, GoodCell, DecArray, ValueShape;
    SubmessageField(f);
    CellItemShapes(f, c);
    DecCellGood(f, r.wt, r.bytes, c, r.n);
    OneElement(f, r.wt, r.bytes, if f.FixedCount() then r.n else CountOf(c), c.items);
  }

  /** An element that no record puts anything in the place of stays. */
  lemma {:induction false} Untouched(f: Field, records: seq<Record>, c: Cell, at: nat)
    requires WellFormedField(f) && GoodDefault(f) && f.ptr.Sub? && f.htype.Repeated? && AllOf(records, f)
    requires GoodCell(f, c) && Steps(records, c) && at < |CellItems(c)|
    requires if f.FixedCount() then forall k | 0 <= k < |records| :: records[k].n != at else at < CountOf(c)
    ensures |CellItems(Fold(records, c))| == |CellItems(c)|
    ensures CellItems(Fold(records, c))[at] == CellItems(c)[at]
    decreases |records|
  {
    hide DecValue, WellFormedField, GoodDefault, GoodCell, Decoded, Step, CountOf, ValueShape;
    if records != [] {
      PutElement(f, records[0], c, 0);
      Untouched(f, records[1..], Step(records[0], c), at);
    }
  }

  lemma SplitAt(records: seq<Record>, c: Cell, k: nat)
    requires k < |records| && Steps(records, c)
    ensures var before := Fold(records[..k], c);
      && Steps(records[..k], c) && Decoded(records[k], before).Ok?
      && Steps(records[k + 1..], Step(records[k], before))
      && Fold(records, c) == Fold(records[k + 1..], Step(records[k], before))
  {
    hide Decoded, Step;
    assert records == records[..k] + records[k..];
    FoldConcat(records[..k], records[k..], c);
    assert records[k..][1..] == records[k + 1..];
  }

  lemma {:induction false} CountAdvances(f: Field, records: seq<Record>, c: Cell)
    requires WellFormedField(f) && GoodDefault(f) && f.ptr.Sub? && f.htype.Repeated? && !f.FixedCount()
    requires AllOf(records, f) && GoodCell(f, c) && Steps(records, c)
    ensures CountOf(Fold(records, c)) == CountOf(c) + |records|
    decreases |records|
  {
    hide DecValue, WellFormedField, GoodDefault, GoodCell, Decoded, Step, CountOf, ValueShape;
    if records != [] {
      PutElement(f, records[0], c, 0);
      CountAdvances(f, records[1..], Step(records[0], c));
    }
  }

  /** A record that is not superseded has the last word on its element. */
  lemma ElementOutcome(f: Field, records: seq<Record>, c: Cell, k: nat)
    requires WellFormedField(f) && GoodDefault(f) && f.ptr.Sub? && f.htype.Repeated? && AllOf(records, f)
    requires GoodCell(f, c) && Steps(records, c) && CountOf(c) == 0
    requires k < |records| && !Superseded(f, records, k)
    ensures var at, prior := Target(f, records, k), Replaced(f, records, c, k);
      && at < f.arraySize == |CellItems(Fold(records, c))| && ValueShape(f, prior)
      && DecValue(f, records[k].bytes, prior).Ok?
      && CellItems(Fold(records, c))[at] == DecValue(f, records[k].bytes, prior).val
  {
    hide DecValue, WellFormedField, GoodDefault, GoodCell, Decoded, Step, Steps, Fold, CountOf, ValueShape;
    var before, after := records[..k], records[k + 1..];
    SplitAt(records, c, k);
    FoldGood(f, before, c);
    var cell := Fold(before, c);
    if !f.FixedCount() {
      CountAdvances(f, before, c);
    }
    PutElement(f, records[k], cell, 0);
    forall j | 0 <= j < |after|
      ensures f.FixedCount() ==> after[j].n != records[k].n
    {
      assert after[j] == records[k + 1 + j];
    }
    Untouched(f, after, Step(records[k], cell), Target(f, records, k));
  }

  /** Some record that is not superseded has put an element in each place that is filled. */
  lemma {:induction false} Writer(f: Field, records: seq<Record>, c: Cell, m: nat, at: nat) returns (k: nat)
    requires WellFormedField(f) && GoodDefault(f) && f.ptr.Sub? && f.FixedCount() && AllOf(records, f)
    requires GoodCell(f, c) && Steps(records, c) && Chained(records, c, m) && m <= at < EndOf(records, c, m)
    ensures k < |records| && records[k].n == at
    decreases |records|
  {
    hide DecValue, WellFormedField, GoodDefault, GoodCell, Decoded, Step, After, ValueShape;
    var r := records[0];
    PutElement(f, r, c, m);
    if at == r.n {
      k := 0;
    } else {
      k := Writer(f, records[1..], Step(r, c), r.n + 1, at);
      k := k + 1;
    }
  }

  lemma {:induction false} LastWriter(f: Field, records: seq<Record>, k: nat) returns (j: nat)
    requires f.FixedCount() && k < |records|
    ensures j < |records| && records[j].n == records[k].n && !Superseded(f, records, j)
    decreases |records| - k
  {
    if i :| k < i < |records| && records[i].n == records[k].n {
      j := LastWriter(f, records, i);
    } else {
      j := k;
    }
  }

  /** The number of elements of an array that are sent */
  function SentCount(f: Field, c: Cell): nat {
    if f.FixedCount() then f.arraySize else if c.Arr? then c.count else 0
  }

  /** All that the encoder asks of an array besides its elements */
  predicate CountFits(f: Field, c: Cell) {
    if f.FixedCount() then c.Fix? && |c.items| == f.arraySize
    else c.Arr? && c.count <= f.arraySize == |c.items|
  }

  lemma CountedArray(f: Field, c: Cell, tidy: bool)
    requires f.htype.Repeated? && GoodCell(f, c, tidy)
    ensures CountFits(f, c)
  {
    hide GoodValue, ValueShape;
  }

  /** The record that an element that is sent comes from */
  lemma WriterOf(f: Field, records: seq<Record>, d: Cell, at: nat) returns (k: nat)
    requires WellFormedField(f) && GoodDefault(f) && f.ptr.Sub? && f.htype.Repeated? && AllOf(records, f)
    requires GoodCell(f, d) && Steps(records, d) && CountOf(d) == 0 && at < SentCount(f, Fold(records, d))
    requires f.FixedCount() ==> records != [] && FixedEnds(f, records, d, 0)
    ensures k < |records| && !Superseded(f, records, k) && Target(f, records, k) == at
  {
    hide WellFormedField, GoodDefault, Steps, Fold, GoodCell, Chained, EndOf, ValueShape;
    if f.FixedCount() {
      k := Writer(f, records, d, 0, at);
      k := LastWriter(f, records, k);
    } else {
      CountAdvances(f, records, d);
      k := at;
    }
  }

  // ---- Nested messages ----

  function Windows(records: seq<Record>): seq<seq<byte>> {
    if records == [] then [] else [Window(records[0])] + Windows(records[1..])
  }

  /** The value belongs to the message: it is not an optional one that the input does not have. */
  predicate Compared(f: Field, records: seq<Record>) {
    f.htype.Required? || f.sizeOffset == 0 || records != []
  }

  /** The cell of a nested message that the input has */
  function NestedCell(f: Field, cells: seq<Cell>): Cell {
    if f.htype.Optional? && f.sizeOffset != 0 then Opt(true, VMsg(cells)) else One(VMsg(cells))
  }

  lemma NestedStep(f: Field, r: Record, c: Cell)
    requires Nested(f) && f.ptr.Sub? && r.field == f && Decoded(r, c).Ok?
    ensures var p := DecMessage(f.ptr.fields, Window(r), CellsOf(CellValue(c)));
      p.Ok? && Step(r, c) == NestedCell(f, p.val)
  {
    hide DecValue, DecString, DecMessage;
    SubmessageValue(f, r.bytes, CellValue(c));
  }

  /** The records of a nested message decode its parts, one after the other. */
  lemma {:induction false} NestedFold(f: Field, records: seq<Record>, c: Cell)
    requires Nested(f) && f.ptr.Sub? && AllOf(records, f) && Steps(records, c)
    ensures var p := DecParts(f.ptr.fields, Windows(records), CellsOf(CellValue(c)));
      p.Some? && (records != [] ==> Fold(records, c) == NestedCell(f, p.value))
    decreases |records|
  {
    hide DecCell, DecString, DecMessage, Decoded, Step;
    if records != [] {
      NestedStep(f, records[0], c);
      NestedFold(f, records[1..], Step(records[0], c));
      assert Windows(records)[1..] == Windows(records[1..]);
      if records[1..] == [] {
        FoldNone(Step(records[0], c));
      }
    }
  }

  /** The cell of a nested message after some records */
  function NestedFinal(f: Field, records: seq<Record>, cells: seq<Cell>): Cell {
    if records == [] && f.htype.Optional? && f.sizeOffset != 0 then Opt(false, VMsg(cells)) else NestedCell(f, cells)
  }

  lemma NestedDefault(f: Field, c: Cell)
    requires Nested(f) && f.ptr.Sub? && CellShape(f, c)
    ensures var cells := SetDefaults(f.ptr.fields, CellsOf(CellValue(c)));
      && CellsOf(CellValue(SetDefault(f, c))) == cells && Shape(f.ptr.fields, CellsOf(CellValue(c)))
      && SetDefault(f, c) ==
         (if f.htype.Optional? && f.sizeOffset != 0 then Opt(false, VMsg(cells)) else One(VMsg(cells)))
  {
  }

  lemma NoWindows()
    ensures Windows([]) == []
  {
  }

  /** What a nested message field comes to */
  lemma NestedOutcome(f: Field, records: seq<Record>, z: Cell, c: Cell)
    requires Ran(f, records, z) && Nested(f) && f.ptr.Sub? && CellShape(f, c)
    ensures var p := DecParts(f.ptr.fields, Windows(records), SetDefaults(f.ptr.fields, CellsOf(CellValue(c))));
      && p.Some?
      && Fold(records, SetDefault(f, c)) == NestedFinal(f, records, p.value)
  {
    hide Fold, Steps, DecParts, SetDefaults, WellFormedField, GoodDefault, GoodCell, Shape, Windows;
    RanAnywhere(f, records, z, c, 0);
    OneofTag(f);
    NestedDefault(f, c);
    NestedFold(f, records, SetDefault(f, c));
    if records == [] {
      FoldNone(SetDefault(f, c));
      NoParts(f.ptr.fields, SetDefaults(f.ptr.fields, CellsOf(CellValue(c))));
      assert Windows(records) == [] by { NoWindows(); }
    }
  }

  /** The parts of a nested message, and each element of an array, are accepted by themselves. */
  lemma PartsAccepted(f: Field, records: seq<Record>, z: Cell)
    requires Ran(f, records, z) && f.ptr.Sub?
    ensures GoodTable(f.ptr.fields)
    ensures Nested(f) ==> Accepts(f.ptr.fields, Windows(records))
  {
    hide Fold, Steps, DecParts, SetDefaults, GoodCell, Shape, Windows, WellFormed, GoodDefaults, ZeroCells;
    SubTable(f);
    var sub := f.ptr.fields;
    ZeroShape(sub);
    assert FreshMessage(sub) == SetDefaults(sub, ZeroCells(sub, |sub|));
    if Nested(f) {
      NestedOutcome(f, records, z, NestedFinal(f, [], ZeroCells(sub, |sub|)));
    }
  }
}
