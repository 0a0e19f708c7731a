/**
  pb_decode forgets what the struct held before, except in fixed-count arrays that the input does
  not mention. Here is, for every accepted input, exactly when the message it leaves is the same in
  any two structs.
 */
module Forgetting {
  import opened Wire
  import opened Descriptors
  import opened DecoderSpec
  import opened Logical
  import opened Defaults
  import opened GoodStructs
  import opened Invariant
  import opened Verdict
  import opened History
  import opened Outcomes

  // ---- The condition, in terms of the input ----

  /** Setting defaults leaves something of what the array held. */
  ghost predicate Remembers(f: Field) {
    exists c, d :: CellShape(f, c) && CellShape(f, d) && !SameCell(f, SetDefault(f, c), SetDefault(f, d))
  }

  /** Element k comes once, and lies behind the bytes that are zeroed as a counter. */
  ghost predicate OnceBehind(f: Field, records: seq<Record>, k: nat) {
    && k < |records| && records[k].n * f.dataSize >= BYTES_HEADER
    && forall j | 0 <= j < |records| && j != k :: records[j].n != records[k].n
  }

  /**
    Everything that could be old has been overwritten: each fixed-count array that remembers is
    met, in nested messages in some part of them, and in each element of an array by itself. If not
    every element of fixed-count arrays is meant, only those that come once, behind the zeroed bytes.
   */
  ghost predicate Overwritten(fields: seq<Field>, parts: seq<seq<byte>>, every: bool := true)
    decreases fields
  {
    forall i | 0 <= i < |fields| ::
      FieldOverwritten(fields[i], At(PartRecords(fields, parts, FreshMessage(fields)), Slot(fields, i)), every)
  }

  ghost predicate FieldOverwritten(f: Field, records: seq<Record>, every: bool := true)
    decreases f
  {
    && (f.FixedCount() && Remembers(f) ==> records != [])
    && (f.ptr.Sub? && Nested(f) && Compared(f, records) ==> Overwritten(f.ptr.fields, Windows(records), every))
    && (f.ptr.Sub? && f.htype.Repeated? ==>
          forall k | 0 <= k < |records| && !Superseded(f, records, k) && (every || Meant(f, records, k)) ::
            Overwritten(f.ptr.fields, [Window(records[k])], every))
  }

  ghost predicate Meant(f: Field, records: seq<Record>, k: nat) {
    f.FixedCount() ==> OnceBehind(f, records, k)
  }

  /** No fixed-count array remembers, except inside the messages of a union. */
  ghost predicate Forgetful(fields: seq<Field>)
    decreases fields
  {
    forall i | 0 <= i < |fields| :: ForgetfulField(fields[i])
  }

  ghost predicate ForgetfulField(f: Field)
    decreases f
  {
    !(f.FixedCount() && Remembers(f)) && (f.ptr.Sub? && !f.htype.Oneof? ==> Forgetful(f.ptr.fields))
  }

  lemma {:induction false} ForgetfulOverwritten(fields: seq<Field>, parts: seq<seq<byte>>)
    requires Forgetful(fields)
    ensures Overwritten(fields, parts)
    decreases fields
  {
    hide At, PartRecords, Remembers;
    forall i | 0 <= i < |fields|
      ensures FieldOverwritten(fields[i], At(PartRecords(fields, parts, FreshMessage(fields)), Slot(fields, i)))
    {
      ForgetfulFieldOverwritten(fields[i], At(PartRecords(fields, parts, FreshMessage(fields)), Slot(fields, i)));
    }
  }

  lemma {:induction false} ForgetfulFieldOverwritten(f: Field, records: seq<Record>)
    requires ForgetfulField(f)
    ensures FieldOverwritten(f, records)
    decreases f
  {
    hide Remembers, Window, Windows;
    if f.ptr.Sub? && !f.htype.Oneof? {
      ForgetfulOverwritten(f.ptr.fields, Windows(records));
      forall k | 0 <= k < |records|
        ensures Overwritten(f.ptr.fields, [Window(records[k])])
      {
        ForgetfulOverwritten(f.ptr.fields, [Window(records[k])]);
      }
    }
  }

  // ---- Independence of the old contents, for messages and for cells ----

  /** Two structs set to defaults end up as the same message. */
  ghost predicate SameOutcome(fields: seq<Field>, parts: seq<seq<byte>>, a: seq<Cell>, b: seq<Cell>) {
    var p, q := DecParts(fields, parts, SetDefaults(fields, a)), DecParts(fields, parts, SetDefaults(fields, b));
    p.Some? == q.Some? && (p.Some? ==> SameMessage(fields, p.value, q.value))
  }

  ghost predicate Independent(fields: seq<Field>, parts: seq<seq<byte>>) {
    forall a, b :: Shape(fields, a) && Shape(fields, b) ==> SameOutcome(fields, parts, a, b)
  }

  ghost predicate SameOutcomeCell(f: Field, records: seq<Record>, c: Cell, d: Cell) {
    SameCell(f, Fold(records, SetDefault(f, c)), Fold(records, SetDefault(f, d)))
  }

  ghost predicate CellIndependent(f: Field, records: seq<Record>) {
    forall c, d :: CellShape(f, c) && CellShape(f, d) ==> SameOutcomeCell(f, records, c, d)
  }

  /** If the outcome of every cell is independent, so is the message. */
  lemma CellsSuffice(fields: seq<Field>, parts: seq<seq<byte>>)
    requires GoodTable(fields) && Accepts(fields, parts)
    requires forall i | 0 <= i < |fields| :: CellIndependent(fields[i], FieldRecords(fields, parts, i))
    ensures Independent(fields, parts)
  {
    hide GoodTable, Shape, CellShape, DecParts, FieldRecords, SameCell, SetDefaults, SetDefault, Fold, Steps;
    hide Slot, Accepts;
    forall a, b | Shape(fields, a) && Shape(fields, b)
      ensures SameOutcome(fields, parts, a, b)
    {
      var p, q := DecParts(fields, parts, SetDefaults(fields, a)), DecParts(fields, parts, SetDefaults(fields, b));
      BothAccept(fields, parts, a, b);
      forall i | 0 <= i < |fields|
        ensures SameCell(fields[i], CellAt(p.value, Slot(fields, i)), CellAt(q.value, Slot(fields, i)))
      {
        OutcomeCell(fields, parts, a, i);
        OutcomeCell(fields, parts, b, i);
        ShapeAt(fields, a, i);
        ShapeAt(fields, b, i);
        var c, d := CellAt(a, Slot(fields, i)), CellAt(b, Slot(fields, i));
        assert SameOutcomeCell(fields[i], FieldRecords(fields, parts, i), c, d);
      }
    }
  }

  /** A struct of zeros, but for the cell of field i */
  lemma Refilled(fields: seq<Field>, i: nat, c: Cell) returns (a: seq<Cell>)
    requires WellFormed(fields) && i < |fields| && !fields[i].htype.Oneof? && CellShape(fields[i], c)
    ensures Shape(fields, a) && CellAt(a, Slot(fields, i)) == c
  {
    var zero := ZeroCells(fields, |fields|);
    ZeroShape(fields);
    SlotInRange(fields, i);
    a := zero[Slot(fields, i) := c];
    forall j | 0 <= j < |fields|
      ensures CellShape(fields[j], CellAt(a, Slot(fields, j)))
    {
      if j != i && Slot(fields, j) == Slot(fields, i) {
        SlotShared(fields, i, j);
      }
    }
  }

  /** If the message is independent, so is the outcome of every cell that is no union. */
  lemma CellNeeded(fields: seq<Field>, parts: seq<seq<byte>>, i: nat)
    requires GoodTable(fields) && Accepts(fields, parts) && Independent(fields, parts)
    requires i < |fields| && !fields[i].htype.Oneof?
    ensures CellIndependent(fields[i], FieldRecords(fields, parts, i))
  {
    hide WellFormed, GoodDefaults, Shape, CellShape, DecParts, FieldRecords, SameCell, SetDefaults, SetDefault;
    hide Fold, Steps, Slot, Accepts;
    var f := fields[i];
    forall c, d | CellShape(f, c) && CellShape(f, d)
      ensures SameOutcomeCell(f, FieldRecords(fields, parts, i), c, d)
    {
      var a := Refilled(fields, i, c);
      var b := Refilled(fields, i, d);
      assert SameOutcome(fields, parts, a, b);
      OutcomeCell(fields, parts, a, i);
      OutcomeCell(fields, parts, b, i);
    }
  }

  // ---- Cells that are always forgotten ----

  lemma {:induction false} SameStart(data: seq<byte>, s: seq<byte>, t: seq<byte>)
    ensures CString(data + [0] + s) == CString(data + [0] + t)
    decreases |data|
  {
    var a, b := data + [0] + s, data + [0] + t;
    if data != [] && data[0] != 0 {
      assert a[1..] == data[1..] + [0] + s && b[1..] == data[1..] + [0] + t;
      SameStart(data[1..], s, t);
      assert CString(a) == [a[0]] + CString(a[1..]);
      assert CString(b) == [b[0]] + CString(b[1..]);
    }
  }

  lemma WriteStringSame(p: Value, q: Value, data: seq<byte>, size: nat)
    requires |data| < size
    ensures CString(WriteString(p, data, size)) == CString(WriteString(q, data, size))
  {
    hide CString;
    var a, b := WriteString(p, data, size), WriteString(q, data, size);
    SameStart(data, a[|data| + 1..], b[|data| + 1..]);
    assert a == data + [0] + a[|data| + 1..];
    assert b == data + [0] + b[|data| + 1..];
  }

  /** A scalar that is decoded is the same whatever was there. */
  lemma ScalarSame(f: Field, bs: seq<byte>, p: Value, q: Value)
    requires !f.ltype.LSubmessage?
    ensures DecValue(f, bs, p).Ok? == DecValue(f, bs, q).Ok?
    ensures DecValue(f, bs, p).Ok? ==> SameValue(f, DecValue(f, bs, p).val, DecValue(f, bs, q).val)
  {
    hide DecVarint32, DecSignedField, DecUnsignedField, DecZigzagField, DecFixed32, DecFixed64, DecBytes;
    hide DecFixedBytes;
    hide CString, WriteString;
    if f.ltype.LString? && DecValue(f, bs, p).Ok? {
      var Ok(size, rest) := DecVarint32(bs);
      WriteStringSame(p, q, rest[..size], f.dataSize);
    }
  }

  /** Two states of a union that mean the same to member f */
  ghost predicate SameMember(f: Field, c: Cell, d: Cell) {
    c.Union? && d.Union? && c.which == d.which && (Selected(f, c) ==> SameValue(f, c.v, d.v))
  }

  lemma MemberSame(f: Field, bs: seq<byte>, c: Cell, d: Cell)
    requires WellFormedField(f) && GoodDefault(f) && f.htype.Oneof?
    ensures var p, q := DecValue(f, bs, OneofTarget(f, c)), DecValue(f, bs, OneofTarget(f, d));
      p.Ok? == q.Ok? && (p.Ok? ==> SameValue(f, p.val, q.val))
  {
    hide DecValue, SameValue, GoodValue, WellFormed, GoodDefaults, FreshMessage, ValueShape;
    if f.ltype.LSubmessage? {
      if DecValue(f, bs, OneofTarget(f, c)).Ok? {
        FreshMessageGood(f.ptr.fields);
        DecValueGood(f, bs, OneofTarget(f, c));
        GoodValueShape(f, DecValue(f, bs, OneofTarget(f, c)).val);
        SameValueReflexive(f, DecValue(f, bs, OneofTarget(f, c)).val);
      }
    } else {
      ScalarSame(f, bs, OneofTarget(f, c), OneofTarget(f, d));
    }
  }

  lemma MemberStep(f: Field, r: Record, c: Cell, d: Cell)
    requires SameMember(f, c, d)
    requires var g := r.field; g.htype.Oneof? && WellFormedField(g) && GoodDefault(g) && (g.tag == f.tag ==> g == f)
    ensures SameMember(f, Step(r, c), Step(r, d))
  {
    hide DecValue, SameValue, OneofTarget, WellFormedField, GoodDefault;
    MemberSame(r.field, r.bytes, c, d);
  }

  lemma {:induction false} MembersFold(f: Field, records: seq<Record>, c: Cell, d: Cell)
    requires AllMembers(records, f) && SameMember(f, c, d)
    ensures SameMember(f, Fold(records, c), Fold(records, d))
    decreases |records|
  {
    hide Step, SameMember, WellFormedField, GoodDefault;
    if records != [] {
      MemberStep(f, records[0], c, d);
      MembersFold(f, records[1..], Step(records[0], c), Step(records[0], d));
    }
  }

  lemma UnionIndependent(f: Field, records: seq<Record>)
    requires f.htype.Oneof? && 1 <= f.tag && AllMembers(records, f)
    ensures CellIndependent(f, records)
  {
    hide Fold, SameValue;
    forall c, d | CellShape(f, c) && CellShape(f, d)
      ensures SameOutcomeCell(f, records, c, d)
    {
      MembersFold(f, records, SetDefault(f, c), SetDefault(f, d));
    }
  }

  lemma SingleIndependent(f: Field, records: seq<Record>)
    requires WellFormedField(f) && GoodDefault(f) && AllOf(records, f)
    requires !f.htype.Oneof? && !f.htype.Repeated? && !f.ltype.LSubmessage?
    ensures CellIndependent(f, records)
  {
    hide Fold, SameCell, GoodCell, WellFormedField, GoodDefault;
    forall c, d | CellShape(f, c) && CellShape(f, d)
      ensures SameOutcomeCell(f, records, c, d)
    {
      assert SetDefault(f, c) == SetDefault(f, d) by { ScalarDefault(f, c, d); }
      SetDefaultGood(f, c);
      FoldGood(f, records, SetDefault(f, c));
      GoodCellShape(f, Fold(records, SetDefault(f, c)));
      SameCellReflexive(f, Fold(records, SetDefault(f, c)));
    }
  }

  lemma ScalarDefault(f: Field, c: Cell, d: Cell)
    requires !f.htype.Oneof? && !f.htype.Repeated? && !f.ltype.LSubmessage?
    ensures SetDefault(f, c) == SetDefault(f, d)
  {
  }

  lemma GoodCellShape(f: Field, c: Cell)
    requires GoodCell(f, c) && !f.htype.Oneof?
    ensures CellShape(f, c)
  {
    hide GoodValue, ValueShape;
    if !f.htype.Repeated? {
      GoodValueShape(f, c.v);
    }
  }

  // ---- Arrays ----

  ghost function Same(f: Field): (Value, Value) -> bool {
    (v, w) => SameValue(f, v, w)
  }

  lemma RelatedSame(f: Field, c: Cell, d: Cell, n: nat)
    requires RelatedCells(f, Same(f), c, d, n) && f.htype.Repeated? && (f.FixedCount() ==> n == f.arraySize)
    ensures SameCell(f, c, d)
  {
    hide SameValue, ValueShape;
    assert forall v, w :: Same(f)(v, w) == SameValue(f, v, w);
  }

  /** An array whose elements do not depend on what they replace is forgotten, once it is met. */
  lemma ArrayForgotten(f: Field, records: seq<Record>, z: Cell)
    requires Ran(f, records, z) && f.htype.Repeated? && AllRenewed(f, records, Same(f))
    requires f.FixedCount() ==> records != []
    ensures CellIndependent(f, records)
  {
    hide WellFormedField, GoodDefault, GoodCell, CellShape, SetDefault, Steps, Fold, Chained, EndOf, SameCell;
    hide RelatedCells;
    forall c, d | CellShape(f, c) && CellShape(f, d)
      ensures SameOutcomeCell(f, records, c, d)
    {
      RanAnywhere(f, records, z, c, 0);
      RanAnywhere(f, records, z, d, 0);
      EmptyRelated(f, c, d, Same(f));
      RelatedFold(f, records, SetDefault(f, c), SetDefault(f, d), 0, Same(f));
      var n := Filled(f, records, SetDefault(f, c), 0);
      RelatedSame(f, Fold(records, SetDefault(f, c)), Fold(records, SetDefault(f, d)), n);
    }
  }

  lemma ScalarRenewed(f: Field, bs: seq<byte>)
    requires !f.ltype.LSubmessage?
    ensures Renewed(f, bs, Same(f))
  {
    hide DecValue, SameValue, ValueShape;
    forall w, p, q | DecValue(f, w, p).Ok? && DecValue(f, w, q).Ok?
      ensures Same(f)(DecValue(f, w, p).val, DecValue(f, w, q).val)
    {
      ScalarSame(f, w, p, q);
    }
  }

  lemma ScalarsRenewed(f: Field, records: seq<Record>)
    requires !f.ltype.LSubmessage?
    ensures AllRenewed(f, records, Same(f))
  {
    hide Renewed;
    forall k | 0 <= k < |records|
      ensures Renewed(f, records[k].bytes, Same(f))
    {
      ScalarRenewed(f, records[k].bytes);
    }
  }

  /** A fixed-count array that is not met is independent exactly if it does not remember. */
  lemma UnmetArray(f: Field)
    requires f.FixedCount()
    ensures CellIndependent(f, []) <==> !Remembers(f)
  {
    hide CellShape, SetDefault, SameCell, Fold;
    forall c, d
      ensures SameOutcomeCell(f, [], c, d) == SameCell(f, SetDefault(f, c), SetDefault(f, d))
    {
      FoldNone(SetDefault(f, c));
      FoldNone(SetDefault(f, d));
    }
    if !Remembers(f) {
      forall c, d | CellShape(f, c) && CellShape(f, d)
        ensures SameOutcomeCell(f, [], c, d)
      {
      }
    } else {
      var c, d :| CellShape(f, c) && CellShape(f, d) && !SameCell(f, SetDefault(f, c), SetDefault(f, d));
      assert !SameOutcomeCell(f, [], c, d);
    }
  }

  // ---- Elements that are messages ----

  /** An array of messages is independent if the last record of each element is. */
  lemma MessagesForgotten(f: Field, records: seq<Record>, z: Cell)
    requires Ran(f, records, z) && f.ptr.Sub? && f.htype.Repeated? && (f.FixedCount() ==> records != [])
    requires forall k | 0 <= k < |records| && !Superseded(f, records, k) ::
      Independent(f.ptr.fields, [Window(records[k])])
    ensures CellIndependent(f, records)
  {
    hide WellFormedField, GoodDefault, GoodCell, CellShape, SetDefault, Steps, Fold, FixedEnds, SameValue;
    hide Independent;
    hide Superseded, Target, CountOf, SameCell;
    forall c, d | CellShape(f, c) && CellShape(f, d)
      ensures SameOutcomeCell(f, records, c, d)
    {
      var x, y := Fold(records, SetDefault(f, c)), Fold(records, SetDefault(f, d));
      RanDefault(f, records, z, c);
      RanDefault(f, records, z, d);
      forall at | 0 <= at < SentCount(f, x) && at < |CellItems(x)| && at < |CellItems(y)|
        ensures SameValue(f, CellItems(x)[at], CellItems(y)[at])
      {
        var k := WriterOf(f, records, SetDefault(f, c), at);
        SameElement(f, records, SetDefault(f, c), SetDefault(f, d), k);
      }
      SameArrays(f, records, x, y);
    }
  }

  lemma RanDefault(f: Field, records: seq<Record>, z: Cell, c: Cell)
    requires Ran(f, records, z) && CellShape(f, c) && f.ptr.Sub? && f.htype.Repeated?
    ensures var d := SetDefault(f, c);
      && Steps(records, d) && GoodCell(f, d) && CountOf(d) == 0
      && (f.FixedCount() ==> FixedEnds(f, records, d, 0))
      && GoodCell(f, Fold(records, d)) && (!f.FixedCount() ==> CountOf(Fold(records, d)) == |records|)
  {
    hide WellFormedField, GoodDefault, GoodCell, CellShape, SetDefault, Steps, Fold, FixedEnds, CountOf;
    RanAnywhere(f, records, z, c, 0);
    EmptyArray(f, c);
    FoldGood(f, records, SetDefault(f, c));
    if !f.FixedCount() {
      CountAdvances(f, records, SetDefault(f, c));
    }
  }

  lemma SameArrays(f: Field, records: seq<Record>, x: Cell, y: Cell)
    requires f.htype.Repeated? && GoodCell(f, x) && GoodCell(f, y)
    requires !f.FixedCount() ==> CountOf(x) == CountOf(y)
    requires forall at | 0 <= at < SentCount(f, x) && at < |CellItems(x)| && at < |CellItems(y)| ::
      SameValue(f, CellItems(x)[at], CellItems(y)[at])
    ensures SameCell(f, x, y)
  {
    hide SameValue, ValueShape, GoodValue;
    CountedArray(f, x, false);
    CountedArray(f, y, false);
    assert SameItems(f, CellItems(x), CellItems(y), SentCount(f, x));
  }

  lemma SameElement(f: Field, records: seq<Record>, c: Cell, d: Cell, k: nat)
    requires WellFormedField(f) && GoodDefault(f) && f.ptr.Sub? && f.htype.Repeated? && AllOf(records, f)
    requires GoodCell(f, c) && Steps(records, c) && CountOf(c) == 0
    requires GoodCell(f, d) && Steps(records, d) && CountOf(d) == 0
    requires k < |records| && !Superseded(f, records, k) && Independent(f.ptr.fields, [Window(records[k])])
    ensures var at := Target(f, records, k);
      && at < |CellItems(Fold(records, c))| && at < |CellItems(Fold(records, d))|
      && SameValue(f, CellItems(Fold(records, c))[at], CellItems(Fold(records, d))[at])
  {
    hide DecValue, SameMessage, DecParts, SetDefaults, Shape, WellFormedField, GoodDefault, GoodCell, Steps, Fold;
    hide Superseded, Target, CountOf, Replaced;
    ElementOutcome(f, records, c, k);
    ElementOutcome(f, records, d, k);
    SubmessageField(f);
    var p, q := Replaced(f, records, c, k), Replaced(f, records, d, k);
    PriorCells(f, p);
    PriorCells(f, q);
    ElementValue(f, records[k].bytes, p);
    ElementValue(f, records[k].bytes, q);
    assert SameOutcome(f.ptr.fields, [Window(records[k])], p.cells, q.cells);
  }

  /** If the array is independent, each of its elements is. */
  lemma ElementNeeded(f: Field, records: seq<Record>, z: Cell, k: nat)
    requires Ran(f, records, z) && f.ltype.LSubmessage? && f.ptr.Sub? && f.htype.Repeated? && f.sizeOffset != 0
    requires CellIndependent(f, records) && k < |records|
    ensures Independent(f.ptr.fields, [Window(records[k])])
  {
    hide DecValue, SameMessage, DecParts, DecString, SetDefaults, Shape, WellFormedField, GoodDefault, Fold;
    hide Steps, GoodCell;
    var sub := f.ptr.fields;
    forall x, y | Shape(sub, x) && Shape(sub, y)
      ensures SameOutcome(sub, [Window(records[k])], x, y)
    {
      var v := ElementOf(f, records, z, k, x);
      var w := ElementOf(f, records, z, k, y);
      assert SameOutcomeCell(f, records, v.0, w.0);
      assert SameItems(f, v.1, w.1, |records|);
      assert SameValue(f, v.1[k], w.1[k]);
    }
  }

  /** The array with element k holding x before, and what becomes of it */
  lemma ElementOf(f: Field, records: seq<Record>, z: Cell, k: nat, x: seq<Cell>) returns (r: (Cell, seq<Value>))
    requires Ran(f, records, z) && f.ltype.LSubmessage? && f.ptr.Sub? && f.htype.Repeated? && f.sizeOffset != 0
    requires k < |records| && Shape(f.ptr.fields, x)
    ensures CellShape(f, r.0) && Fold(records, SetDefault(f, r.0)) == Arr(|records|, r.1) && k < |r.1|
    ensures var p := DecParts(f.ptr.fields, [Window(records[k])], SetDefaults(f.ptr.fields, x));
      p.Some? && r.1[k] == VMsg(p.value)
  {
    hide DecValue, DecParts, DecString, SetDefaults, Shape, WellFormedField, GoodDefault, Fold, Steps, GoodCell;
    hide CellShape, SetDefault, FixedEnds;
    var items := seq(f.arraySize, _ => VMsg(x));
    var c := Arr(0, items);
    UniformArray(f, x, items);
    RanAnywhere(f, records, z, c, 0);
    var out := CounterFold(f, records, 0, items);
    assert k < |out| && items[0 + k] == VMsg(x) && out[0 + k] == DecValue(f, records[k].bytes, items[0 + k]).val;
    ElementValue(f, records[k].bytes, items[k]);
    r := (c, out);
  }

  /** If a fixed-count array is independent, so are such elements of it. */
  lemma ElementBehindNeeded(f: Field, records: seq<Record>, z: Cell, k: nat)
    requires Ran(f, records, z) && f.ptr.Sub? && f.FixedCount() && CellIndependent(f, records)
    requires OnceBehind(f, records, k)
    ensures Independent(f.ptr.fields, [Window(records[k])])
  {
    hide DecValue, SameMessage, DecParts, DecString, SetDefaults, Shape, WellFormedField, GoodDefault, Fold, Steps;
    hide GoodCell, CellShape, SetDefault, FixedEnds;
    var sub, at := f.ptr.fields, records[k].n;
    SubmessageField(f);
    forall x, y | Shape(sub, x) && Shape(sub, y)
      ensures SameOutcome(sub, [Window(records[k])], x, y)
    {
      var c := BehindOf(f, records, z, k, x);
      var d := BehindOf(f, records, z, k, y);
      assert SameOutcomeCell(f, records, c, d);
      SameFixedItem(f, Fold(records, SetDefault(f, c)), Fold(records, SetDefault(f, d)), at);
    }
  }

  lemma SameFixedItem(f: Field, c: Cell, d: Cell, at: nat)
    requires f.FixedCount() && SameCell(f, c, d) && at < f.arraySize && at < |CellItems(c)|
    ensures at < |CellItems(d)| && SameValue(f, CellItems(c)[at], CellItems(d)[at])
  {
    hide SameValue;
  }

  /** An array of elements that hold x, and what becomes of element k */
  lemma BehindOf(f: Field, records: seq<Record>, z: Cell, k: nat, x: seq<Cell>) returns (c: Cell)
    requires Ran(f, records, z) && f.ptr.Sub? && f.FixedCount() && OnceBehind(f, records, k) && Shape(f.ptr.fields, x)
    ensures CellShape(f, c)
    ensures var p := DecParts(f.ptr.fields, [Window(records[k])], SetDefaults(f.ptr.fields, x));
      var items := CellItems(Fold(records, SetDefault(f, c)));
      p.Some? && records[k].n < f.arraySize == |items| && items[records[k].n] == VMsg(p.value)
  {
    hide DecValue, DecParts, DecString, SetDefaults, Shape, WellFormedField, GoodDefault, Fold, Steps, GoodCell;
    hide CellShape, SetDefault, FixedEnds, CountOf;
    OneofTag(f);
    c := Fix(seq(f.arraySize, _ => VMsg(x)));
    var d := SetDefault(f, c);
    FixedUniform(f, x, c);
    RanDefault(f, records, z, c);
    ElementOutcome(f, records, d, k);
    BehindKept(f, records, c, k);
    ElementValue(f, records[k].bytes, VMsg(x));
  }

  lemma FixedUniform(f: Field, x: seq<Cell>, c: Cell)
    requires f.ltype.LSubmessage? && f.ptr.Sub? && f.FixedCount() && Shape(f.ptr.fields, x)
    requires c == Fix(seq(f.arraySize, _ => VMsg(x)))
    ensures CellShape(f, c)
  {
    hide Shape;
  }

  /** What element k replaces is what it was. */
  lemma BehindKept(f: Field, records: seq<Record>, c: Cell, k: nat)
    requires WellFormedField(f) && GoodDefault(f) && f.ptr.Sub? && f.FixedCount() && AllOf(records, f) && c.Fix?
    requires GoodCell(f, SetDefault(f, c)) && Steps(records, SetDefault(f, c)) && OnceBehind(f, records, k)
    requires records[k].n < f.arraySize == |c.items|
    ensures Replaced(f, records, SetDefault(f, c), k) == c.items[records[k].n]
  {
    hide DecValue, WellFormedField, GoodDefault, Fold, Steps, GoodCell, ValueShape, ZeroValue, GoodValue, StartZeroed;
    var d := SetDefault(f, c);
    BehindStays(f, c.items, records[k].n);
    SplitAt(records, d, k);
    Untouched(f, records[..k], d, records[k].n);
  }

  lemma BehindStays(f: Field, items: seq<Value>, at: nat)
    requires at < |items| && at * f.dataSize >= BYTES_HEADER
    ensures |ZERO_START(f, items)| == |items| && ZERO_START(f, items)[at] == items[at]
  {
    hide ValueShape, ZeroValue, GoodValue;
    ZeroStartKeeps(f, items);
  }

  lemma UniformArray(f: Field, x: seq<Cell>, items: seq<Value>)
    requires f.ltype.LSubmessage? && f.ptr.Sub? && f.htype.Repeated? && f.sizeOffset != 0 && Shape(f.ptr.fields, x)
    requires |items| == f.arraySize && forall k | 0 <= k < |items| :: items[k] == VMsg(x)
    ensures CellShape(f, Arr(0, items)) && SetDefault(f, Arr(0, items)) == Arr(0, items)
  {
    hide Shape;
  }

  // ---- Nested messages ----

  lemma NestedSame(f: Field, records: seq<Record>, x: seq<Cell>, y: seq<Cell>)
    requires Nested(f) && f.ptr.Sub? && (f.htype.Required? ==> f.sizeOffset == 0)
    ensures SameCell(f, NestedFinal(f, records, x), NestedFinal(f, records, y)) <==>
      (Compared(f, records) ==> SameMessage(f.ptr.fields, x, y))
  {
  }

  lemma RequiredHasNoFlag(f: Field)
    requires WellFormedField(f)
    ensures f.htype.Required? ==> f.sizeOffset == 0
  {
  }

  /** A nested message field is independent exactly if the message is, when it belongs to the outcome. */
  lemma NestedExactly(f: Field, records: seq<Record>, z: Cell)
    requires Ran(f, records, z) && Nested(f) && f.ptr.Sub?
    ensures CellIndependent(f, records) <==> (Compared(f, records) ==> Independent(f.ptr.fields, Windows(records)))
  {
    hide Fold, Steps, DecParts, SetDefaults, WellFormedField, GoodDefault, GoodCell, Shape, Windows;
    hide SameMessage, SameCell, SetDefault;
    var sub, parts := f.ptr.fields, Windows(records);
    RequiredHasNoFlag(f);
    if CellIndependent(f, records) && Compared(f, records) {
      forall x, y | Shape(sub, x) && Shape(sub, y)
        ensures SameOutcome(sub, parts, x, y)
      {
        var c, d := NestedFinal(f, [], x), NestedFinal(f, [], y);
        assert CellShape(f, c) && CellShape(f, d) by { OneofTag(f); }
        assert SameOutcomeCell(f, records, c, d);
        NestedOutcome(f, records, z, c);
        NestedOutcome(f, records, z, d);
        NestedSame(f, records, DecParts(sub, parts, SetDefaults(sub, x)).value,
          DecParts(sub, parts, SetDefaults(sub, y)).value);
      }
    }
    if Compared(f, records) ==> Independent(sub, parts) {
      forall c, d | CellShape(f, c) && CellShape(f, d)
        ensures SameOutcomeCell(f, records, c, d)
      {
        NestedOutcome(f, records, z, c);
        NestedOutcome(f, records, z, d);
        NestedDefault(f, c);
        NestedDefault(f, d);
        if Compared(f, records) {
          assert SameOutcome(sub, parts, CellsOf(CellValue(c)), CellsOf(CellValue(d)));
        }
        NestedSame(f, records, DecParts(sub, parts, SetDefaults(sub, CellsOf(CellValue(c)))).value,
          DecParts(sub, parts, SetDefaults(sub, CellsOf(CellValue(d)))).value);
      }
    }
  }

  // ---- Overwritten input is forgotten ----

  lemma {:induction false} OverwrittenForgets(fields: seq<Field>, parts: seq<seq<byte>>)
    requires GoodTable(fields) && Accepts(fields, parts) && Overwritten(fields, parts)
    ensures Independent(fields, parts)
    decreases fields, 1
  {
    hide GoodTable, Accepts, FieldOverwritten, Independent, CellIndependent, Ran, AllMembers, At, PartRecords, Slot;
    hide WellFormedField, GoodDefault;
    forall i | 0 <= i < |fields|
      ensures CellIndependent(fields[i], FieldRecords(fields, parts, i))
    {
      var f, records := fields[i], FieldRecords(fields, parts, i);
      var z := RanField(fields, parts, i);
      assert FieldOverwritten(f, records);
      if f.htype.Oneof? {
        OneofTag(f);
        UnionIndependent(f, records);
      } else {
        FieldForgets(f, records, z);
      }
    }
    CellsSuffice(fields, parts);
  }

  lemma {:induction false} FieldForgets(f: Field, records: seq<Record>, z: Cell)
    requires Ran(f, records, z) && FieldOverwritten(f, records)
    ensures CellIndependent(f, records)
    decreases f, 2
  {
    hide CellIndependent, Independent, Overwritten, Remembers, Steps, SetDefault, CellShape, FixedEnds;
    hide WellFormedField, GoodDefault, AllRenewed;
    OneofTag(f);
    if f.ptr.Sub? {
      PartsAccepted(f, records, z);
    }
    if f.FixedCount() && records == [] {
      UnmetArray(f);
    } else if f.htype.Repeated? {
      if f.ptr.Sub? {
        forall k | 0 <= k < |records| && !Superseded(f, records, k)
          ensures Independent(f.ptr.fields, [Window(records[k])])
        {
          ElementsForget(f, records, z, k);
        }
        MessagesForgotten(f, records, z);
      } else {
        ScalarsRenewed(f, records);
        ArrayForgotten(f, records, z);
      }
    } else if f.ptr.Sub? {
      if Compared(f, records) {
        OverwrittenForgets(f.ptr.fields, Windows(records));
      }
      NestedExactly(f, records, z);
    } else {
      SingleIndependent(f, records);
    }
  }

  lemma {:induction false} ElementsForget(f: Field, records: seq<Record>, z: Cell, k: nat)
    requires Ran(f, records, z) && FieldOverwritten(f, records) && f.ptr.Sub? && f.htype.Repeated?
    requires k < |records| && !Superseded(f, records, k)
    ensures Independent(f.ptr.fields, [Window(records[k])])
    decreases f, 1
  {
    hide Independent, Overwritten, Remembers, Steps, SetDefault, CellShape, FixedEnds, WellFormedField;
    hide GoodDefault, Superseded;
    PartsAccepted(f, records, z);
    ElementAccepted(f, records, z, k);
    OverwrittenForgets(f.ptr.fields, [Window(records[k])]);
  }

  // ---- Forgotten input is overwritten ----

  /** The elements of fixed-count arrays hold no array that remembers. */
  ghost predicate Flat(fields: seq<Field>)
    decreases fields
  {
    forall i | 0 <= i < |fields| :: FlatField(fields[i])
  }

  ghost predicate FlatField(f: Field)
    decreases f
  {
    f.ptr.Sub? ==> if f.FixedCount() then Forgetful(f.ptr.fields) else Flat(f.ptr.fields)
  }

  /** In such tables nothing is asked of those elements, so it does not matter which are meant. */
  lemma {:induction false} FlatOverwritten(fields: seq<Field>, parts: seq<seq<byte>>)
    requires Flat(fields) && Overwritten(fields, parts, false)
    ensures Overwritten(fields, parts)
    decreases fields
  {
    hide At, PartRecords, FieldOverwritten, FlatField, Slot, FreshMessage;
    forall i | 0 <= i < |fields|
      ensures FieldOverwritten(fields[i], FieldRecords(fields, parts, i))
    {
      assert FieldOverwritten(fields[i], FieldRecords(fields, parts, i), false);
      FlatFieldOverwritten(fields[i], FieldRecords(fields, parts, i));
    }
  }

  lemma {:induction false} FlatFieldOverwritten(f: Field, records: seq<Record>)
    requires FlatField(f) && FieldOverwritten(f, records, false)
    ensures FieldOverwritten(f, records)
    decreases f
  {
    hide Remembers, Window, Windows, Overwritten, Superseded, Flat, Forgetful;
    if f.ptr.Sub? {
      if Nested(f) && Compared(f, records) {
        FlatOverwritten(f.ptr.fields, Windows(records));
      }
      if f.htype.Repeated? {
        forall k | 0 <= k < |records| && !Superseded(f, records, k)
          ensures Overwritten(f.ptr.fields, [Window(records[k])])
        {
          if f.FixedCount() {
            ForgetfulOverwritten(f.ptr.fields, [Window(records[k])]);
          } else {
            FlatOverwritten(f.ptr.fields, [Window(records[k])]);
          }
        }
      }
    }
  }

  lemma {:induction false} ForgottenOverwrites(fields: seq<Field>, parts: seq<seq<byte>>)
    requires GoodTable(fields) && Accepts(fields, parts) && Independent(fields, parts)
    ensures Overwritten(fields, parts, false)
    decreases fields, 1
  {
    hide GoodTable, Accepts, FieldOverwritten, Independent, CellIndependent, Ran, AllMembers, At, PartRecords, Slot;
    hide WellFormedField, GoodDefault;
    forall i | 0 <= i < |fields|
      ensures FieldOverwritten(fields[i], FieldRecords(fields, parts, i), false)
    {
      var f, records := fields[i], FieldRecords(fields, parts, i);
      var z := RanField(fields, parts, i);
      if f.htype.Oneof? {
        UnionOverwritten(f, records);
      } else {
        CellNeeded(fields, parts, i);
        FieldMustBeOverwritten(f, records, z);
      }
    }
  }

  lemma UnionOverwritten(f: Field, records: seq<Record>)
    requires f.htype.Oneof?
    ensures FieldOverwritten(f, records, false)
  {
  }

  lemma {:induction false} FieldMustBeOverwritten(f: Field, records: seq<Record>, z: Cell)
    requires Ran(f, records, z) && CellIndependent(f, records)
    ensures FieldOverwritten(f, records, false)
    decreases f, 0
  {
    hide CellIndependent, Independent, Overwritten, Remembers, Steps, SetDefault, CellShape, FixedEnds;
    hide WellFormedField, GoodDefault, OnceBehind, Superseded;
    OneofTag(f);
    if f.FixedCount() && records == [] {
      UnmetArray(f);
    }
    if f.ptr.Sub? {
      PartsAccepted(f, records, z);
      if Nested(f) && Compared(f, records) {
        NestedExactly(f, records, z);
        ForgottenOverwrites(f.ptr.fields, Windows(records));
      } else if f.htype.Repeated? {
        forall k | 0 <= k < |records| && !Superseded(f, records, k) && Meant(f, records, k)
          ensures Overwritten(f.ptr.fields, [Window(records[k])], false)
        {
          ElementAccepted(f, records, z, k);
          if f.FixedCount() {
            ElementBehindNeeded(f, records, z, k);
          } else {
            ElementNeeded(f, records, z, k);
          }
          ForgottenOverwrites(f.ptr.fields, [Window(records[k])]);
        }
      }
    }
  }

  // ---- The main results ----

  /** pb_decode gives the same verdict, uses the same bytes and leaves the same message in a and b. */
  ghost predicate DecodesAlike(fields: seq<Field>, bs: seq<byte>, a: seq<Cell>, b: seq<Cell>) {
    var p, q := Decode(fields, bs, a), Decode(fields, bs, b);
    Agree(p, q) && (p.Ok? ==> SameMessage(fields, p.val, q.val))
  }

  /** The input is decoded alike into any two structs. */
  ghost predicate Forgets(fields: seq<Field>, bs: seq<byte>) {
    forall a, b :: Shape(fields, a) && Shape(fields, b) ==> DecodesAlike(fields, bs, a, b)
  }

  lemma DecodeIsOnePart(fields: seq<Field>, bs: seq<byte>)
    requires GoodTable(fields)
    ensures Forgets(fields, bs) <==> Independent(fields, [bs])
  {
    hide GoodTable, Shape, DecMessage, DecParts, SetDefaults, SameMessage;
    forall a, b | Shape(fields, a) && Shape(fields, b)
      ensures DecodesAlike(fields, bs, a, b) <==> SameOutcome(fields, [bs], a, b)
    {
      OnePart(fields, bs, SetDefaults(fields, a));
      OnePart(fields, bs, SetDefaults(fields, b));
      SameVerdict(fields, bs, a, b);
    }
    assert Forgets(fields, bs) ==> forall a, b | Shape(fields, a) && Shape(fields, b) :: DecodesAlike(fields, bs, a, b);
  }

  /** Input that overwrites everything that could be old is forgotten, in every table. */
  lemma OverwritingForgets(fields: seq<Field>, bs: seq<byte>, dest: seq<Cell>)
    requires WellFormed(fields) && GoodDefaults(fields)
    requires Shape(fields, dest) && Decode(fields, bs, dest).Ok? && Overwritten(fields, [bs])
    ensures Forgets(fields, bs)
  {
    hide WellFormed, GoodDefaults, Shape, Decode, Overwritten, Forgets, Independent, Accepts;
    AcceptedIsOnePart(fields, bs, dest);
    OverwrittenForgets(fields, [bs]);
    DecodeIsOnePart(fields, bs);
  }

  /**
    Exactly when pb_decode forgets the old struct: accepted input gives the same message in any
    two structs if and only if each fixed-count array that would keep something of its old
    elements has its tag in the input, where it could be seen in the message.
   */
  lemma ForgetsExactly(fields: seq<Field>, bs: seq<byte>, dest: seq<Cell>)
    requires WellFormed(fields) && GoodDefaults(fields) && Flat(fields)
    requires Shape(fields, dest) && Decode(fields, bs, dest).Ok?
    ensures Forgets(fields, bs) <==> Overwritten(fields, [bs])
  {
    hide WellFormed, GoodDefaults, Shape, Decode, Overwritten, Forgets, Independent, Accepts, Flat;
    AcceptedIsOnePart(fields, bs, dest);
    DecodeIsOnePart(fields, bs);
    if Overwritten(fields, [bs]) {
      OverwrittenForgets(fields, [bs]);
    }
    if Independent(fields, [bs]) {
      ForgottenOverwrites(fields, [bs]);
      FlatOverwritten(fields, [bs]);
    }
  }

  /**
    In all tables: accepted input that is forgotten has overwritten everything that could be old,
    but for elements of fixed-count arrays that come twice or lie in the zeroed bytes.
   */
  lemma ForgettingOverwrites(fields: seq<Field>, bs: seq<byte>, dest: seq<Cell>)
    requires WellFormed(fields) && GoodDefaults(fields)
    requires Shape(fields, dest) && Decode(fields, bs, dest).Ok? && Forgets(fields, bs)
    ensures Overwritten(fields, [bs], false)
  {
    hide WellFormed, GoodDefaults, Shape, Decode, Overwritten, Forgets, Independent, Accepts;
    AcceptedIsOnePart(fields, bs, dest);
    DecodeIsOnePart(fields, bs);
    ForgottenOverwrites(fields, [bs]);
  }

  /** Rejected input is rejected in every struct. */
  lemma RejectedForgets(fields: seq<Field>, bs: seq<byte>, dest: seq<Cell>)
    requires WellFormed(fields) && GoodDefaults(fields) && Shape(fields, dest) && Decode(fields, bs, dest).Bad?
    ensures Forgets(fields, bs)
  {
    hide WellFormed, GoodDefaults, Shape, Decode;
    forall a, b | Shape(fields, a) && Shape(fields, b)
      ensures DecodesAlike(fields, bs, a, b)
    {
      DecodeVerdict(fields, bs, dest, a);
      DecodeVerdict(fields, bs, dest, b);
    }
  }

  /** In a table none of whose fixed-count arrays remembers, every input is forgotten. */
  lemma DecodeForgets(fields: seq<Field>, bs: seq<byte>, a: seq<Cell>, b: seq<Cell>)
    requires WellFormed(fields) && GoodDefaults(fields) && Forgetful(fields)
    requires Shape(fields, a) && Shape(fields, b)
    ensures var p, q := Decode(fields, bs, a), Decode(fields, bs, b);
      Agree(p, q) && (p.Ok? ==> SameMessage(fields, p.val, q.val))
  {
    hide WellFormed, GoodDefaults, Shape, Decode, Overwritten, Forgetful;
    if Decode(fields, bs, a).Ok? {
      ForgetfulOverwritten(fields, [bs]);
      OverwritingForgets(fields, bs, a);
    } else {
      RejectedForgets(fields, bs, a);
    }
    assert DecodesAlike(fields, bs, a, b);
  }

  /** An array remembers if its last element lies behind the bytes of a counter and can differ. */
  lemma LongArrayRemembers(f: Field, v: Value, w: Value)
    requires WellFormedField(f) && f.FixedCount() && f.arraySize > 0 && (f.arraySize - 1) * f.dataSize >= BYTES_HEADER
    requires ValueShape(f, v) && ValueShape(f, w) && !SameValue(f, v, w)
    ensures Remembers(f)
  {
    hide ValueShape, SameValue, WellFormedField;
    var n := f.arraySize;
    var c, d := Fix(seq(n, _ => v)), Fix(seq(n, _ => w));
    assert CellShape(f, c) && CellShape(f, d);
    BehindStays(f, c.items, n - 1);
    BehindStays(f, d.items, n - 1);
    var x, y := SetDefault(f, c), SetDefault(f, d);
    assert x.items[n - 1] == v && y.items[n - 1] == w;
    assert !SameItems(f, x.items, y.items, n);
    assert !SameCell(f, x, y);
  }

  /** The counterexample: eight 32-bit words, and the empty message */
  lemma EightWordsRemembered()
    ensures var f := Field(1, LFixed32, Repeated, 0, 0, 4, 8, Null);
      Decode([f], [], [Fix(seq(8, _ => VNum(0)))]).Ok? && !Forgets([f], [])
  {
    var f := Field(1, LFixed32, Repeated, 0, 0, 4, 8, Null);
    var fields, zero := [f], Fix(seq(8, _ => VNum(0)));
    assert WellFormed(fields) && GoodDefaults(fields) && Flat(fields) by { EightWords(f); }
    assert Slot(fields, 0) == 0 && Shape(fields, [zero]);
    hide Forgets, Overwritten;
    assert Decode(fields, [], [zero]).Ok? by { EmptyMessage(fields, [zero]); }
    LongArrayRemembers(f, VNum(0), VNum(1));
    ForgetsExactly(fields, [], [zero]);
    NotMet(fields);
  }

  lemma EightWords(f: Field)
    requires f == Field(1, LFixed32, Repeated, 0, 0, 4, 8, Null)
    ensures WellFormed([f]) && GoodDefaults([f]) && Flat([f])
  {
  }

  lemma EmptyMessage(fields: seq<Field>, cells: seq<Cell>)
    requires |fields| == 1 && !fields[0].htype.Required?
    ensures Decode(fields, [], cells).Ok?
  {
    hide SetDefaults;
    assert RequiredBefore(fields, 1) == 0;
  }

  lemma NotMet(fields: seq<Field>)
    requires |fields| == 1 && fields[0].FixedCount() && Remembers(fields[0])
    ensures !Overwritten(fields, [[]])
  {
    hide Remembers, FreshMessage, DecMessage;
    var parts: seq<seq<byte>> := [[]];
    assert parts[1..] == [];
    assert PartRecords(fields, [[]], FreshMessage(fields)) == [];
    assert !FieldOverwritten(fields[0], At([], Slot(fields, 0)));
  }
}
