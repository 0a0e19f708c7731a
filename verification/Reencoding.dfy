/**
  What was decoded can be encoded again, and comes back as the same message, if and only if the old
  elements of fixed-count arrays that the input does not mention are ones that can be sent.
 */
module Reencoding {
  import opened Words
  import opened Wire
  import opened Descriptors
  import opened EncoderSpec
  import opened DecoderSpec
  import opened Logical
  import opened Defaults
  import opened GoodStructs
  import opened Invariant
  import opened RoundTrip
  import opened Verdict
  import opened History
  import opened Outcomes

  // ---- Values, cells and messages that the encoder accepts ----

  ghost predicate ValueSends(f: Field, v: Value) {
    EncValue(f, v).Some? && TerminatedValue(f, v)
  }

  ghost predicate ItemsSend(f: Field, items: seq<Value>, n: nat) {
    forall k | 0 <= k < n && k < |items| :: ValueSends(f, items[k])
  }

  ghost predicate CellSends(f: Field, c: Cell) {
    EncField(f, c).Some? && TerminatedCell(f, c)
  }

  ghost predicate MessageSends(fields: seq<Field>, cells: seq<Cell>) {
    EncMessage(fields, cells).Some? && Terminated(fields, cells)
  }

  lemma ScalarSends(f: Field, v: Value)
    requires WellFormedField(f) && !f.ltype.LSubmessage? && GoodValue(f, v)
    ensures ValueSends(f, v)
  {
  }

  lemma SubmessageSends(f: Field, cells: seq<Cell>)
    requires f.ltype.LSubmessage? && f.ptr.Sub?
    ensures ValueSends(f, VMsg(cells)) <==> MessageSends(f.ptr.fields, cells)
  {
  }

  lemma {:induction false} ItemsEncode(f: Field, items: seq<Value>)
    ensures EncItems(f, items).Some? ==> forall k | 0 <= k < |items| :: EncValue(f, items[k]).Some?
    ensures EncTagged(f, items).Some? ==> forall k | 0 <= k < |items| :: EncValue(f, items[k]).Some?
    ensures (forall k | 0 <= k < |items| :: EncValue(f, items[k]).Some?) ==>
      EncItems(f, items).Some? && EncTagged(f, items).Some?
    decreases |items|
  {
    hide EncValue, FieldTag;
    if items != [] {
      ItemsEncode(f, items[1..]);
      assert forall k | 0 <= k < |items| :: items[k] == if k == 0 then items[0] else items[1..][k - 1];
      assert forall k | 0 <= k < |items| - 1 :: items[1..][k] == items[k + 1];
    }
  }

  lemma PackedSends(f: Field, items: seq<Value>)
    ensures EncPacked(f, items).Some? <==> EncItems(f, items).Some?
  {
    hide EncItems;
  }

  lemma ArraySends(f: Field, c: Cell)
    requires f.htype.Repeated? && CountFits(f, c)
    ensures CellSends(f, c) <==> ItemsSend(f, CellItems(c), SentCount(f, c))
  {
    hide EncValue, TerminatedValue, ValueShape, EncItems, EncTagged, EncPacked, GoodValue;
    var sent := c.items[..SentCount(f, c)];
    ItemsEncode(f, sent);
    PackedSends(f, sent);
    assert forall k | 0 <= k < |sent| :: sent[k] == c.items[k];
    assert EncField(f, c).Some? <==> forall k | 0 <= k < |sent| :: EncValue(f, sent[k]).Some?;
    if ItemsSend(f, c.items, |sent|) {
      assert forall k | 0 <= k < |sent| :: ValueSends(f, c.items[k]);
      assert forall k | 0 <= k < |sent| :: EncValue(f, sent[k]).Some?;
      assert TerminatedCell(f, c);
    }
    if CellSends(f, c) {
      forall k | 0 <= k < |sent|
        ensures ValueSends(f, c.items[k])
      {
        assert EncValue(f, sent[k]).Some?;
      }
    }
  }

  lemma SingleSends(f: Field, c: Cell)
    requires !f.htype.Repeated? && (f.htype.Oneof? ==> c.Union?)
    requires f.htype.Required? || (f.htype.Optional? && IsSent(f, c)) || Selected(f, c) ==> ValueSends(f, CellValue(c))
    ensures CellSends(f, c)
  {
    hide EncValue, TerminatedValue, IsSent, FieldTag;
    assert ValueSends(f, CellValue(c)) ==> EncSingle(f, CellValue(c)).Some?;
    assert EncField(f, c).Some?;
    assert TerminatedCell(f, c);
  }

  lemma SingleSent(f: Field, c: Cell)
    requires CellSends(f, c) && (f.htype.Required? || (f.htype.Optional? && IsSent(f, c)))
    ensures ValueSends(f, CellValue(c))
  {
    hide EncValue, TerminatedValue, IsSent, FieldTag;
    assert EncSingle(f, CellValue(c)).Some?;
  }

  lemma {:induction false} FieldsEncode(fields: seq<Field>, cells: seq<Cell>, i: nat)
    ensures EncFields(fields, cells, i).Some? ==>
      forall j | i <= j < |fields| :: EncField(fields[j], CellAt(cells, Slot(fields, j))).Some?
    ensures (forall j | i <= j < |fields| :: EncField(fields[j], CellAt(cells, Slot(fields, j))).Some?) ==>
      EncFields(fields, cells, i).Some?
    decreases |fields| - i
  {
    hide EncField, Slot;
    if i < |fields| {
      FieldsEncode(fields, cells, i + 1);
    }
  }

  /** A message can be sent exactly if each of its cells can. */
  lemma CellsSend(fields: seq<Field>, cells: seq<Cell>)
    ensures MessageSends(fields, cells) ==>
      forall i | 0 <= i < |fields| :: CellSends(fields[i], CellAt(cells, Slot(fields, i)))
    ensures (forall i | 0 <= i < |fields| :: CellSends(fields[i], CellAt(cells, Slot(fields, i)))) ==>
      MessageSends(fields, cells)
  {
    hide EncField, EncFields, TerminatedCell, Slot;
    FieldsEncode(fields, cells, 0);
    if forall i | 0 <= i < |fields| :: CellSends(fields[i], CellAt(cells, Slot(fields, i))) {
      forall i | 0 <= i < |fields|
        ensures EncField(fields[i], CellAt(cells, Slot(fields, i))).Some?
        ensures TerminatedCell(fields[i], CellAt(cells, Slot(fields, i)))
      {
        assert CellSends(fields[i], CellAt(cells, Slot(fields, i)));
      }
    }
  }

  /** A message of default values has nothing to send. */
  lemma {:induction false} DefaultSends(fields: seq<Field>, cells: seq<Cell>)
    requires WellFormed(fields) && AllDefault(fields, cells, 0)
    ensures MessageSends(fields, cells)
  {
    hide IsDefault, CellSends, Slot;
    forall i | 0 <= i < |fields|
      ensures CellSends(fields[i], CellAt(cells, Slot(fields, i)))
    {
      AllDefaultAt(fields, cells, 0, i);
      assert 1 <= fields[i].tag;
      DefaultCellSends(fields[i], CellAt(cells, Slot(fields, i)));
    }
    CellsSend(fields, cells);
  }

  lemma DefaultCellSends(f: Field, c: Cell)
    requires IsDefault(f, c) && (f.htype.Oneof? ==> f.tag != 0)
    ensures CellSends(f, c)
  {
    hide EncSingle, EncPacked, EncTagged, TerminatedValue, AllDefault;
    match f.htype {
      case Repeated =>
        assert EncArray(f, c.items, 0) == Some([]);
      case Optional =>
        assert !IsSent(f, c);
      case Oneof =>
        assert !Selected(f, c);
      case Required =>
    }
  }

  // ---- Good structs can be sent ----

  /** Fixed-count arrays hold only numbers or byte strings of fixed length. */
  ghost predicate Numeric(fields: seq<Field>)
    decreases fields
  {
    forall i | 0 <= i < |fields| :: NumericField(fields[i])
  }

  ghost predicate NumericField(f: Field)
    decreases f
  {
    && (f.FixedCount() ==> f.Packable() || f.ltype.LFixedBytes?)
    && (f.ptr.Sub? ==> Numeric(f.ptr.fields))
  }

  /** The encoder accepts tidy structs, and good ones whose fixed-count arrays are numeric. */
  lemma {:induction false} GoodSends(fields: seq<Field>, cells: seq<Cell>, tidy: bool)
    requires WellFormed(fields) && Good(fields, cells, tidy) && (tidy || Numeric(fields))
    ensures MessageSends(fields, cells)
    decreases fields
  {
    hide CellSends, WellFormedField, GoodCell, NumericField, Slot;
    forall i | 0 <= i < |fields|
      ensures CellSends(fields[i], CellAt(cells, Slot(fields, i)))
    {
      GoodCellSends(fields[i], CellAt(cells, Slot(fields, i)), tidy);
    }
    CellsSend(fields, cells);
  }

  lemma {:induction false} GoodCellSends(f: Field, c: Cell, tidy: bool)
    requires WellFormedField(f) && GoodCell(f, c, tidy) && (tidy || NumericField(f))
    ensures CellSends(f, c)
    decreases f, 1
  {
    hide GoodValue, ValueSends, CellSends, WellFormedField, ValueShape, IsSent;
    if f.htype.Repeated? {
      forall k | 0 <= k < SentCount(f, c) && k < |c.items|
        ensures ValueSends(f, c.items[k])
      {
        if f.FixedCount() && !tidy {
          NumericSends(f, c.items[k]);
        } else {
          GoodValueSends(f, c.items[k], tidy);
        }
      }
      CountedArray(f, c, tidy);
      ArraySends(f, c);
    } else {
      if f.htype.Oneof? ==> Selected(f, c) {
        GoodValueSends(f, c.v, tidy);
      }
      SingleSends(f, c);
    }
  }

  lemma NumericSends(f: Field, v: Value)
    requires WellFormedField(f) && (f.Packable() || f.ltype.LFixedBytes?) && ValueShape(f, v)
    ensures ValueSends(f, v)
  {
  }

  lemma {:induction false} GoodValueSends(f: Field, v: Value, tidy: bool)
    requires WellFormedField(f) && GoodValue(f, v, tidy) && (tidy || NumericField(f))
    ensures ValueSends(f, v)
    decreases f, 0
  {
    if f.ltype.LSubmessage? {
      GoodSends(f.ptr.fields, v.cells, tidy);
      SubmessageSends(f, v.cells);
    } else {
      ScalarSends(f, v);
    }
  }

  // ---- The condition ----

  /**
    The elements of each fixed-count array can be sent: those that are decoded, or else the old
    ones. In nested messages this is so for all parts together, in elements for each by itself,
    over what it replaces.
   */
  ghost predicate Usable(fields: seq<Field>, parts: seq<seq<byte>>, prior: seq<Cell>)
    decreases fields
  {
    forall i | 0 <= i < |fields| ::
      FieldUsable(fields[i], At(PartRecords(fields, parts, FreshMessage(fields)), Slot(fields, i)),
        CellAt(prior, Slot(fields, i)))
  }

  ghost predicate FieldUsable(f: Field, records: seq<Record>, c: Cell)
    decreases f
  {
    && (f.FixedCount() && records == [] ==> ItemsSend(f, CellItems(SetDefault(f, c)), f.arraySize))
    && (f.ptr.Sub? && Nested(f) && Compared(f, records) ==>
          Usable(f.ptr.fields, Windows(records), CellsOf(CellValue(c))))
    && (f.ptr.Sub? && f.htype.Repeated? ==>
          forall k | 0 <= k < |records| && !Superseded(f, records, k) ::
            Usable(f.ptr.fields, [Window(records[k])], CellsOf(Replaced(f, records, SetDefault(f, c), k))))
  }

  // ---- Arrays ----

  ghost function Sends(f: Field): (Value, Value) -> bool {
    (v, w) => ValueSends(f, v)
  }

  lemma ScalarsSend(f: Field, records: seq<Record>)
    requires WellFormedField(f) && GoodDefault(f) && !f.ltype.LSubmessage?
    ensures AllRenewed(f, records, Sends(f))
  {
    hide DecValue, ValueShape, ValueSends, WellFormedField, GoodDefault, GoodValue;
    forall k | 0 <= k < |records|
      ensures Renewed(f, records[k].bytes, Sends(f))
    {
      forall w, p, q | DecValue(f, w, p).Ok? && DecValue(f, w, q).Ok?
        ensures Sends(f)(DecValue(f, w, p).val, DecValue(f, w, q).val)
      {
        DecValueGood(f, w, p);
        ScalarSends(f, DecValue(f, w, p).val);
      }
    }
  }

  lemma RelatedSends(f: Field, c: Cell, n: nat)
    requires RelatedCells(f, Sends(f), c, c, n)
    ensures ItemsSend(f, CellItems(c), n) && (f.sizeOffset != 0 ==> c.Arr? && n == c.count)
  {
    hide ValueSends, ValueShape;
    forall k | 0 <= k < n && k < |CellItems(c)|
      ensures ValueSends(f, CellItems(c)[k])
    {
      assert Sends(f)(c.items[k], c.items[k]);
    }
  }

  /** An array of scalars: received elements can be sent; if none is received, the old ones decide. */
  lemma ScalarArrayExactly(f: Field, records: seq<Record>, z: Cell, c: Cell)
    requires Ran(f, records, z) && CellShape(f, c) && f.htype.Repeated? && !f.ptr.Sub?
    ensures CellSends(f, Fold(records, SetDefault(f, c))) <==> FieldUsable(f, records, c)
  {
    hide WellFormedField, GoodDefault, GoodCell, CellShape, SetDefault, Steps, Fold, Chained, EndOf, CellSends;
    hide RelatedCells, ItemsSend, ValueSends;
    OneofTag(f);
    RanAnywhere(f, records, z, c, 0);
    FoldGood(f, records, SetDefault(f, c));
    CountedArray(f, Fold(records, SetDefault(f, c)), false);
    ArraySends(f, Fold(records, SetDefault(f, c)));
    if f.FixedCount() && records == [] {
      FoldNone(SetDefault(f, c));
    } else {
      ScalarsSend(f, records);
      EmptyRelated(f, c, c, Sends(f));
      RelatedFold(f, records, SetDefault(f, c), SetDefault(f, c), 0, Sends(f));
      RelatedSends(f, Fold(records, SetDefault(f, c)), Filled(f, records, SetDefault(f, c), 0));
    }
  }

  // ---- The outcome can be sent exactly if the condition holds ----

  lemma {:induction false} UsableExactly(fields: seq<Field>, parts: seq<seq<byte>>, a: seq<Cell>)
    requires GoodTable(fields) && Accepts(fields, parts) && Shape(fields, a)
    ensures DecParts(fields, parts, SetDefaults(fields, a)).Some?
    ensures MessageSends(fields, DecParts(fields, parts, SetDefaults(fields, a)).value) <==> Usable(fields, parts, a)
    decreases fields, 9
  {
    hide GoodTable, Accepts, Shape, CellShape, FieldUsable, Ran, AllMembers, At, PartRecords, Slot, DecParts;
    hide SetDefault;
    hide SetDefaults, WellFormedField, GoodDefault, CellSends, MessageSends, Fold, Steps, FixedEnds;
    BothAccept(fields, parts, a, a);
    var p := DecParts(fields, parts, SetDefaults(fields, a)).value;
    forall i | 0 <= i < |fields|
      ensures CellSends(fields[i], CellAt(p, Slot(fields, i))) <==>
        FieldUsable(fields[i], FieldRecords(fields, parts, i), CellAt(a, Slot(fields, i)))
    {
      var f, records, c := fields[i], FieldRecords(fields, parts, i), CellAt(a, Slot(fields, i));
      var z := RanField(fields, parts, i);
      OutcomeCell(fields, parts, a, i);
      ShapeAt(fields, a, i);
      if f.htype.Oneof? {
        UnionSends(f, records, c);
      } else {
        FieldExactly(f, records, z, c);
      }
    }
    CellsSend(fields, p);
    EachField(fields, parts, a, p);
  }

  /** What holds for each field holds for the table. */
  lemma EachField(fields: seq<Field>, parts: seq<seq<byte>>, a: seq<Cell>, p: seq<Cell>)
    requires forall i | 0 <= i < |fields| ::
      CellSends(fields[i], CellAt(p, Slot(fields, i))) <==>
      FieldUsable(fields[i], FieldRecords(fields, parts, i), CellAt(a, Slot(fields, i)))
    ensures Usable(fields, parts, a) ==>
      forall i | 0 <= i < |fields| :: CellSends(fields[i], CellAt(p, Slot(fields, i)))
    ensures (forall i | 0 <= i < |fields| :: CellSends(fields[i], CellAt(p, Slot(fields, i)))) ==>
      Usable(fields, parts, a)
  {
    hide CellSends, FieldUsable, At, PartRecords, Slot, FreshMessage;
    if Usable(fields, parts, a) {
      forall i | 0 <= i < |fields|
        ensures CellSends(fields[i], CellAt(p, Slot(fields, i)))
      {
        assert FieldUsable(fields[i], FieldRecords(fields, parts, i), CellAt(a, Slot(fields, i)));
      }
    }
    if forall i | 0 <= i < |fields| :: CellSends(fields[i], CellAt(p, Slot(fields, i))) {
      forall i | 0 <= i < |fields|
        ensures FieldUsable(fields[i], FieldRecords(fields, parts, i), CellAt(a, Slot(fields, i)))
      {
        assert CellSends(fields[i], CellAt(p, Slot(fields, i)));
      }
    }
  }

  lemma {:induction false} FieldExactly(f: Field, records: seq<Record>, z: Cell, c: Cell)
    requires Ran(f, records, z) && CellShape(f, c)
    ensures CellSends(f, Fold(records, SetDefault(f, c))) <==> FieldUsable(f, records, c)
    decreases f, 8
  {
    hide WellFormedField, GoodDefault, GoodCell, CellShape, SetDefault, Steps, Fold, FixedEnds, CellSends, Usable;
    hide ItemsSend, Replaced, Superseded;
    OneofTag(f);
    RanAnywhere(f, records, z, c, 0);
    FoldGood(f, records, SetDefault(f, c));
    if f.htype.Repeated? {
      if f.ptr.Sub? {
        MessageArrayExactly(f, records, z, c);
      } else {
        ScalarArrayExactly(f, records, z, c);
      }
    } else if f.ptr.Sub? {
      NestedSends(f, records, z, c);
    } else {
      GoodSingle(f, Fold(records, SetDefault(f, c)));
    }
  }

  lemma GoodSingle(f: Field, c: Cell)
    requires WellFormedField(f) && GoodCell(f, c) && !f.htype.Repeated? && !f.htype.Oneof? && !f.ltype.LSubmessage?
    ensures CellSends(f, c)
  {
    hide GoodValue, ValueSends, CellSends, WellFormedField, IsSent;
    ScalarSends(f, c.v);
    SingleSends(f, c);
  }

  lemma {:induction false} NestedSends(f: Field, records: seq<Record>, z: Cell, c: Cell)
    requires Ran(f, records, z) && CellShape(f, c) && f.ptr.Sub? && Nested(f)
    ensures CellSends(f, Fold(records, SetDefault(f, c))) <==> FieldUsable(f, records, c)
    decreases f, 7
  {
    hide WellFormedField, GoodDefault, CellShape, SetDefault, Steps, Fold, FixedEnds, CellSends, Usable, DecParts;
    hide ValueSends, MessageSends;
    var sub, prior := f.ptr.fields, CellsOf(CellValue(c));
    PartsAccepted(f, records, z);
    NestedOutcome(f, records, z, c);
    NestedDefault(f, c);
    UsableExactly(sub, Windows(records), prior);
    RequiredHasNoFlag(f);
    NestedSendsIf(f, records, DecParts(sub, Windows(records), SetDefaults(sub, prior)).value);
  }

  lemma RequiredHasNoFlag(f: Field)
    requires WellFormedField(f)
    ensures f.htype.Required? ==> f.sizeOffset == 0
  {
  }

  lemma NestedSendsIf(f: Field, records: seq<Record>, p: seq<Cell>)
    requires Nested(f) && f.ptr.Sub? && (f.htype.Required? ==> f.sizeOffset == 0) && WellFormed(f.ptr.fields)
    ensures CellSends(f, NestedFinal(f, records, p)) <==> (Compared(f, records) ==> MessageSends(f.ptr.fields, p))
  {
    hide ValueSends, CellSends, AllDefault, MessageSends, WellFormed;
    var c := NestedFinal(f, records, p);
    SubmessageSends(f, p);
    if Compared(f, records) ==> MessageSends(f.ptr.fields, p) {
      SingleSends(f, c);
    }
    if CellSends(f, c) && Compared(f, records) {
      if f.htype.Optional? && !IsSent(f, c) {
        DefaultSends(f.ptr.fields, p);
      } else {
        SingleSent(f, c);
      }
    }
  }

  /** An element can be sent exactly if its window is usable over what it replaced. */
  lemma {:induction false} ElementExactly(f: Field, records: seq<Record>, c: Cell, k: nat)
    requires WellFormedField(f) && GoodDefault(f) && f.ptr.Sub? && f.htype.Repeated? && AllOf(records, f)
    requires GoodCell(f, c) && Steps(records, c) && CountOf(c) == 0
    requires k < |records| && !Superseded(f, records, k)
    ensures Target(f, records, k) < |CellItems(Fold(records, c))|
    ensures ValueSends(f, CellItems(Fold(records, c))[Target(f, records, k)]) <==>
      Usable(f.ptr.fields, [Window(records[k])], CellsOf(Replaced(f, records, c, k)))
    decreases f, 6
  {
    hide DecValue, WellFormedField, GoodDefault, GoodCell, Usable, ValueSends, DecParts, SetDefaults, Fold;
    hide Steps, Target;
    hide Replaced, MessageSends, CountOf;
    ElementOutcome(f, records, c, k);
    SubmessageField(f);
    var prior, sub := Replaced(f, records, c, k), f.ptr.fields;
    SubTable(f);
    PriorCells(f, prior);
    ElementValue(f, records[k].bytes, prior);
    OnePartAccepted(sub, Window(records[k]), prior.cells);
    UsableExactly(sub, [Window(records[k])], prior.cells);
    SubmessageSends(f, DecParts(sub, [Window(records[k])], SetDefaults(sub, prior.cells)).value);
  }

  lemma {:induction false} MessageArrayExactly(f: Field, records: seq<Record>, z: Cell, c: Cell)
    requires Ran(f, records, z) && CellShape(f, c) && f.ptr.Sub? && f.htype.Repeated?
    ensures CellSends(f, Fold(records, SetDefault(f, c))) <==> FieldUsable(f, records, c)
    decreases f, 7
  {
    hide WellFormedField, GoodDefault, GoodCell, CellShape, SetDefault, Steps, Fold, Chained, EndOf, CellSends;
    hide Usable;
    hide ValueSends, Replaced, Superseded, CountOf, Target;
    var d := SetDefault(f, c);
    var out := Fold(records, d);
    RanAnywhere(f, records, z, c, 0);
    FoldGood(f, records, d);
    EmptyArray(f, c);
    CountedArray(f, out, false);
    ArraySends(f, out);
    if f.FixedCount() && records == [] {
      FoldNone(d);
    } else {
      if CellSends(f, out) {
        forall k | 0 <= k < |records| && !Superseded(f, records, k)
          ensures Usable(f.ptr.fields, [Window(records[k])], CellsOf(Replaced(f, records, d, k)))
        {
          ElementExactly(f, records, d, k);
          TargetSent(f, records, d, k);
        }
      }
      if FieldUsable(f, records, c) {
        forall at | 0 <= at < SentCount(f, out) && at < |CellItems(out)|
          ensures ValueSends(f, CellItems(out)[at])
        {
          var k := WriterOf(f, records, d, at);
          ElementExactly(f, records, d, k);
        }
      }
    }
  }

  lemma TargetSent(f: Field, records: seq<Record>, d: Cell, k: nat)
    requires WellFormedField(f) && GoodDefault(f) && f.ptr.Sub? && f.htype.Repeated? && AllOf(records, f)
    requires GoodCell(f, d) && Steps(records, d) && CountOf(d) == 0 && k < |records|
    requires Target(f, records, k) < |CellItems(Fold(records, d))|
    ensures Target(f, records, k) < SentCount(f, Fold(records, d))
  {
    hide WellFormedField, GoodDefault, Steps, Fold, ValueShape, GoodValue;
    FoldGood(f, records, d);
    if !f.FixedCount() {
      CountAdvances(f, records, d);
    }
  }

  // ---- Unions ----

  /** Member f of a union, if selected, is tidy. */
  ghost predicate TidyMember(f: Field, c: Cell) {
    c.Union? && (Selected(f, c) ==> GoodValue(f, c.v, true))
  }

  lemma {:induction false} MembersTidy(f: Field, records: seq<Record>, c: Cell)
    requires WellFormedField(f) && GoodDefault(f) && f.htype.Oneof? && AllMembers(records, f) && TidyMember(f, c)
    ensures TidyMember(f, Fold(records, c))
    decreases |records|
  {
    hide WellFormedField, GoodDefault, Step, TidyMember;
    if records != [] {
      var r := records[0];
      assert r.field.htype.Oneof? && (r.field.tag == f.tag ==> r.field == f);
      TidyMemberStep(f, r, c);
      MembersTidy(f, records[1..], Step(r, c));
    }
  }

  lemma TidyMemberStep(f: Field, r: Record, c: Cell)
    requires WellFormedField(f) && GoodDefault(f) && f.htype.Oneof? && TidyMember(f, c)
    requires r.field.htype.Oneof? && (r.field.tag == f.tag ==> r.field == f)
    ensures TidyMember(f, Step(r, c))
  {
    hide DecValue, WellFormedField, GoodDefault, GoodValue, OneofTarget;
    if r.field == f && Decoded(r, c).Ok? {
      TidyTarget(f, c);
      DecValueGood(f, r.bytes, OneofTarget(f, c), true);
    }
  }

  lemma TidyTarget(f: Field, c: Cell)
    requires WellFormedField(f) && GoodDefault(f) && f.htype.Oneof?
    ensures GoodTarget(f, OneofTarget(f, c), true)
  {
    hide Good, WellFormed, GoodDefaults, FreshMessage;
    if f.ltype.LSubmessage? {
      FreshMessageGood(f.ptr.fields, true);
    }
  }

  /** A union starts from zeros, so what it holds can always be sent. */
  lemma UnionSends(f: Field, records: seq<Record>, c: Cell)
    requires WellFormedField(f) && GoodDefault(f) && f.htype.Oneof? && AllMembers(records, f) && CellShape(f, c)
    ensures CellSends(f, Fold(records, SetDefault(f, c))) && FieldUsable(f, records, c)
  {
    hide WellFormedField, GoodDefault, AllMembers, Fold, CellSends, ValueSends, GoodValue;
    OneofTag(f);
    MembersTidy(f, records, SetDefault(f, c));
    var d := Fold(records, SetDefault(f, c));
    if Selected(f, d) {
      GoodValueSends(f, d.v, true);
    }
    SingleSends(f, d);
  }

  // ---- The main results ----

  /**
    Exactly when a decoded struct can be encoded: for any accepted input, the encoder accepts the
    struct and its strings are terminated if and only if each fixed-count array was met or held
    elements that can be sent.
   */
  lemma ReencodesExactly(fields: seq<Field>, bs: seq<byte>, dest: seq<Cell>)
    requires WellFormed(fields) && GoodDefaults(fields) && Shape(fields, dest) && Decode(fields, bs, dest).Ok?
    ensures var d := Decode(fields, bs, dest).val;
      EncMessage(fields, d).Some? && Terminated(fields, d) <==> Usable(fields, [bs], dest)
  {
    hide DecMessage, DecParts, SetDefaults, WellFormed, GoodDefaults, Shape, EncMessage, Terminated, Usable, Accepts;
    AcceptedIsOnePart(fields, bs, dest);
    OnePart(fields, bs, SetDefaults(fields, dest));
    UsableExactly(fields, [bs], dest);
  }

  /**
    Whatever bytes pb_decode accepts, under that condition the struct it leaves can be encoded, and
    if that takes less than 4 GiB the encoding decodes to the same message again, in any memory.
   */
  lemma DecodedReencodes(fields: seq<Field>, bs: seq<byte>, dest: seq<Cell>, dest2: seq<Cell>)
    requires WellFormed(fields) && GoodDefaults(fields) && ZeroDefaults(fields)
    requires Shape(fields, dest) && Shape(fields, dest2) && Decode(fields, bs, dest).Ok?
    requires Usable(fields, [bs], dest)
    ensures var d := Decode(fields, bs, dest).val;
      && EncMessage(fields, d).Some? && Terminated(fields, d)
      && (|EncMessage(fields, d).value| < U32 ==>
            var again := Decode(fields, EncMessage(fields, d).value, dest2);
            again.Ok? && again.rest == [] && SameMessage(fields, d, again.val))
  {
    hide DecMessage, WellFormed, GoodDefaults, ZeroDefaults, Shape, EncMessage, Terminated, SameMessage, Usable;
    hide Decode;
    ReencodesExactly(fields, bs, dest);
    DecodeGood(fields, bs, dest);
    var d := Decode(fields, bs, dest).val;
    GoodIsShape(fields, d);
    if |EncMessage(fields, d).value| < U32 {
      RoundTripTheorem(fields, d, dest2);
    }
  }

  /** With numeric fixed-count arrays, or in tidy memory, any input that is accepted can be encoded again. */
  lemma DecodedSends(fields: seq<Field>, bs: seq<byte>, dest: seq<Cell>)
    requires WellFormed(fields) && GoodDefaults(fields) && Shape(fields, dest) && Decode(fields, bs, dest).Ok?
    requires Numeric(fields) || Good(fields, dest, true)
    ensures EncMessage(fields, Decode(fields, bs, dest).val).Some?
    ensures Terminated(fields, Decode(fields, bs, dest).val)
    ensures Usable(fields, [bs], dest)
  {
    hide WellFormed, GoodDefaults, Shape, Decode, Usable, Numeric, Good, EncMessage, Terminated;
    var tidy := !Numeric(fields);
    DecodeGood(fields, bs, dest, tidy);
    GoodSends(fields, Decode(fields, bs, dest).val, tidy);
    ReencodesExactly(fields, bs, dest);
  }

  // ---- Counterexamples: two old elements, and the empty message ----

  function TwoOf(ltype: LType, size: nat): Field {
    Field(1, ltype, Repeated, 0, 0, size, 2, Null)
  }

  lemma OldElementStays(f: Field, v: Value)
    requires f == TwoOf(f.ltype, f.dataSize) && BYTES_HEADER <= f.dataSize <= PB_SIZE_MAX && ValueShape(f, v)
    requires f.ltype.LBytes? || f.ltype.LString?
    ensures WellFormed([f]) && GoodDefaults([f]) && Shape([f], [Fix([v, v])])
    ensures var r := Decode([f], [], [Fix([v, v])]);
      r.Ok? && |r.val| == 1 && r.val[0].Fix? && |r.val[0].items| == 2 && r.val[0].items[1] == v
  {
    var fields, cells := [f], [Fix([v, v])];
    assert Slot(fields, 0) == 0 && RequiredBefore(fields, 1) == 0;
    SetDefaultsAt(fields, cells, 0, 0);
    ZeroStartKeeps(f, [v, v]);
    assert CellAt(SetDefaults(fields, cells), 0) == Fix(ZERO_START(f, [v, v]));
  }

  /** Bytes with a size that does not fit stay, and make the encoder fail ("bytes size exceeded"). */
  lemma OldBytesNotSent()
    ensures var f, bad := TwoOf(LBytes, 8), VBytes(Zeros(9));
      var r := Decode([f], [], [Fix([bad, bad])]);
      r.Ok? && EncMessage([f], r.val).None?
  {
    hide Decode;
    var f, bad := TwoOf(LBytes, 8), VBytes(Zeros(9));
    OldElementStays(f, bad);
    var r := Decode([f], [], [Fix([bad, bad])]);
    var items := r.val[0].items;
    ItemsEncode(f, items[..2]);
    assert items[..2][1] == bad && EncValue(f, bad).None?;
    assert EncTagged(f, items[..2]).None?;
    assert Slot([f], 0) == 0 && EncField(f, CellAt(r.val, 0)).None?;
    FieldsEncode([f], r.val, 0);
  }

  /** A string without a terminator stays, and is no string of the message. */
  lemma OldStringNotTerminated()
    ensures var f, bad := TwoOf(LString, 4), VString([1, 1, 1, 1]);
      var r := Decode([f], [], [Fix([bad, bad])]);
      r.Ok? && !Terminated([f], r.val)
  {
    hide Decode;
    var f, bad := TwoOf(LString, 4), VString([1, 1, 1, 1]);
    OldElementStays(f, bad);
    var r := Decode([f], [], [Fix([bad, bad])]);
    assert StrLen([1, 1, 1, 1]) == 4 by {
      assert [1, 1, 1, 1][1..] == [1, 1, 1] && [1, 1, 1][1..] == [1, 1] && [1, 1][1..] == [1];
      assert StrLen([1]) == 1 && StrLen([1, 1]) == 2 && StrLen([1, 1, 1]) == 3;
    }
    assert Slot([f], 0) == 0 && !TerminatedValue(f, r.val[0].items[1]);
    assert !TerminatedCell(f, CellAt(r.val, 0));
  }
}
