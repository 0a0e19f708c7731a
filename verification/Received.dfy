/**
  What was received is good, at every depth: also the elements of fixed-count arrays, of which the
  invariant of structs says only their type, because old ones may be among them. What was not
  received holds its declared default, at every depth too.
 */
module Received {
  import opened Wire
  import opened Descriptors
  import opened DecoderSpec
  import opened Defaults
  import opened GoodStructs
  import opened Invariant
  import opened Verdict
  import opened History
  import opened Outcomes
  import opened Declared

  /**
    Every fixed-count array that is met holds good elements only, and every field that is not met its
    declared default: at top level, in nested messages in any part, in unions, and in the elements of
    arrays in the window that was decoded last.
   */
  ghost predicate WellReceived(fields: seq<Field>, parts: seq<seq<byte>>, cells: seq<Cell>)
    decreases fields
  {
    forall i | 0 <= i < |fields| ::
      FieldReceived(fields[i], At(PartRecords(fields, parts, FreshMessage(fields)), Slot(fields, i)),
        CellAt(cells, Slot(fields, i)))
  }

  ghost predicate FieldReceived(f: Field, records: seq<Record>, c: Cell)
    decreases f
  {
    && (records == [] ==> HoldsDefault(f, c))
    && (f.FixedCount() && records != [] ==> forall k | 0 <= k < |CellItems(c)| :: GoodValue(f, CellItems(c)[k]))
    && (f.ptr.Sub? && Nested(f) ==> WellReceived(f.ptr.fields, Windows(records), CellsOf(CellValue(c))))
    && (f.ptr.Sub? && f.htype.Repeated? ==>
          forall k | 0 <= k < |records| && !Superseded(f, records, k) ::
            WellReceived(f.ptr.fields, [Window(records[k])], CellsOf(ItemAt(CellItems(c), Target(f, records, k)))))
    && (f.ptr.Sub? && f.htype.Oneof? && records != [] && records[|records| - 1].field == f ==>
          WellReceived(f.ptr.fields, [Window(records[|records| - 1])], CellsOf(CellValue(c))))
  }

  // ---- Elements ----

  ghost function IsGood(f: Field): (Value, Value) -> bool {
    (v, w) => GoodValue(f, v)
  }

  /** An element that is decoded is good, whatever it replaces. */
  lemma ElementsRenewed(f: Field, records: seq<Record>)
    requires WellFormedField(f) && GoodDefault(f) && f.htype.Repeated?
    ensures AllRenewed(f, records, IsGood(f))
  {
    hide DecValue, ValueShape, WellFormedField, GoodDefault, GoodValue, GoodTarget;
    forall k | 0 <= k < |records|
      ensures Renewed(f, records[k].bytes, IsGood(f))
    {
      forall w, p, q | ValueShape(f, p) && DecValue(f, w, p).Ok? && DecValue(f, w, q).Ok?
        ensures IsGood(f)(DecValue(f, w, p).val, DecValue(f, w, q).val)
      {
        ItemTarget(f, p);
        DecValueGood(f, w, p);
      }
    }
  }

  /** A fixed-count array that is met holds good elements only. */
  lemma MetArrayGood(f: Field, records: seq<Record>, z: Cell, c: Cell)
    requires Ran(f, records, z) && CellShape(f, c) && f.FixedCount() && records != []
    ensures var out := Fold(records, SetDefault(f, c));
      |CellItems(out)| == f.arraySize && forall k | 0 <= k < |CellItems(out)| :: GoodValue(f, CellItems(out)[k])
  {
    hide WellFormedField, GoodDefault, GoodCell, CellShape, SetDefault, Steps, Fold, Chained, EndOf;
    hide RelatedCells, GoodValue;
    RanAnywhere(f, records, z, c, 0);
    ElementsRenewed(f, records);
    EmptyRelated(f, c, c, IsGood(f));
    RelatedFold(f, records, SetDefault(f, c), SetDefault(f, c), 0, IsGood(f));
    RelatedGood(f, Fold(records, SetDefault(f, c)), f.arraySize);
  }

  lemma RelatedGood(f: Field, c: Cell, n: nat)
    requires RelatedCells(f, IsGood(f), c, c, n) && f.FixedCount() && n == f.arraySize
    ensures |CellItems(c)| == n && forall k | 0 <= k < n :: GoodValue(f, CellItems(c)[k])
  {
    hide GoodValue, ValueShape;
    forall k | 0 <= k < n
      ensures GoodValue(f, CellItems(c)[k])
    {
      assert IsGood(f)(c.items[k], c.items[k]);
    }
  }

  // ---- The recursion over descriptors ----

  lemma {:induction false} PartsReceived(fields: seq<Field>, parts: seq<seq<byte>>, a: seq<Cell>)
    requires GoodTable(fields) && Accepts(fields, parts) && Shape(fields, a)
    ensures DecParts(fields, parts, SetDefaults(fields, a)).Some?
    ensures WellReceived(fields, parts, DecParts(fields, parts, SetDefaults(fields, a)).value)
    decreases fields, 3
  {
    hide GoodTable, Accepts, Shape, CellShape, FieldReceived, Ran, AllMembers, At, PartRecords, Slot, DecParts;
    hide SetDefault, SetDefaults, WellFormedField, GoodDefault, Fold, Steps, FixedEnds;
    BothAccept(fields, parts, a, a);
    var p := DecParts(fields, parts, SetDefaults(fields, a)).value;
    forall i | 0 <= i < |fields|
      ensures FieldReceived(fields[i], FieldRecords(fields, parts, i), CellAt(p, Slot(fields, i)))
    {
      var f, records, c := fields[i], FieldRecords(fields, parts, i), CellAt(a, Slot(fields, i));
      var z := RanField(fields, parts, i);
      OutcomeCell(fields, parts, a, i);
      ShapeAt(fields, a, i);
      if f.htype.Oneof? {
        UnsetUnion(f, c);
        UnionReceived(f, records, SetDefault(f, c));
      } else {
        FieldIsReceived(f, records, z, c);
      }
    }
  }

  lemma {:induction false} FieldIsReceived(f: Field, records: seq<Record>, z: Cell, c: Cell)
    requires Ran(f, records, z) && CellShape(f, c)
    ensures FieldReceived(f, records, Fold(records, SetDefault(f, c)))
    decreases f, 2
  {
    hide WellFormedField, GoodDefault, GoodCell, CellShape, SetDefault, Steps, Fold, FixedEnds, WellReceived;
    hide HoldsDefault, GoodValue, Superseded, Target, DecParts, SetDefaults, CountOf;
    OneofTag(f);
    if records == [] {
      FoldNone(SetDefault(f, c));
      SetDefaultDeclared(f, c);
    }
    if f.FixedCount() && records != [] {
      MetArrayGood(f, records, z, c);
    }
    if f.ptr.Sub? && Nested(f) {
      PartsAccepted(f, records, z);
      NestedOutcome(f, records, z, c);
      NestedDefault(f, c);
      PartsReceived(f.ptr.fields, Windows(records), CellsOf(CellValue(c)));
    } else if f.ptr.Sub? && f.htype.Repeated? {
      RanAnywhere(f, records, z, c, 0);
      EmptyArray(f, c);
      forall k | 0 <= k < |records| && !Superseded(f, records, k)
        ensures WellReceived(f.ptr.fields, [Window(records[k])],
          CellsOf(ItemAt(CellItems(Fold(records, SetDefault(f, c))), Target(f, records, k))))
      {
        ElementReceived(f, records, SetDefault(f, c), k);
      }
    }
  }

  lemma {:induction false} ElementReceived(f: Field, records: seq<Record>, c: Cell, k: nat)
    requires WellFormedField(f) && GoodDefault(f) && f.ptr.Sub? && f.htype.Repeated? && AllOf(records, f)
    requires GoodCell(f, c) && Steps(records, c) && CountOf(c) == 0
    requires k < |records| && !Superseded(f, records, k)
    ensures WellReceived(f.ptr.fields, [Window(records[k])],
      CellsOf(ItemAt(CellItems(Fold(records, c)), Target(f, records, k))))
    decreases f, 1
  {
    hide DecValue, WellFormedField, GoodDefault, GoodCell, DecParts, SetDefaults, Fold, Steps, Target, Replaced;
    hide CountOf;
    hide WellReceived;
    ElementOutcome(f, records, c, k);
    SubmessageField(f);
    var prior, sub := Replaced(f, records, c, k), f.ptr.fields;
    SubTable(f);
    PriorCells(f, prior);
    ElementValue(f, records[k].bytes, prior);
    OnePartAccepted(sub, Window(records[k]), prior.cells);
    PartsReceived(sub, [Window(records[k])], prior.cells);
  }

  /** What a union holds comes from the last record. */
  lemma {:induction false} UnionReceived(f: Field, records: seq<Record>, c: Cell)
    requires WellFormedField(f) && GoodDefault(f) && f.htype.Oneof? && Steps(records, c)
    requires c.Union? && c.which == 0
    ensures FieldReceived(f, records, Fold(records, c))
    decreases f, 2
  {
    hide WellFormedField, GoodDefault, WellReceived, Fold, Steps, Decoded, ZeroCells, DecParts, SetDefaults;
    if records == [] {
      FoldNone(c);
    }
    if f.ptr.Sub? && records != [] && records[|records| - 1].field == f {
      OneofTag(f);
      SubTable(f);
      var last, sub := records[|records| - 1], f.ptr.fields;
      LastMember(f, records, c);
      ZeroShape(sub);
      PartsReceived(sub, [Window(last)], ZeroCells(sub, |sub|));
    }
  }

  lemma UnsetUnion(f: Field, c: Cell)
    requires f.htype.Oneof?
    ensures SetDefault(f, c).Union? && SetDefault(f, c).which == 0
  {
  }

  lemma LastMember(f: Field, records: seq<Record>, c: Cell)
    requires f.htype.Oneof? && f.ltype.LSubmessage? && f.ptr.Sub? && Steps(records, c) && records != []
    requires records[|records| - 1].field == f
    ensures var p := DecParts(f.ptr.fields, [Window(records[|records| - 1])], FreshMessage(f.ptr.fields));
      p.Some? && Fold(records, c) == Union(f.tag, VMsg(p.value))
  {
    hide DecValue, DecMessage, DecString, FreshMessage, Fold, Steps, Step, Decoded;
    var n := |records| - 1;
    SplitAt(records, c, n);
    var before, r := Fold(records[..n], c), records[n];
    assert records[n + 1..] == [];
    FoldNone(Step(r, before));
    MemberOutcome(f, r, before);
  }

  lemma MemberOutcome(f: Field, r: Record, c: Cell)
    requires f.htype.Oneof? && f.ltype.LSubmessage? && f.ptr.Sub? && r.field == f && Decoded(r, c).Ok?
    ensures var p := DecParts(f.ptr.fields, [Window(r)], FreshMessage(f.ptr.fields));
      p.Some? && Step(r, c) == Union(f.tag, VMsg(p.value))
  {
    hide DecValue, DecMessage, DecString, FreshMessage;
    SubmessageValue(f, r.bytes, OneofTarget(f, c));
    OnePart(f.ptr.fields, Window(r), FreshMessage(f.ptr.fields));
  }

  // ---- The main result ----

  /**
    After a successful pb_decode, from any bytes into any memory, the struct is good, and so are the
    elements of every fixed-count array that was met, at every depth; fields that were not met hold
    their declared defaults, at every depth. In tidy memory, where all old
    elements are good, the struct is tidy again, whatever was met.
   */
  lemma DecodeReceives(fields: seq<Field>, bs: seq<byte>, dest: seq<Cell>)
    requires WellFormed(fields) && GoodDefaults(fields) && Shape(fields, dest) && Decode(fields, bs, dest).Ok?
    ensures Good(fields, Decode(fields, bs, dest).val)
    ensures WellReceived(fields, [bs], Decode(fields, bs, dest).val)
    ensures Good(fields, dest, true) ==> Good(fields, Decode(fields, bs, dest).val, true)
  {
    hide DecMessage, DecParts, SetDefaults, WellFormed, GoodDefaults, Shape, Good, WellReceived, Accepts;
    DecodeGood(fields, bs, dest);
    if Good(fields, dest, true) {
      DecodeGood(fields, bs, dest, true);
    }
    AcceptedIsOnePart(fields, bs, dest);
    OnePart(fields, bs, SetDefaults(fields, dest));
    PartsReceived(fields, [bs], dest);
  }
}
