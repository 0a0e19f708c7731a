/**
  A run of the decoder taken apart: which records of the input reached which cell of the struct,
  and what they made of it. Nested messages that come in several parts are decoded part by part.
 */
module History {
  import opened Wire
  import opened Descriptors
  import opened DecoderSpec
  import opened GoodStructs
  import opened Invariant
  import opened Merging
  import opened Verdict

  /** One record of a known field: its cell, the bytes behind its tag, the fixed-count elements before it */
  datatype Record = Record(slot: nat, field: Field, wt: nat, bytes: seq<byte>, n: nat)

  function Here(fields: seq<Field>, wt: nat, tag: nat, bs: seq<byte>, st: State): seq<Record> {
    var i := Lookup(fields, tag);
    if i.Some? && Turn(fields, i.value, st).Some? then
      [Record(Slot(fields, i.value), FieldAt(fields, i.value), wt, bs, Turn(fields, i.value, st).value.fixedSize)]
    else []
  }

  /** The records of bs, in order */
  function Records(fields: seq<Field>, bs: seq<byte>, st: State): seq<Record>
    decreases |bs|
  {
    if bs == [] then []
    else
      match DecTag(bs)
      case Tag(wt, tag, rest) =>
        (match DecField(fields, wt, tag, rest, st)
         case Bad => []
         case Ok(st', rest') => Here(fields, wt, tag, rest, st) + Records(fields, rest', st'))
      case _ => []
  }

  /** The records that reach one cell */
  function At(records: seq<Record>, slot: nat): seq<Record> {
    if records == [] then []
    else (if records[0].slot == slot then [records[0]] else []) + At(records[1..], slot)
  }

  function Decoded(r: Record, c: Cell): Parsed<(Cell, nat)> {
    DecCell(r.field, r.wt, r.bytes, c, r.n)
  }

  function Step(r: Record, c: Cell): Cell {
    if Decoded(r, c).Ok? then Decoded(r, c).val.0 else c
  }

  /** What the records make of a cell */
  function Fold(records: seq<Record>, c: Cell): Cell
    decreases |records|
  {
    if records == [] then c else Fold(records[1..], Step(records[0], c))
  }

  /** Each record is accepted. */
  predicate Steps(records: seq<Record>, c: Cell)
    decreases |records|
  {
    records != [] ==> Decoded(records[0], c).Ok? && Steps(records[1..], Step(records[0], c))
  }

  lemma {:induction false} AtConcat(a: seq<Record>, b: seq<Record>, slot: nat)
    ensures At(a + b, slot) == At(a, slot) + At(b, slot)
    decreases |a|
  {
    if a == [] {
      assert a + b == b;
    } else {
      AtConcat(a[1..], b, slot);
      assert (a + b)[0] == a[0] && (a + b)[1..] == a[1..] + b;
      var first := if a[0].slot == slot then [a[0]] else [];
      assert At(a + b, slot) == first + (At(a[1..], slot) + At(b, slot));
      assert At(a, slot) == first + At(a[1..], slot);
      Regroup(first, At(a[1..], slot), At(b, slot));
    }
  }

  lemma Regroup(a: seq<Record>, b: seq<Record>, c: seq<Record>)
    ensures a + (b + c) == a + b + c
  {
  }

  lemma {:induction false} FoldConcat(a: seq<Record>, b: seq<Record>, c: Cell)
    ensures Fold(a + b, c) == Fold(b, Fold(a, c))
    ensures Steps(a + b, c) <==> Steps(a, c) && Steps(b, Fold(a, c))
    decreases |a|
  {
    hide Step, Decoded;
    if a == [] {
      assert a + b == b;
    } else {
      FoldConcat(a[1..], b, Step(a[0], c));
      assert (a + b)[1..] == a[1..] + b;
    }
  }

  lemma FoldNone(c: Cell)
    ensures Fold([], c) == c && Steps([], c)
  {
  }

  /** The cell of a slot after some bytes is what their records made of it. */
  ghost predicate Follows(records: seq<Record>, slot: nat, before: seq<Cell>, after: seq<Cell>) {
    && |after| == |before| && Steps(At(records, slot), CellAt(before, slot))
    && CellAt(after, slot) == Fold(At(records, slot), CellAt(before, slot))
  }

  lemma FollowsThen(a: seq<Record>, b: seq<Record>, slot: nat, x: seq<Cell>, y: seq<Cell>, z: seq<Cell>)
    requires Follows(a, slot, x, y) && Follows(b, slot, y, z)
    ensures Follows(a + b, slot, x, z)
  {
    hide Fold, Steps, At;
    AtConcat(a, b, slot);
    FoldConcat(At(a, slot), At(b, slot), CellAt(x, slot));
  }

  lemma FollowsNone(slot: nat, x: seq<Cell>)
    ensures Follows([], slot, x, x)
  {
  }

  lemma FieldFollows(fields: seq<Field>, wt: nat, tag: nat, bs: seq<byte>, st: State, slot: nat)
    requires DecField(fields, wt, tag, bs, st).Ok? && slot < |st.cells|
    ensures Follows(Here(fields, wt, tag, bs, st), slot, st.cells, DecField(fields, wt, tag, bs, st).val.cells)
  {
    hide DecCell, Lookup, SkipField, Slot, Mark, FixedComplete;
    var i := Lookup(fields, tag);
    if i.Some? {
      var r := Here(fields, wt, tag, bs, st)[0];
      OneRecord(r, slot, CellAt(st.cells, slot));
    }
  }

  lemma OneRecord(r: Record, slot: nat, c: Cell)
    ensures At([r], slot) == if r.slot == slot then [r] else []
    ensures Fold([r], c) == Step(r, c) && (Steps([r], c) <==> Decoded(r, c).Ok?)
    ensures Fold([], c) == c && Steps([], c)
  {
    hide DecCell;
    assert [r][1..] == [];
  }

  lemma {:induction false} FieldsFollow(fields: seq<Field>, bs: seq<byte>, st: State, slot: nat)
    requires DecFields(fields, bs, st).Ok? && slot < |st.cells|
    ensures Follows(Records(fields, bs, st), slot, st.cells, DecFields(fields, bs, st).val.cells)
    decreases |bs|
  {
    hide DecTag, DecField, Here, Follows;
    FollowsNone(slot, st.cells);
    if bs != [] && DecTag(bs).Tag? {
      var Tag(wt, tag, rest) := DecTag(bs);
      FieldFollows(fields, wt, tag, rest, st, slot);
      var Ok(st', rest') := DecField(fields, wt, tag, rest, st);
      FollowsLength(Here(fields, wt, tag, rest, st), slot, st.cells, st'.cells);
      FieldsFollow(fields, rest', st', slot);
      FollowsThen(Here(fields, wt, tag, rest, st), Records(fields, rest', st'), slot,
        st.cells, st'.cells, DecFields(fields, rest', st').val.cells);
    }
  }

  lemma FollowsLength(records: seq<Record>, slot: nat, before: seq<Cell>, after: seq<Cell>)
    requires Follows(records, slot, before, after)
    ensures |after| == |before|
  {
    hide Fold, Steps, At;
  }

  // ---- Messages that come in parts ----

  /** pb_decode_noinit on one part after another, into the same struct */
  function DecParts(fields: seq<Field>, parts: seq<seq<byte>>, cells: seq<Cell>): Option<seq<Cell>>
    decreases |parts|
  {
    if parts == [] then Some(cells)
    else
      var r := DecMessage(fields, parts[0], cells);
      if r.Ok? then DecParts(fields, parts[1..], r.val) else None
  }

  function PartRecords(fields: seq<Field>, parts: seq<seq<byte>>, cells: seq<Cell>): seq<Record>
    decreases |parts|
  {
    if parts == [] then []
    else
      var r := DecMessage(fields, parts[0], cells);
      Records(fields, parts[0], Start(cells)) + if r.Ok? then PartRecords(fields, parts[1..], r.val) else []
  }

  lemma {:induction false} PartsFollow(fields: seq<Field>, parts: seq<seq<byte>>, cells: seq<Cell>, slot: nat)
    requires DecParts(fields, parts, cells).Some? && slot < |cells|
    ensures Follows(PartRecords(fields, parts, cells), slot, cells, DecParts(fields, parts, cells).value)
    decreases |parts|
  {
    hide DecFields, Follows, RequiredPresent, Records;
    FollowsNone(slot, cells);
    if parts != [] {
      var st1 := DecFields(fields, parts[0], Start(cells)).val;
      FieldsFollow(fields, parts[0], Start(cells), slot);
      FollowsLength(Records(fields, parts[0], Start(cells)), slot, cells, st1.cells);
      PartsFollow(fields, parts[1..], st1.cells, slot);
      FollowsThen(Records(fields, parts[0], Start(cells)), PartRecords(fields, parts[1..], st1.cells), slot,
        cells, st1.cells, DecParts(fields, parts, cells).value);
    }
  }

  // ---- The records are the same for all structs with the same counters ----

  lemma {:induction false} SameRecords(fields: seq<Field>, bs: seq<byte>, s: State, t: State)
    requires GoodTable(fields) && TwinStates(fields, s, t)
    ensures Records(fields, bs, s) == Records(fields, bs, t)
    decreases |bs|
  {
    hide GoodTable, Twins, DecField, DecTag, Slot, Lookup;
    if bs != [] && DecTag(bs).Tag? {
      var Tag(wt, tag, rest) := DecTag(bs);
      FieldVerdict(fields, wt, tag, rest, s, t);
      var p, q := DecField(fields, wt, tag, rest, s), DecField(fields, wt, tag, rest, t);
      if p.Ok? {
        SameRecords(fields, p.rest, p.val, q.val);
      }
    }
  }

  lemma {:induction false} SameParts(fields: seq<Field>, parts: seq<seq<byte>>, a: seq<Cell>, b: seq<Cell>)
    requires GoodTable(fields) && Twins(fields, a, b)
    ensures PartRecords(fields, parts, a) == PartRecords(fields, parts, b)
    ensures DecParts(fields, parts, a).Some? == DecParts(fields, parts, b).Some?
    ensures DecParts(fields, parts, a).Some? ==>
      Twins(fields, DecParts(fields, parts, a).value, DecParts(fields, parts, b).value)
    decreases |parts|
  {
    hide DecMessage, Records, WellFormed, GoodDefaults, Good, SameCounts;
    if parts != [] {
      SameRecords(fields, parts[0], Start(a), Start(b));
      MessageVerdict(fields, parts[0], a, b);
      var p, q := DecMessage(fields, parts[0], a), DecMessage(fields, parts[0], b);
      if p.Ok? {
        SameParts(fields, parts[1..], p.val, q.val);
      }
    }
  }

  // ---- Whose records they are ----

  ghost predicate Known(fields: seq<Field>, r: Record) {
    exists k :: 0 <= k < |fields| && r.field == fields[k] && r.slot == Slot(fields, k)
  }

  ghost predicate AllKnown(fields: seq<Field>, records: seq<Record>) {
    forall k | 0 <= k < |records| :: Known(fields, records[k])
  }

  lemma {:induction false} RecordsKnown(fields: seq<Field>, bs: seq<byte>, st: State)
    requires fields != []
    ensures AllKnown(fields, Records(fields, bs, st))
    decreases |bs|
  {
    hide DecTag, DecField, Slot;
    if bs != [] && DecTag(bs).Tag? {
      var Tag(wt, tag, rest) := DecTag(bs);
      if DecField(fields, wt, tag, rest, st).Ok? {
        var Ok(st', rest') := DecField(fields, wt, tag, rest, st);
        RecordsKnown(fields, rest', st');
      }
    }
  }

  lemma {:induction false} PartRecordsKnown(fields: seq<Field>, parts: seq<seq<byte>>, cells: seq<Cell>)
    requires fields != []
    ensures AllKnown(fields, PartRecords(fields, parts, cells))
    decreases |parts|
  {
    hide DecMessage, Records, Known;
    if parts != [] {
      RecordsKnown(fields, parts[0], Start(cells));
      var r := DecMessage(fields, parts[0], cells);
      if r.Ok? {
        PartRecordsKnown(fields, parts[1..], r.val);
      }
    }
  }

  lemma {:induction false} AtKnown(fields: seq<Field>, records: seq<Record>, slot: nat)
    requires AllKnown(fields, records)
    ensures AllKnown(fields, At(records, slot))
    ensures forall k | 0 <= k < |At(records, slot)| :: At(records, slot)[k].slot == slot
    decreases |records|
  {
    hide Known;
    if records != [] {
      AtKnown(fields, records[1..], slot);
    }
  }

  /** All records are of field f. */
  predicate AllOf(records: seq<Record>, f: Field) {
    forall k | 0 <= k < |records| :: records[k].field == f
  }

  /** All records are of members of one union, of which f is one. */
  ghost predicate AllMembers(records: seq<Record>, f: Field) {
    forall k | 0 <= k < |records| ::
      var g := records[k].field;
      g.htype.Oneof? && WellFormedField(g) && GoodDefault(g) && (g.tag == f.tag ==> g == f)
  }

  /** A cell that is no union is reached by records of its own field only. */
  lemma OwnRecords(fields: seq<Field>, records: seq<Record>, i: nat)
    requires GoodTable(fields) && AllKnown(fields, records) && i < |fields|
    ensures !fields[i].htype.Oneof? ==> AllOf(At(records, Slot(fields, i)), fields[i])
    ensures fields[i].htype.Oneof? ==> AllMembers(At(records, Slot(fields, i)), fields[i])
  {
    hide WellFormedField, GoodDefault, Slot;
    var own := At(records, Slot(fields, i));
    AtKnown(fields, records, Slot(fields, i));
    forall k | 0 <= k < |own|
      ensures !fields[i].htype.Oneof? ==> own[k].field == fields[i]
      ensures fields[i].htype.Oneof? ==>
        var g := own[k].field;
        g.htype.Oneof? && WellFormedField(g) && GoodDefault(g) && (g.tag == fields[i].tag ==> g == fields[i])
    {
      assert Known(fields, own[k]);
      var j :| 0 <= j < |fields| && own[k].field == fields[j] && own[k].slot == Slot(fields, j);
      if j != i {
        SlotShared(fields, i, j);
      }
    }
  }

  // ---- Folds of good cells ----

  lemma {:induction false} FoldGood(f: Field, records: seq<Record>, c: Cell)
    requires WellFormedField(f) && GoodDefault(f) && GoodCell(f, c) && AllOf(records, f)
    ensures GoodCell(f, Fold(records, c))
    decreases |records|
  {
    hide DecCell, WellFormedField, GoodDefault, GoodCell;
    if records != [] {
      if Decoded(records[0], c).Ok? {
        DecCellGood(f, records[0].wt, records[0].bytes, c, records[0].n);
      }
      FoldGood(f, records[1..], Step(records[0], c));
    }
  }

  /** Records that are accepted for one cell are accepted for all with the same counters. */
  lemma {:induction false} SameSteps(f: Field, records: seq<Record>, c: Cell, d: Cell, m: nat)
    requires WellFormedField(f) && GoodDefault(f) && AllOf(records, f)
    requires GoodCell(f, c) && GoodCell(f, d) && SameCount(f, c, d)
    ensures Steps(records, c) == Steps(records, d) && SameCount(f, Fold(records, c), Fold(records, d))
    ensures Chained(records, c, m) == Chained(records, d, m) && EndOf(records, c, m) == EndOf(records, d, m)
    decreases |records|
  {
    hide DecCell, WellFormedField, GoodDefault, GoodCell, SameCount;
    if records != [] {
      var r := records[0];
      CellVerdict(f, r.wt, r.bytes, c, d, r.n);
      if Decoded(r, c).Ok? {
        DecCellGood(f, r.wt, r.bytes, c, r.n);
        DecCellGood(f, r.wt, r.bytes, d, r.n);
      }
      SameSteps(f, records[1..], Step(r, c), Step(r, d), After(r, c, m));
    }
  }

  // ---- Fixed-count arrays ----

  /** The number of elements received, m having been received before */
  function After(r: Record, c: Cell, m: nat): nat {
    if Decoded(r, c).Ok? then Decoded(r, c).val.1 else m
  }

  function EndOf(records: seq<Record>, c: Cell, m: nat): nat
    decreases |records|
  {
    if records == [] then m else EndOf(records[1..], Step(records[0], c), After(records[0], c, m))
  }

  /** Each record goes on where the one before it ended, or begins anew. */
  predicate Chained(records: seq<Record>, c: Cell, m: nat)
    decreases |records|
  {
    records != [] ==>
      (records[0].n == m || records[0].n == 0) && Chained(records[1..], Step(records[0], c), After(records[0], c, m))
  }

  lemma {:induction false} ChainConcat(a: seq<Record>, b: seq<Record>, c: Cell, m: nat)
    ensures EndOf(a + b, c, m) == EndOf(b, Fold(a, c), EndOf(a, c, m))
    ensures Chained(a + b, c, m) <==> Chained(a, c, m) && Chained(b, Fold(a, c), EndOf(a, c, m))
    decreases |a|
  {
    hide Step, After;
    if a == [] {
      assert a + b == b;
    } else {
      ChainConcat(a[1..], b, Step(a[0], c), After(a[0], c, m));
      assert (a + b)[1..] == a[1..] + b;
    }
  }

  /** What is known of fixed-count array i, m elements of which were received last */
  predicate Receives(fields: seq<Field>, i: nat, st: State, m: nat) {
    st.fixedField == Some(i) ==> m == st.fixedSize
  }

  /** Array i was left complete, if it has been received at all. */
  predicate LeftComplete(fields: seq<Field>, i: nat, before: State, after: State, records: seq<Record>, m: nat) {
    && Receives(fields, i, after, m)
    && (after.fixedField != Some(i) && (records != [] || before.fixedField == Some(i)) ==>
          m == FieldAt(fields, i).arraySize)
  }

  lemma FieldChain(fields: seq<Field>, i: nat, wt: nat, tag: nat, bs: seq<byte>, st: State, m: nat)
    requires UniqueTags(fields) && i < |fields| && fields[i].FixedCount() && Receives(fields, i, st, m)
    requires DecField(fields, wt, tag, bs, st).Ok?
    ensures var own, c := At(Here(fields, wt, tag, bs, st), Slot(fields, i)), CellAt(st.cells, Slot(fields, i));
      Chained(own, c, m) &&
      LeftComplete(fields, i, st, DecField(fields, wt, tag, bs, st).val, own, EndOf(own, c, m))
  {
    hide DecCell, SkipField, Slot, RequiredBefore, At, Step, After;
    var slot := Slot(fields, i);
    var c := CellAt(st.cells, slot);
    var k := Lookup(fields, tag);
    if k.Some? {
      var r := Here(fields, wt, tag, bs, st)[0];
      OneRecord(r, slot, c);
      OneLink(r, c, m);
      if r.slot == slot && k.value != i {
        SlotShared(fields, i, k.value);
      }
      if !FieldAt(fields, k.value).FixedCount() {
        CellIgnoresFixed(FieldAt(fields, k.value), wt, bs, CellAt(st.cells, Slot(fields, k.value)), st.fixedSize, 0);
      }
    } else {
      assert At([], slot) == [] by { FoldNone(c); AtNone(slot); }
      OneLinkNone(c, m);
    }
  }

  lemma AtNone(slot: nat)
    ensures At([], slot) == []
  {
  }

  lemma OneLinkNone(c: Cell, m: nat)
    ensures Chained([], c, m) && EndOf([], c, m) == m
  {
  }

  lemma OneLink(r: Record, c: Cell, m: nat)
    ensures Chained([r], c, m) <==> r.n == m || r.n == 0
    ensures EndOf([r], c, m) == if Decoded(r, c).Ok? then Decoded(r, c).val.1 else m
    ensures Chained([], c, m) && EndOf([], c, m) == m
  {
    hide DecCell;
    assert [r][1..] == [];
  }

  lemma {:induction false} FieldsChain(fields: seq<Field>, i: nat, bs: seq<byte>, st: State, m: nat)
    requires UniqueTags(fields) && i < |fields| && fields[i].FixedCount() && Receives(fields, i, st, m)
    requires DecFields(fields, bs, st).Ok? && Slot(fields, i) < |st.cells|
    ensures var own, c := At(Records(fields, bs, st), Slot(fields, i)), CellAt(st.cells, Slot(fields, i));
      Chained(own, c, m) &&
      LeftComplete(fields, i, st, DecFields(fields, bs, st).val, own, EndOf(own, c, m))
    decreases |bs|
  {
    hide DecTag, DecField, Here, Slot, Follows, UniqueTags;
    var slot := Slot(fields, i);
    var c := CellAt(st.cells, slot);
    AtNone(slot);
    OneLinkNone(c, m);
    if bs != [] && DecTag(bs).Tag? {
      var Tag(wt, tag, rest) := DecTag(bs);
      var Ok(st', rest') := DecField(fields, wt, tag, rest, st);
      var here, more := Here(fields, wt, tag, rest, st), Records(fields, rest', st');
      FieldChain(fields, i, wt, tag, rest, st, m);
      FieldFollows(fields, wt, tag, rest, st, slot);
      FollowsCell(here, slot, st.cells, st'.cells);
      FieldsChain(fields, i, rest', st', EndOf(At(here, slot), c, m));
      AtConcat(here, more, slot);
      ChainConcat(At(here, slot), At(more, slot), c, m);
    }
  }

  lemma FollowsCell(records: seq<Record>, slot: nat, before: seq<Cell>, after: seq<Cell>)
    requires Follows(records, slot, before, after)
    ensures |after| == |before|
    ensures CellAt(after, slot) == Fold(At(records, slot), CellAt(before, slot))
  {
    hide Fold, Steps, At;
  }

  /** A fixed-count array that is met is complete when the parts have been accepted. */
  lemma {:induction false} PartsChain(fields: seq<Field>, i: nat, parts: seq<seq<byte>>, cells: seq<Cell>, m: nat)
    requires UniqueTags(fields) && i < |fields| && fields[i].FixedCount()
    requires DecParts(fields, parts, cells).Some? && Slot(fields, i) < |cells|
    ensures var own, c := At(PartRecords(fields, parts, cells), Slot(fields, i)), CellAt(cells, Slot(fields, i));
      && Chained(own, c, m)
      && EndOf(own, c, m) == if own == [] then m else fields[i].arraySize
    decreases |parts|
  {
    hide DecFields, Records, Slot, Follows, UniqueTags, RequiredPresent;
    var slot := Slot(fields, i);
    var c := CellAt(cells, slot);
    AtNone(slot);
    OneLinkNone(c, m);
    if parts != [] {
      var st1 := DecFields(fields, parts[0], Start(cells)).val;
      var here, more := Records(fields, parts[0], Start(cells)), PartRecords(fields, parts[1..], st1.cells);
      FieldsChain(fields, i, parts[0], Start(cells), m);
      FieldsFollow(fields, parts[0], Start(cells), slot);
      FollowsCell(here, slot, cells, st1.cells);
      PartsChain(fields, i, parts[1..], st1.cells, EndOf(At(here, slot), c, m));
      AtConcat(here, more, slot);
      ChainConcat(At(here, slot), At(more, slot), c, m);
      ChainNone(At(here, slot), c, m);
    }
  }

  lemma ChainNone(records: seq<Record>, c: Cell, m: nat)
    ensures records == [] ==> EndOf(records, c, m) == m
  {
  }
}
