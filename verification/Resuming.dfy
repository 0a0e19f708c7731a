/**
  Input that goes on with the fixed-count array that the input before it ended with: the one case
  in which concatenation is not merging, and exactly when it is.
 */
module Resuming {
  import opened Wire
  import opened WireProperties
  import opened Descriptors
  import opened DecoderSpec
  import opened Locality
  import opened Merging

  /** A full array takes no further element; an empty packed block adds none to a new one. */
  lemma FullAndEmpty(f: Field, wt: nat, bs: seq<byte>, c: Cell, n: nat)
    requires f.FixedCount() && n >= f.arraySize > 0
    ensures var p, q := DecCell(f, wt, bs, c, n), DecCell(f, wt, bs, c, 0);
      p.Ok? ==> q.Ok? && p.rest == q.rest && p.val.0 == q.val.0 && p.val.1 == n && q.val.1 == 0
  {
    hide DecValue, DecString, DecItems;
    var items := CellItems(c);
    if DecString(bs).Ok? {
      FullItems(f, DecString(bs).val, n, items);
    }
    assert DecArray(f, wt, bs, n, items).Ok? ==> DecArray(f, wt, bs, 0, items).Ok?;
  }

  lemma FullItems(f: Field, window: seq<byte>, n: nat, items: seq<Value>)
    requires n >= f.arraySize
    ensures DecItems(f, window, n, items) == if window == [] then Ok((n, items), []) else Bad
    ensures window == [] ==> DecItems(f, window, 0, items) == Ok((0, items), [])
  {
    hide DecValue;
  }

  lemma ResumeStep(fields: seq<Field>, j: nat, wt: nat, tag: nat, bs: seq<byte>, s: State, t: State, extra: set<nat>)
    requires Ahead(s, t, extra) && FieldAt(fields, j).FixedCount() && Lookup(fields, tag) == Some(j)
    requires s.fixedField == Some(j) && s.fixedSize == FieldAt(fields, j).arraySize > 0
    requires (t.fixedField.None? && t.fixedSize == 0) || (t.fixedField == Some(j) && t.fixedSize == 0)
    ensures var p, q := DecField(fields, wt, tag, bs, s), DecField(fields, wt, tag, bs, t);
      p.Ok? ==>
        && q.Ok? && p.rest == q.rest && Ahead(p.val, q.val, extra)
        && p.val.fixedField == Some(j) == q.val.fixedField && p.val.fixedSize == s.fixedSize && q.val.fixedSize == 0
  {
    hide DecCell, Lookup, SkipField, Slot, RequiredBefore;
    FullAndEmpty(FieldAt(fields, j), wt, bs, CellAt(s.cells, Slot(fields, j)), s.fixedSize);
    assert Turn(fields, j, s) == Some(s);
    assert Turn(fields, j, t) == Some(t.(fixedField := Some(j), fixedSize := 0));
  }

  /** From a full array and from a new one, decoding cannot succeed in both. */
  lemma {:induction false} NotFromBoth(fields: seq<Field>, j: nat, bs: seq<byte>, s: State, t: State, extra: set<nat>)
    requires Ahead(s, t, extra) && FieldAt(fields, j).FixedCount()
    requires s.fixedField == Some(j) && s.fixedSize == FieldAt(fields, j).arraySize > 0 && t.fixedSize == 0
    requires t.fixedField == Some(j) || (t.fixedField.None? && FirstFixed(fields, bs, t) == Some(j))
    ensures !Accepted(fields, DecFields(fields, bs, s)) || !Accepted(fields, DecFields(fields, bs, t))
    decreases |bs|
  {
    hide DecTag, DecField, Lookup, Ahead;
    if bs != [] && DecTag(bs).Tag? {
      var Tag(wt, tag, rest) := DecTag(bs);
      var i := Lookup(fields, tag);
      if i == Some(j) {
        ResumeStep(fields, j, wt, tag, rest, s, t, extra);
      } else if i.Some? && FieldAt(fields, i.value).FixedCount() {
        LeavesIncomplete(fields, i.value, wt, tag, rest, t);
      } else {
        OtherField(fields, wt, tag, rest, s, t, extra);
      }
      if DecField(fields, wt, tag, rest, s).Ok? && DecField(fields, wt, tag, rest, t).Ok? {
        var Ok(s', rest') := DecField(fields, wt, tag, rest, s);
        NotFromBoth(fields, j, rest', s', DecField(fields, wt, tag, rest, t).val, extra);
      }
    }
  }

  lemma LeavesIncomplete(fields: seq<Field>, i: nat, wt: nat, tag: nat, bs: seq<byte>, t: State)
    requires Lookup(fields, tag) == Some(i) && FieldAt(fields, i).FixedCount()
    requires !FixedComplete(fields, t) && t.fixedField != Some(i)
    ensures DecField(fields, wt, tag, bs, t).Bad?
  {
    hide DecCell, Lookup, SkipField, Slot, FixedComplete;
  }

  /** When y resumes the array, the concatenation and y by itself are never both accepted. */
  lemma ResumedNeverBoth(fields: seq<Field>, x: seq<byte>, y: seq<byte>, cells: seq<Cell>)
    requires WholeFields(fields, x, cells) && Resumes(fields, x, y, cells)
    ensures DecMessage(fields, x + y, cells).Bad? ||
      DecMessage(fields, y, Runs(fields, x, Start(cells)).value.cells).Bad?
  {
    hide DecFields, Runs, FirstFixed, RequiredPresent;
    RunsThen(fields, x, y, Start(cells));
    var st1 := Runs(fields, x, Start(cells)).value;
    FirstFixedIsFixed(fields, y, Start(st1.cells));
    NotFromBoth(fields, st1.fixedField.value, y, st1, Start(st1.cells), st1.seen);
  }

  lemma {:induction false} FirstFixedIsFixed(fields: seq<Field>, bs: seq<byte>, st: State)
    requires FirstFixed(fields, bs, st).Some?
    ensures FieldAt(fields, FirstFixed(fields, bs, st).value).FixedCount()
    decreases |bs|
  {
    hide DecTag, DecField, Lookup;
    var Tag(wt, tag, rest) := DecTag(bs);
    var i := Lookup(fields, tag);
    if i.None? || !FieldAt(fields, i.value).FixedCount() {
      var Ok(st', rest') := DecField(fields, wt, tag, rest, st);
      FirstFixedIsFixed(fields, rest', st');
    }
  }

  /**
    Exactly when concatenation is merging, in a table without required fields: unless y resumes
    the fixed-count array that x ended with; and then only if both ways refuse the input.
   */
  lemma MergesExactly(fields: seq<Field>, x: seq<byte>, y: seq<byte>, cells: seq<Cell>)
    requires RequiredBefore(fields, |fields|) == 0 && WholeFields(fields, x, cells)
    ensures DecMessage(fields, x, cells).Ok?
    ensures var both := DecMessage(fields, x + y, cells);
      var second := DecMessage(fields, y, DecMessage(fields, x, cells).val);
      both == second <==> !Resumes(fields, x, y, cells) || (both.Bad? && second.Bad?)
  {
    hide DecFields, Runs, Resumes;
    RunsDecodes(fields, x, Start(cells));
    if Resumes(fields, x, y, cells) {
      ResumedNeverBoth(fields, x, y, cells);
    } else {
      MergeWithoutRequired(fields, x, y, cells);
    }
  }

  /** A table with one fixed-count array of one element, and that element on the wire */
  const ONE_FIXED: Field := Field(1, LFixed32, Repeated, 0, 0, 4, 1, Null)
  const ONE_ELEMENT: seq<byte> := EncTag(WT_32BIT, 1) + EncFixed32(7)

  lemma OneElement(st: State, y: seq<byte>)
    requires |st.cells| == 1 && st.cells[0].Fix? && |st.cells[0].items| == 1 && st.fixedField.None?
    ensures DecFields([ONE_FIXED], ONE_ELEMENT + y, st) ==
      DecFields([ONE_FIXED], y, State([Fix([VNum(7)])], st.seen, Some(0), 1))
    ensures FirstFixed([ONE_FIXED], ONE_ELEMENT + y, st) == Some(0)
    ensures Runs([ONE_FIXED], ONE_ELEMENT + y, st) ==
      Runs([ONE_FIXED], y, State([Fix([VNum(7)])], st.seen, Some(0), 1))
  {
    hide EncTag, DecTag, DecValue, EncFixed32;
    var fields := [ONE_FIXED];
    assert ONE_ELEMENT + y == EncTag(WT_32BIT, 1) + (EncFixed32(7) + y);
    assert UniqueTags(fields) && fields[0].tag == 1;
    KnownTag(fields, 0, WT_32BIT, EncFixed32(7) + y);
    OneValue(y, st.cells[0].items[0]);
    assert [VNum(7)] == WithItem(st.cells[0].items, 0, VNum(7));
    assert DecArray(ONE_FIXED, WT_32BIT, EncFixed32(7) + y, 0, st.cells[0].items) == Ok((1, [VNum(7)]), y);
    assert Slot(fields, 0) == 0;
    assert WithCell(st.cells, 0, Fix([VNum(7)])) == [Fix([VNum(7)])];
    assert DecKnown(fields, 0, WT_32BIT, EncFixed32(7) + y, st) ==
      Ok(State([Fix([VNum(7)])], st.seen, Some(0), 1), y);
  }

  lemma OneValue(y: seq<byte>, prior: Value)
    ensures DecValue(ONE_FIXED, EncFixed32(7) + y, prior) == Ok(VNum(7), y)
  {
    hide EncFixed32, DecFixed32;
    Fixed32RoundTrip(7, y);
  }

  /**
    Why the exception is needed: a message that is accepted, and accepted again after itself, is
    refused when it comes twice in one input.
   */
  lemma FixedCountDoesNotMerge(cells: seq<Cell>)
    requires Shape([ONE_FIXED], cells)
    ensures var first := DecMessage([ONE_FIXED], ONE_ELEMENT, cells);
      && first.Ok? && first.rest == []
      && DecMessage([ONE_FIXED], ONE_ELEMENT, first.val).Ok?
      && DecMessage([ONE_FIXED], ONE_ELEMENT + ONE_ELEMENT, cells).Bad?
  {
    hide DecFields, FirstFixed, Runs, ONE_ELEMENT;
    var fields, again := [ONE_FIXED], [Fix([VNum(7)])];
    assert Slot(fields, 0) == 0 && CellShape(fields[0], CellAt(cells, Slot(fields, 0)));
    assert ONE_ELEMENT + [] == ONE_ELEMENT;
    OneElement(Start(cells), []);
    OneElement(Start(again), []);
    NoBytes(fields, State(again, {}, Some(0), 1));
    assert RequiredBefore(fields, 1) == 0;
    ResumedNeverBoth(fields, ONE_ELEMENT, ONE_ELEMENT, cells);
  }

  lemma NoBytes(fields: seq<Field>, st: State)
    ensures DecFields(fields, [], st) == Ok(st, []) && Runs(fields, [], st) == Some(st)
  {
  }
}
