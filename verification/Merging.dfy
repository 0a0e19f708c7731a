/**
  Concatenated messages merge: the required-field check, and fixed-count arrays that are resumed,
  are the only things that can tell a concatenation from two messages decoded one after the other.
 */
module Merging {
  import opened Wire
  import opened WireProperties
  import opened Descriptors
  import opened DecoderSpec
  import opened Locality

  // ---- What a message leaves behind for the next one ----

  /** The first fixed-count array that bs turns the decoder to */
  function FirstFixed(fields: seq<Field>, bs: seq<byte>, st: State): Option<nat>
    decreases |bs|
  {
    if bs == [] then None
    else
      match DecTag(bs)
      case Tag(wt, tag, rest) =>
        var i := Lookup(fields, tag);
        if i.Some? && FieldAt(fields, i.value).FixedCount() then i
        else
          (match DecField(fields, wt, tag, rest, st)
           case Bad => None
           case Ok(st', rest') => FirstFixed(fields, rest', st'))
      case _ => None
  }

  /** The same struct; the required fields seen by s are those seen by t, and some more. */
  predicate Ahead(s: State, t: State, extra: set<nat>) {
    s.cells == t.cells && s.seen == t.seen + extra
  }

  lemma CellIgnoresFixed(f: Field, wt: nat, bs: seq<byte>, c: Cell, m: nat, n: nat)
    requires !f.FixedCount()
    ensures var p, q := DecCell(f, wt, bs, c, m), DecCell(f, wt, bs, c, n);
      if p.Bad? then q.Bad? else q.Ok? && q.rest == p.rest && q.val.0 == p.val.0 && p.val.1 == m && q.val.1 == n
  {
    hide DecValue, DecArray, OneofTarget;
  }

  /** A field that is no fixed-count array takes both states on alike. */
  lemma OtherField(fields: seq<Field>, wt: nat, tag: nat, bs: seq<byte>, s: State, t: State, extra: set<nat>)
    requires Ahead(s, t, extra)
    requires Lookup(fields, tag).Some? ==> !FieldAt(fields, Lookup(fields, tag).value).FixedCount()
    ensures var p, q := DecField(fields, wt, tag, bs, s), DecField(fields, wt, tag, bs, t);
      if p.Bad? then q.Bad?
      else
        && q.Ok? && q.rest == p.rest && Ahead(p.val, q.val, extra)
        && p.val.fixedField == s.fixedField && p.val.fixedSize == s.fixedSize
        && q.val.fixedField == t.fixedField && q.val.fixedSize == t.fixedSize
  {
    hide DecCell, Lookup, SkipField, Slot, RequiredBefore;
    if Lookup(fields, tag).Some? {
      var i := Lookup(fields, tag).value;
      CellIgnoresFixed(FieldAt(fields, i), wt, bs, CellAt(s.cells, Slot(fields, i)), s.fixedSize, t.fixedSize);
    }
  }

  /** A fixed-count array that both states turn to as to a new one takes them on alike. */
  lemma SameTurn(fields: seq<Field>, i: nat, wt: nat, tag: nat, bs: seq<byte>, s: State, t: State, extra: set<nat>)
    requires Ahead(s, t, extra) && Lookup(fields, tag) == Some(i)
    requires Turn(fields, i, s).Some? == Turn(fields, i, t).Some?
    requires Turn(fields, i, s).Some? ==>
      && Turn(fields, i, s).value.fixedField == Turn(fields, i, t).value.fixedField
      && Turn(fields, i, s).value.fixedSize == Turn(fields, i, t).value.fixedSize
    ensures var p, q := DecField(fields, wt, tag, bs, s), DecField(fields, wt, tag, bs, t);
      if p.Bad? then q.Bad?
      else
        && q.Ok? && q.rest == p.rest && Ahead(p.val, q.val, extra)
        && p.val.fixedField == q.val.fixedField && p.val.fixedSize == q.val.fixedSize
  {
    hide DecCell, Lookup, SkipField, Slot, RequiredBefore, FixedComplete;
  }

  /** Both ends are the same, but for the required fields seen. */
  predicate SameEnd(fields: seq<Field>, p: Parsed<State>, q: Parsed<State>, extra: set<nat>) {
    if p.Bad? then q.Bad?
    else
      && q.Ok? && q.rest == p.rest && Ahead(p.val, q.val, extra)
      && FixedComplete(fields, p.val) == FixedComplete(fields, q.val)
  }

  lemma {:induction false} SameFields(fields: seq<Field>, bs: seq<byte>, s: State, t: State, extra: set<nat>)
    requires Ahead(s, t, extra) && s.fixedField == t.fixedField && s.fixedSize == t.fixedSize
    ensures SameEnd(fields, DecFields(fields, bs, s), DecFields(fields, bs, t), extra)
    decreases |bs|
  {
    hide DecTag, DecField, Lookup, Ahead;
    if bs != [] && DecTag(bs).Tag? {
      var Tag(wt, tag, rest) := DecTag(bs);
      SameField(fields, wt, tag, rest, s, t, extra);
      if DecField(fields, wt, tag, rest, s).Ok? {
        var Ok(s', rest') := DecField(fields, wt, tag, rest, s);
        SameFields(fields, rest', s', DecField(fields, wt, tag, rest, t).val, extra);
      }
    }
  }

  lemma SameField(fields: seq<Field>, wt: nat, tag: nat, bs: seq<byte>, s: State, t: State, extra: set<nat>)
    requires Ahead(s, t, extra) && s.fixedField == t.fixedField && s.fixedSize == t.fixedSize
    ensures var p, q := DecField(fields, wt, tag, bs, s), DecField(fields, wt, tag, bs, t);
      if p.Bad? then q.Bad?
      else
        && q.Ok? && q.rest == p.rest && Ahead(p.val, q.val, extra)
        && p.val.fixedField == q.val.fixedField && p.val.fixedSize == q.val.fixedSize
  {
    hide DecField, Lookup;
    if Lookup(fields, tag).Some? {
      SameTurn(fields, Lookup(fields, tag).value, wt, tag, bs, s, t, extra);
    } else {
      OtherField(fields, wt, tag, bs, s, t, extra);
    }
  }

  /**
    After a complete message, decoding goes on as from a new start, unless bs begins with the
    fixed-count array that was received last.
   */
  lemma {:induction false} FreshEnough(fields: seq<Field>, bs: seq<byte>, s: State, t: State, extra: set<nat>)
    requires Ahead(s, t, extra) && FixedComplete(fields, s) && t.fixedField.None? && t.fixedSize == 0
    requires var first := FirstFixed(fields, bs, t);
      first.Some? && first == s.fixedField ==> FieldAt(fields, first.value).arraySize == 0
    ensures SameEnd(fields, DecFields(fields, bs, s), DecFields(fields, bs, t), extra)
    decreases |bs|
  {
    hide DecTag, DecField, Lookup, Ahead;
    if bs != [] && DecTag(bs).Tag? {
      var Tag(wt, tag, rest) := DecTag(bs);
      var i := Lookup(fields, tag);
      if i.Some? && FieldAt(fields, i.value).FixedCount() {
        SameTurn(fields, i.value, wt, tag, rest, s, t, extra);
        if DecField(fields, wt, tag, rest, s).Ok? {
          var Ok(s', rest') := DecField(fields, wt, tag, rest, s);
          SameFields(fields, rest', s', DecField(fields, wt, tag, rest, t).val, extra);
        }
      } else {
        OtherField(fields, wt, tag, rest, s, t, extra);
        if DecField(fields, wt, tag, rest, s).Ok? {
          var Ok(s', rest') := DecField(fields, wt, tag, rest, s);
          FreshEnough(fields, rest', s', DecField(fields, wt, tag, rest, t).val, extra);
        }
      }
    }
  }

  // ---- Merging ----

  /** x is a run of whole fields, without a zero tag, that leaves no fixed-count array incomplete. */
  predicate WholeFields(fields: seq<Field>, x: seq<byte>, cells: seq<Cell>) {
    var st1 := Runs(fields, x, Start(cells));
    st1.Some? && FixedComplete(fields, st1.value)
  }

  /** The first fixed-count array in y is the one that x ended with. */
  predicate Resumes(fields: seq<Field>, x: seq<byte>, y: seq<byte>, cells: seq<Cell>) {
    var st1 := Runs(fields, x, Start(cells));
    && st1.Some? && st1.value.fixedField.Some?
    && FirstFixed(fields, y, Start(st1.value.cells)) == st1.value.fixedField
    && FieldAt(fields, st1.value.fixedField.value).arraySize > 0
  }

  /**
    Concatenation is merging: unless y resumes a fixed-count array, decoding x ++ y is decoding
    x and then y into the same struct, with the required fields of both counted together.
   */
  lemma ConcatenationMerges(fields: seq<Field>, x: seq<byte>, y: seq<byte>, cells: seq<Cell>)
    requires WholeFields(fields, x, cells) && !Resumes(fields, x, y, cells)
    ensures var st1 := Runs(fields, x, Start(cells)).value;
      DecMessage(fields, x + y, cells) ==
      match DecFields(fields, y, Start(st1.cells))
      case Bad => Bad
      case Ok(st2, rest) =>
        if FixedComplete(fields, st2) && RequiredPresent(fields, st1.seen + st2.seen) then Ok(st2.cells, rest) else Bad
  {
    hide DecFields, Runs, RequiredPresent, FirstFixed;
    RunsThen(fields, x, y, Start(cells));
    var st1 := Runs(fields, x, Start(cells)).value;
    FreshEnough(fields, y, st1, Start(st1.cells), st1.seen);
    var r := DecFields(fields, y, Start(st1.cells));
    if r.Ok? {
      assert r.val.seen + st1.seen == st1.seen + r.val.seen;
    }
  }

  /** Without required fields the two ways of decoding agree in verdict, struct and bytes left. */
  lemma MergeWithoutRequired(fields: seq<Field>, x: seq<byte>, y: seq<byte>, cells: seq<Cell>)
    requires RequiredBefore(fields, |fields|) == 0
    requires WholeFields(fields, x, cells) && !Resumes(fields, x, y, cells)
    ensures var first := DecMessage(fields, x, cells);
      first.Ok? && first.rest == [] && DecMessage(fields, x + y, cells) == DecMessage(fields, y, first.val)
  {
    hide DecFields, Runs, Resumes;
    RunsDecodes(fields, x, Start(cells));
    ConcatenationMerges(fields, x, y, cells);
  }

  /** With required fields, two messages that both decode still merge. */
  lemma MergeOfComplete(fields: seq<Field>, x: seq<byte>, y: seq<byte>, cells: seq<Cell>)
    requires WholeFields(fields, x, cells) && !Resumes(fields, x, y, cells)
    requires DecMessage(fields, x, cells).Ok?
    requires DecMessage(fields, y, DecMessage(fields, x, cells).val).Ok?
    ensures DecMessage(fields, x + y, cells) == DecMessage(fields, y, DecMessage(fields, x, cells).val)
  {
    hide DecFields, Runs, RequiredTracked, Resumes;
    RunsDecodes(fields, x, Start(cells));
    ConcatenationMerges(fields, x, y, cells);
  }

  /** Accepted to the end, with no fixed-count array left incomplete */
  predicate Accepted(fields: seq<Field>, r: Parsed<State>) {
    r.Ok? && FixedComplete(fields, r.val)
  }

  lemma KnownTag(fields: seq<Field>, i: nat, wt: nat, w: seq<byte>)
    requires UniqueTags(fields) && i < |fields| && wt < 8
    ensures DecTag(EncTag(wt, fields[i].tag) + w) == Tag(wt, fields[i].tag, w)
    ensures Lookup(fields, fields[i].tag) == Some(i) && EncTag(wt, fields[i].tag) + w != []
  {
    TagRoundTrip(wt, fields[i].tag, w);
    LookupUnique(fields, i);
  }

  // ---- What a field's old contents and its wire type do not matter for ----

  /** Only for a packable array is the wire type of a known field looked at. */
  lemma WireTypeIgnored(fields: seq<Field>, i: nat, wt: nat, wt2: nat, tag: nat, bs: seq<byte>, st: State)
    requires Lookup(fields, tag) == Some(i)
    requires !(FieldAt(fields, i).htype.Repeated? && FieldAt(fields, i).Packable())
    ensures DecField(fields, wt, tag, bs, st) == DecField(fields, wt2, tag, bs, st)
  {
    hide DecCell, Lookup, Slot, Mark, Turn;
    var turned := Turn(fields, i, st);
    if turned.Some? {
      var c := CellAt(turned.value.cells, Slot(fields, i));
      CellIgnoresWireType(FieldAt(fields, i), wt, wt2, bs, c, turned.value.fixedSize);
    }
    assert DecKnown(fields, i, wt, bs, st) == DecKnown(fields, i, wt2, bs, st);
  }

  lemma CellIgnoresWireType(f: Field, wt: nat, wt2: nat, bs: seq<byte>, c: Cell, n: nat)
    requires !(f.htype.Repeated? && f.Packable())
    ensures DecCell(f, wt, bs, c, n) == DecCell(f, wt2, bs, c, n)
  {
    hide DecValue, OneofTarget;
    if f.htype.Repeated? {
      assert forall m: nat, items :: DecArray(f, wt, bs, m, items) == DecArray(f, wt2, bs, m, items);
    }
  }

  lemma BoolVerdict(f: Field, bs: seq<byte>, prior: Value)
    requires f.ltype.LBool?
    ensures var p, r := DecValue(f, bs, prior), DecVarint32(bs); p.Ok? == r.Ok? && (p.Ok? ==> p.rest == r.rest)
  {
    hide DecVarint32;
  }

  /** In an empty table tag 0 finds the terminator: the payload is read as a varint. */
  lemma EmptyTableTag(wt: nat, bs: seq<byte>, st: State)
    requires st.cells == []
    ensures DecField([], wt, 0, bs, st) ==
      (var r := DecVarint32(bs); if r.Ok? then Ok(st.(seen := st.seen + {0}), r.rest) else Bad)
  {
    hide DecVarint32;
    assert RequiredBefore([], 0) == 0 && FieldAt([], 0) == TERMINATOR;
    assert Mark([], 0, st.seen) == st.seen + {0};
    var r := DecCell(TERMINATOR, wt, bs, CellAt(st.cells, 0), st.fixedSize);
    BoolVerdict(TERMINATOR, bs, CellValue(CellAt(st.cells, 0)));
    assert r.Ok? == DecVarint32(bs).Ok?;
    if r.Ok? {
      assert r.rest == DecVarint32(bs).rest && r.val.1 == st.fixedSize;
      assert WithCell(st.cells, 0, r.val.0) == [];
      assert DecKnown([], 0, wt, bs, st) == Ok(st.(seen := st.seen + {0}), r.rest);
    } else {
      assert DecKnown([], 0, wt, bs, st).Bad?;
    }
  }
}
