/**
  What concatenation and unknown fields mean for encoded messages: a reader of an older schema, and
  a reader that is given two messages in one.
 */
module Compatibility {
  import opened Words
  import opened Wire
  import WireProperties
  import opened Descriptors
  import opened EncoderSpec
  import opened DecoderSpec
  import opened Logical
  import opened Defaults
  import opened RoundTrip
  import opened Locality
  import opened Merging
  import opened UnknownFields
  import opened Framing

  /** Input that decodes to its very end, and so does with a zero behind it, has no zero tag. */
  lemma {:induction false} RunsIfNoZeroTag(fields: seq<Field>, x: seq<byte>, st: State)
    requires DecFields(fields, x, st).Ok? && DecFields(fields, x, st).rest == []
    requires DecFields(fields, x + [0], st).Ok? && DecFields(fields, x + [0], st).rest == []
    ensures Runs(fields, x, st) == Some(DecFields(fields, x, st).val)
    decreases |x|
  {
    hide DecTag, DecField;
    if x != [] {
      WireLocal(x);
      if DecTag(x).Tag? {
        var Tag(wt, tag, rest) := DecTag(x);
        DecFieldLocal(fields, wt, tag, rest, [0], st);
        var Ok(st', rest') := DecField(fields, wt, tag, rest, st);
        RunsIfNoZeroTag(fields, rest', st');
      }
    }
  }

  lemma WireLocal(x: seq<byte>)
    requires x != []
    ensures DecTag(x).Tag? ==> DecTag(x + [0]) == DecTag(x).(rest := DecTag(x).rest + [0])
    ensures DecTag(x).End? ==> DecTag(x + [0]) == End(DecTag(x).rest + [0])
  {
    WireProperties.DecTagLocal(x, [0]);
  }

  /** An encoded message consists of whole fields. */
  lemma EncodedRuns(fields: seq<Field>, src: seq<Cell>, dest: seq<Cell>)
    requires WellFormed(fields) && ZeroDefaults(fields) && Encodes(fields, src) && Fresh(fields, dest)
    ensures Runs(fields, EncMessage(fields, src).value, Start(dest)).Some?
  {
    hide DecFields, EncFields, Progress, SameMessage, Fresh, Shape, Terminated, WellFormed, ZeroDefaults, Runs;
    StartProgress(fields, src, dest);
    var m := EncMessage(fields, src).value;
    var st := FieldsRoundTrip(fields, src, 0, Start(dest), []);
    var st0 := FieldsRoundTrip(fields, src, 0, Start(dest), [0]);
    assert m + [] == m && [0] + [] == [0];
    NothingLeft(fields, st, []);
    NothingLeft(fields, st0, []);
    RunsIfNoZeroTag(fields, m, Start(dest));
  }

  ghost predicate AllUnknown(fields: seq<Field>, other: seq<Field>, extra: seq<Cell>) {
    && (forall j | 0 <= j < |other| :: UnknownTag(fields, other[j].tag))
    && EncMessage(other, extra).Some? && |EncMessage(other, extra).value| < U32
  }

  /**
    A message of a newer schema, with fields unknown to the reader before and behind the known
    ones, is read as the known part of it.
   */
  lemma OlderReader(fields: seq<Field>, src: seq<Cell>, other: seq<Field>,
                    before: seq<Cell>, behind: seq<Cell>, dest: seq<Cell>)
    requires WellFormed(fields) && ZeroDefaults(fields) && Encodes(fields, src) && Shape(fields, dest)
    requires AllUnknown(fields, other, before) && AllUnknown(fields, other, behind)
    ensures var bs := EncMessage(other, before).value + EncMessage(fields, src).value + EncMessage(other, behind).value;
      var r := Decode(fields, bs, dest);
      r.Ok? && r.rest == [] && SameMessage(fields, src, r.val)
  {
    hide DecMessage, EncMessage, Runs, Fresh, SameMessage, Shape, Terminated, WellFormed, ZeroDefaults, UnknownTag;
    var u, m, v := EncMessage(other, before).value, EncMessage(fields, src).value, EncMessage(other, behind).value;
    var d := SetDefaults(fields, dest);
    SetDefaultsFresh(fields, dest);
    MessageRoundTrip(fields, src, d);
    EncodedRuns(fields, src, d);
    assert [] + u + (m + v) == u + m + v && [] + (m + v) == m + v;
    EmptyRuns(fields, Start(d));
    UnknownFieldsTransparent(fields, other, before, [], m + v, d);
    assert m + v + [] == m + v && m + [] == m;
    UnknownFieldsTransparent(fields, other, behind, m, [], d);
  }

  lemma EmptyRuns(fields: seq<Field>, st: State)
    ensures Runs(fields, [], st).Some?
  {
  }

  lemma MoreSeen(fields: seq<Field>, seen: set<nat>, more: set<nat>)
    requires RequiredPresent(fields, seen)
    ensures RequiredPresent(fields, seen + more)
  {
    hide RequiredTracked;
  }

  /**
    More fields behind an encoded message are decoded into its struct. Its own required fields
    count, so what follows need not have any.
   */
  lemma EncodedMessagesMerge(fields: seq<Field>, first: seq<Cell>, second: seq<byte>, dest: seq<Cell>)
    requires WellFormed(fields) && ZeroDefaults(fields) && Encodes(fields, first) && Shape(fields, dest)
    requires !Resumes(fields, EncMessage(fields, first).value, second, SetDefaults(fields, dest))
    ensures var m := EncMessage(fields, first).value;
      && Decode(fields, m, dest).Ok?
      && var r := DecFields(fields, second, Start(Decode(fields, m, dest).val));
        Decode(fields, m + second, dest) == if Accepted(fields, r) then Ok(r.val.cells, r.rest) else Bad
  {
    hide DecFields, EncMessage, Runs, Fresh, Shape, Terminated, WellFormed, ZeroDefaults, Resumes, RequiredPresent;
    var m, d := EncMessage(fields, first).value, SetDefaults(fields, dest);
    SetDefaultsFresh(fields, dest);
    EncodedRuns(fields, first, d);
    RoundTripTheorem(fields, first, dest);
    RunsDecodes(fields, m, Start(d));
    var st1 := Runs(fields, m, Start(d)).value;
    ConcatenationMerges(fields, m, second, d);
    var r := DecFields(fields, second, Start(st1.cells));
    if r.Ok? {
      MoreSeen(fields, st1.seen, r.val.seen);
    }
  }

  lemma UnionCell(f: Field, wt: nat, bs: seq<byte>, c: Cell, d: Cell, n: nat)
    requires f.htype.Oneof? && f.ltype.LSubmessage?
    ensures DecCell(f, wt, bs, c, n) == DecCell(f, wt, bs, d, n)
  {
    hide DecValue, FreshMessage;
  }

  lemma UnionKnown(fields: seq<Field>, i: nat, wt: nat, w: seq<byte>, wt2: nat, w2: seq<byte>, st: State)
    requires i < |fields| && fields[i].htype.Oneof? && fields[i].ltype.LSubmessage?
    requires DecKnown(fields, i, wt, w, st).Ok?
    ensures DecKnown(fields, i, wt2, w2, DecKnown(fields, i, wt, w, st).val) == DecKnown(fields, i, wt2, w2, st)
  {
    hide DecCell, Slot;
    var f, slot, st1 := fields[i], Slot(fields, i), DecKnown(fields, i, wt, w, st).val;
    UnionCell(f, wt2, w2, CellAt(st1.cells, slot), CellAt(st.cells, slot), st.fixedSize);
    UnionCount(f, wt, w, CellAt(st.cells, slot), st.fixedSize);
    assert st1.fixedSize == st.fixedSize && st1.seen == st.seen && st1.fixedField == st.fixedField;
    var r := DecCell(f, wt2, w2, CellAt(st.cells, slot), st.fixedSize);
    if r.Ok? {
      assert WithCell(st1.cells, slot, r.val.0) == WithCell(st.cells, slot, r.val.0);
    }
  }

  lemma UnionCount(f: Field, wt: nat, bs: seq<byte>, c: Cell, n: nat)
    requires f.htype.Oneof? && DecCell(f, wt, bs, c, n).Ok?
    ensures DecCell(f, wt, bs, c, n).val.1 == n
  {
    hide DecValue, OneofTarget;
  }

  /**
    A union submessage that comes in two parts is the second part: the record before it is as if
    it were not there.
   */
  lemma OneofReplaced(fields: seq<Field>, i: nat, wt: nat, payload: seq<byte>, wt2: nat, w: seq<byte>, st: State)
    requires UniqueTags(fields) && i < |fields| && wt < 8 && wt2 < 8
    requires fields[i].htype.Oneof? && fields[i].ltype.LSubmessage?
    requires DecKnown(fields, i, wt, payload, st).Ok? && DecKnown(fields, i, wt, payload, st).rest == []
    ensures var second := EncTag(wt2, fields[i].tag) + w;
      DecFields(fields, EncTag(wt, fields[i].tag) + payload + second, st) == DecFields(fields, second, st)
  {
    hide DecFields, DecKnown, EncTag, UniqueTags, Lookup;
    var second := EncTag(wt2, fields[i].tag) + w;
    assert EncTag(wt, fields[i].tag) + payload + second == EncTag(wt, fields[i].tag) + (payload + second);
    RecordStep(fields, i, wt, payload + second, st);
    KnownTag(fields, i, wt, payload);
    KnownIsField(fields, i, wt, payload, st);
    KnownIsField(fields, i, wt, payload + second, st);
    DecFieldLocal(fields, wt, fields[i].tag, payload, second, st);
    var st1 := DecKnown(fields, i, wt, payload, st).val;
    assert [] + second == second;
    RecordStep(fields, i, wt2, w, st1);
    RecordStep(fields, i, wt2, w, st);
    UnionKnown(fields, i, wt, payload, wt2, w, st);
  }

  lemma KnownIsField(fields: seq<Field>, i: nat, wt: nat, bs: seq<byte>, st: State)
    requires i < |fields| && Lookup(fields, fields[i].tag) == Some(i)
    ensures DecField(fields, wt, fields[i].tag, bs, st) == DecKnown(fields, i, wt, bs, st)
  {
    hide DecKnown, Lookup;
  }
}
