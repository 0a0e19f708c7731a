/**
  Char arrays that their strings fill up without a terminator: the encoder sends them, and the
  decoder then refuses the whole message. So an encoded message is accepted exactly if all strings
  in it are terminated.
 */
module Unterminated {
  import opened Words
  import opened Wire
  import opened WireProperties
  import opened Descriptors
  import opened EncoderSpec
  import opened DecoderSpec
  import opened Logical
  import opened Defaults
  import opened RoundTrip

  lemma {:induction false} ValueFails(f: Field, v: Value, y: seq<byte>, prior: Value)
    requires WellFormedField(f) && ZeroDefault(f) && ValueShape(f, v) && !TerminatedValue(f, v) && Ready(f, prior)
    requires EncValue(f, v).Some? && |EncValue(f, v).value| < U32
    ensures DecValue(f, EncValue(f, v).value + y, prior).Bad?
    decreases f, 1
  {
    hide EncValue, DecValue, ValueShape, WellFormedField, ZeroDefault, Ready;
    if f.ltype.LString? {
      CharsExact(f, v, y, prior);
    } else {
      SubmessageFails(f, v, y, prior);
    }
  }

  lemma {:induction false} SubmessageFails(f: Field, v: Value, y: seq<byte>, prior: Value)
    requires WellFormedField(f) && ZeroDefault(f) && ValueShape(f, v) && !TerminatedValue(f, v) && Ready(f, prior)
    requires f.ltype.LSubmessage? && EncValue(f, v).Some? && |EncValue(f, v).value| < U32
    ensures DecValue(f, EncValue(f, v).value + y, prior).Bad?
    decreases f, 0
  {
    hide DecString, EncVarint;
    var sub := f.ptr.fields;
    var w := EncFields(sub, v.cells, 0).value;
    var dest := if f.htype.Repeated? then SetDefaults(sub, prior.cells) else prior.cells;
    if f.htype.Repeated? {
      SetDefaultsFresh(sub, prior.cells);
    }
    MessageFails(sub, v.cells, dest);
    StringRoundTrip(w, y);
  }

  lemma {:induction false} MessageFails(fields: seq<Field>, src: seq<Cell>, dest: seq<Cell>)
    requires WellFormed(fields) && ZeroDefaults(fields)
    requires Shape(fields, src) && !Terminated(fields, src) && Fresh(fields, dest)
    requires EncMessage(fields, src).Some? && |EncMessage(fields, src).value| < U32
    ensures DecMessage(fields, EncMessage(fields, src).value, dest).Bad?
    decreases fields, |fields| + 1
  {
    hide DecFields, EncFields, Progress, Fresh, TerminatedCell;
    StartProgress(fields, src, dest);
    var m := EncMessage(fields, src).value;
    FieldsFail(fields, src, 0, Start(dest), []);
    assert m + [] == m;
  }

  /** A field from position i on has an unterminated string. */
  ghost predicate FailsFrom(fields: seq<Field>, src: seq<Cell>, i: nat) {
    exists j :: i <= j < |fields| && !TerminatedCell(fields[j], CellAt(src, Slot(fields, j)))
  }

  lemma {:induction false} FieldsFail(fields: seq<Field>, src: seq<Cell>, i: nat, st: State, y: seq<byte>)
    requires WellFormed(fields) && ZeroDefaults(fields) && Shape(fields, src) && FailsFrom(fields, src, i)
    requires i < |fields| && Progress(fields, src, i, st)
    requires EncFields(fields, src, i).Some? && |EncFields(fields, src, i).value| < U32
    ensures DecFields(fields, EncFields(fields, src, i).value + y, st).Bad?
    decreases fields, |fields| - i, 1
  {
    hide WellFormed, ZeroDefaults, Shape, Progress, EncFields, EncField, DecFields, TerminatedCell, Slot;
    EncFieldsStep(fields, src, i, y);
    var more := EncFields(fields, src, i + 1).value;
    if TerminatedCell(fields[i], CellAt(src, Slot(fields, i))) {
      var st' := FieldRoundTrip(fields, src, i, st, more + y);
      FieldsFail(fields, src, i + 1, st', y);
    } else {
      FieldFails(fields, src, i, st, more + y);
    }
  }

  lemma {:induction false} FieldFails(fields: seq<Field>, src: seq<Cell>, i: nat, st: State, y: seq<byte>)
    requires WellFormed(fields) && ZeroDefaults(fields) && Shape(fields, src)
    requires i < |fields| && Progress(fields, src, i, st)
    requires !TerminatedCell(fields[i], CellAt(src, Slot(fields, i)))
    requires var b := EncField(fields[i], CellAt(src, Slot(fields, i))); b.Some? && |b.value| < U32
    ensures DecFields(fields, EncField(fields[i], CellAt(src, Slot(fields, i))).value + y, st).Bad?
    decreases fields, |fields| - i, 0
  {
    hide *;
    var f, a, c := fields[i], CellAt(src, Slot(fields, i)), CellAt(st.cells, Slot(fields, i));
    FieldFacts(fields, src, i, st);
    if f.htype.Repeated? {
      ArrayFresh(f, c);
      var values := ArraySent(f, a);
      var wt, w := ArrayBytes(f, values);
      assert EncTag(wt, f.tag) + w + y == EncTag(wt, f.tag) + (w + y);
      FirstRecord(fields, i, wt, w + y, st);
      TaggedFails(fields, i, values, 0, CellItems(c), st, y);
    } else {
      SingleReady(f, c);
      SingleSent(f, a);
      var v := CellValue(a);
      var prior := if f.htype.Oneof? then OneofTarget(f, c) else CellValue(c);
      SingleBytes(f, v, y);
      ValueFails(f, v, y, prior);
      RecordFails(fields, i, EncValue(f, v).value + y, st);
    }
  }

  lemma SingleSent(f: Field, a: Cell)
    requires CellShape(f, a) && !TerminatedCell(f, a) && !f.htype.Repeated? && EncField(f, a).Some?
    ensures EncField(f, a) == EncSingle(f, CellValue(a))
    ensures ValueShape(f, CellValue(a)) && !TerminatedValue(f, CellValue(a))
  {
    hide EncSingle, IsDefault, ValueShape, TerminatedValue;
  }

  lemma RecordFails(fields: seq<Field>, i: nat, w: seq<byte>, st: State)
    requires UniqueTags(fields) && i < |fields| && !fields[i].htype.Repeated?
    requires var f, c := fields[i], CellAt(st.cells, Slot(fields, i));
      DecValue(f, w, if f.htype.Oneof? then OneofTarget(f, c) else CellValue(c)).Bad?
    ensures DecFields(fields, FieldTag(fields[i]) + w, st).Bad?
  {
    hide DecFields, DecValue, OneofTarget, EncTag, Slot, Mark, UniqueTags;
    RecordStep(fields, i, WireType(fields[i].ltype), w, st);
  }

  /** Some value has an unterminated string. */
  ghost predicate SomeFails(f: Field, values: seq<Value>) {
    exists k :: 0 <= k < |values| && !TerminatedValue(f, values[k])
  }

  lemma ArraySent(f: Field, a: Cell) returns (values: seq<Value>)
    requires f.htype.Repeated? && CellShape(f, a) && !TerminatedCell(f, a) && EncField(f, a).Some?
    ensures 0 < |values| <= f.arraySize && SomeFails(f, values) && !f.Packable()
    ensures EncField(f, a) == EncTagged(f, values)
    ensures forall k | 0 <= k < |values| :: ValueShape(f, values[k])
  {
    hide EncPacked, EncTagged, ValueShape;
    var count := if f.sizeOffset == 0 then f.arraySize else a.count;
    var k :| 0 <= k < count && k < |a.items| && !TerminatedValue(f, a.items[k]);
    values := a.items[..count];
    assert values[k] == a.items[k];
  }

  lemma {:induction false} TaggedFails(
    fields: seq<Field>, i: nat, values: seq<Value>, n: nat, prior: seq<Value>, st: State, y: seq<byte>)
    requires WellFormed(fields) && ZeroDefaults(fields) && i < |fields| && |st.cells| == SlotCount(fields)
    requires fields[i].htype.Repeated? && !fields[i].Packable()
    requires n + |values| <= fields[i].arraySize == |prior|
    requires forall k | 0 <= k < |values| :: ValueShape(fields[i], values[k])
    requires forall k | n <= k < |prior| :: ValueShape(fields[i], prior[k])
    requires SomeFails(fields[i], values)
    requires EncTagged(fields[i], values).Some? && |EncTagged(fields[i], values).value| < U32
    ensures DecFields(fields, EncTagged(fields[i], values).value + y, Hold(fields, i, st, n, prior)).Bad?
    decreases fields[i], 2, |values|
  {
    hide *;
    SomeFailsHere(fields[i], values);
    var f, v := fields[i], values[0];
    TableFacts(fields, i);
    ZeroDefaultAt(fields, i);
    TaggedBytes(f, values, y);
    ElementReady(f, prior, n);
    var more := EncTagged(f, values[1..]).value + y;
    var w := EncValue(f, v).value + more;
    FieldTagIs(f);
    ArrayRecord(fields, i, WireType(f.ltype), w, st, n, prior);
    if TerminatedValue(f, v) {
      IsSendable(f, v);
      ValueRoundTrip(f, v, more, ItemAt(prior, n));
      var v' := DecValue(f, w, ItemAt(prior, n)).val;
      DecElement(f, w, n, prior, v', more);
      WithItemAt(prior, n, v');
      TaggedFails(fields, i, values[1..], n + 1, WithItem(prior, n, v'), st, y);
    } else {
      ValueFails(f, v, more, ItemAt(prior, n));
      ElementFails(f, w, n, prior);
    }
  }

  lemma IsSendable(f: Field, v: Value)
    requires ValueShape(f, v) && TerminatedValue(f, v)
    ensures Sendable(f, v)
  {
  }

  lemma SomeFailsHere(f: Field, values: seq<Value>)
    requires SomeFails(f, values)
    ensures values != [] && (TerminatedValue(f, values[0]) ==> SomeFails(f, values[1..]))
  {
    hide TerminatedValue;
    var k :| 0 <= k < |values| && !TerminatedValue(f, values[k]);
    if k > 0 {
      assert values[1..][k - 1] == values[k];
    }
  }

  lemma ElementFails(f: Field, w: seq<byte>, n: nat, prior: seq<Value>)
    requires !f.Packable() && DecValue(f, w, ItemAt(prior, n)).Bad?
    ensures DecArray(f, WireType(f.ltype), w, n, prior).Bad?
  {
    hide DecValue;
  }

  /**
    When pb_encode succeeds on a struct, pb_decode of exactly those bytes succeeds if and only if
    every string that is sent is terminated inside its array.
   */
  lemma AcceptedIfTerminated(fields: seq<Field>, src: seq<Cell>, dest: seq<Cell>)
    requires WellFormed(fields) && ZeroDefaults(fields) && Shape(fields, src) && Shape(fields, dest)
    requires EncMessage(fields, src).Some? && |EncMessage(fields, src).value| < U32
    ensures Decode(fields, EncMessage(fields, src).value, dest).Ok? <==> Terminated(fields, src)
  {
    hide DecMessage, EncMessage, Fresh, SameMessage, Terminated, Shape, WellFormed, ZeroDefaults;
    SetDefaultsFresh(fields, dest);
    if Terminated(fields, src) {
      RoundTripTheorem(fields, src, dest);
    } else {
      MessageFails(fields, src, SetDefaults(fields, dest));
    }
  }
}
