/**
  Whatever pb_encode produces, pb_decode turns back into the same message, for every descriptor
  tree and into any memory.
 */
module RoundTrip {
  import opened Words
  import opened Wire
  import opened WireProperties
  import opened Descriptors
  import opened EncoderSpec
  import opened DecoderSpec
  import opened Logical
  import opened Defaults

  // ---- Fields that are not sent ----

  lemma {:induction false} AllDefaultAt(fields: seq<Field>, cells: seq<Cell>, i: nat, j: nat)
    requires AllDefault(fields, cells, i) && i <= j < |fields|
    ensures IsDefault(fields[j], CellAt(cells, Slot(fields, j)))
    decreases |fields| - i
  {
    if i < j {
      AllDefaultAt(fields, cells, i + 1, j);
    }
  }

  /** A struct that pb_check_proto3_default_value skips means the same as a freshly set one. */
  lemma {:induction false} UnsentMessageSame(fields: seq<Field>, src: seq<Cell>, dest: seq<Cell>)
    requires WellFormed(fields) && Shape(fields, src) && Fresh(fields, dest) && AllDefault(fields, src, 0)
    ensures SameMessage(fields, src, dest)
    decreases fields
  {
    forall i | 0 <= i < |fields|
      ensures SameCell(fields[i], CellAt(src, Slot(fields, i)), CellAt(dest, Slot(fields, i)))
    {
      AllDefaultAt(fields, src, 0, i);
      UnsentCellSame(fields[i], CellAt(src, Slot(fields, i)), CellAt(dest, Slot(fields, i)));
    }
  }

  lemma {:induction false} UnsentCellSame(f: Field, a: Cell, b: Cell)
    requires WellFormedField(f) && CellShape(f, a) && FreshCell(f, b) && IsDefault(f, a)
    ensures SameCell(f, a, b)
    decreases f
  {
    if f.htype.Optional? && f.sizeOffset == 0 && f.ltype.LSubmessage? {
      UnsentMessageSame(f.ptr.fields, a.v.cells, b.v.cells);
    }
  }

  // ---- Values ----

  lemma {:induction false} StrLenTerminated(data: seq<byte>, tail: seq<byte>)
    requires forall k | 0 <= k < |data| :: data[k] != 0
    ensures StrLen(data + [0] + tail) == |data|
  {
    var buf := data + [0] + tail;
    if data != [] {
      assert buf[1..] == data[1..] + [0] + tail;
      StrLenTerminated(data[1..], tail);
    }
  }

  lemma DecCharsEncoded(f: Field, data: seq<byte>, y: seq<byte>, prior: Value)
    requires |data| < f.dataSize <= PB_SIZE_MAX
    ensures DecChars(f, EncString(data) + y, prior) == Ok(VString(WriteString(prior, data, f.dataSize)), y)
  {
    hide EncVarint, DecVarint32, WriteString, EncString;
    EncStringParts(data, y);
    Varint32OfEncoded(|data|, data + y);
  }

  lemma CharsRoundTrip(f: Field, v: Value, y: seq<byte>, prior: Value)
    requires WellFormedField(f) && f.ltype.LString? && ValueShape(f, v) && TerminatedValue(f, v)
    ensures var r := DecValue(f, EncValue(f, v).value + y, prior);
      r.Ok? && r.rest == y && SameValue(f, v, r.val)
  {
    hide DecChars, EncString;
    var data := CString(v.buf);
    DecCharsEncoded(f, data, y, prior);
    var buf := WriteString(prior, data, f.dataSize);
    assert buf == data + [0] + buf[|data| + 1..];
    StrLenTerminated(data, buf[|data| + 1..]);
  }

  /**
    The encoder sends a char array that its string fills up without a terminator; the decoder
    refuses what it sent, and only that.
   */
  lemma CharsExact(f: Field, v: Value, y: seq<byte>, prior: Value)
    requires WellFormedField(f) && f.ltype.LString? && ValueShape(f, v)
    ensures EncValue(f, v).Some?
    ensures DecValue(f, EncValue(f, v).value + y, prior).Ok? <==> TerminatedValue(f, v)
  {
    hide DecChars, EncString;
    if TerminatedValue(f, v) {
      CharsRoundTrip(f, v, y, prior);
    } else {
      CharsTooLong(f, CString(v.buf), y, prior);
    }
  }

  lemma CharsTooLong(f: Field, data: seq<byte>, y: seq<byte>, prior: Value)
    requires |data| == f.dataSize <= PB_SIZE_MAX
    ensures DecChars(f, EncString(data) + y, prior).Bad?
  {
    hide EncVarint, DecVarint32, WriteString, EncString;
    EncStringParts(data, y);
    Varint32OfEncoded(|data|, data + y);
  }

  lemma EncStringParts(data: seq<byte>, y: seq<byte>)
    requires |data| < U32
    ensures EncString(data) + y == EncVarint(|data|) + (data + y)
    ensures (data + y)[..|data|] == data && (data + y)[|data|..] == y
  {
    hide EncVarint, EncString;
    EncStringIs(data);
    ConcatParts(EncVarint(|data|), data, y);
  }

  lemma EncStringIs(data: seq<byte>)
    requires |data| < U32
    ensures EncString(data) == EncVarint(|data|) + data
  {
    hide EncVarint;
    Remainder64(|data|, 0);
  }

  lemma ConcatParts(prefix: seq<byte>, data: seq<byte>, y: seq<byte>)
    ensures prefix + data + y == prefix + (data + y)
    ensures (data + y)[..|data|] == data && (data + y)[|data|..] == y
  {
  }

  lemma DecBytesEncoded(f: Field, data: seq<byte>, y: seq<byte>)
    requires |data| + BYTES_HEADER <= f.dataSize <= PB_SIZE_MAX
    ensures DecBytes(f, EncString(data) + y) == Ok(VBytes(data), y)
  {
    hide EncVarint, DecVarint32, EncString;
    EncStringParts(data, y);
    Varint32OfEncoded(|data|, data + y);
  }

  lemma DecFixedBytesEncoded(f: Field, data: seq<byte>, y: seq<byte>)
    requires |data| == f.dataSize <= PB_SIZE_MAX
    ensures DecFixedBytes(f, EncString(data) + y) == Ok(VFixed(data), y)
  {
    hide EncVarint, DecVarint32, EncString;
    EncStringParts(data, y);
    Varint32OfEncoded(|data|, data + y);
    if |data| == 0 {
      assert data == Zeros(f.dataSize);
    }
  }

  lemma BytesRoundTrip(f: Field, v: Value, y: seq<byte>, prior: Value)
    requires WellFormedField(f) && (f.ltype.LBytes? || f.ltype.LFixedBytes?) && ValueShape(f, v)
    requires EncValue(f, v).Some?
    ensures DecValue(f, EncValue(f, v).value + y, prior) == Ok(v, y) && SameValue(f, v, v)
  {
    hide DecBytes, DecFixedBytes, EncString;
    if f.ltype.LBytes? {
      DecBytesEncoded(f, v.data, y);
    } else {
      DecFixedBytesEncoded(f, v.data, y);
    }
  }

  lemma NumberRoundTrip(f: Field, v: Value, y: seq<byte>, prior: Value)
    requires WellFormedField(f) && f.Packable() && ValueShape(f, v)
    ensures EncValue(f, v).Some? && DecValue(f, EncValue(f, v).value + y, prior) == Ok(v, y) && SameValue(f, v, v)
  {
    hide EncVarint, DecVarint32, DecVarint, EncFixed32, EncFixed64, DecFixed32, DecFixed64;
    hide DecSignedField, DecUnsignedField, DecZigzagField, Zigzag;
    if f.ltype.LBool? {
      Varint32OfEncoded(if v.b then 1 else 0, y);
    } else if f.ltype.LFixed32? {
      Fixed32RoundTrip(v.n, y);
    } else if f.ltype.LFixed64? {
      Fixed64RoundTrip(v.n, y);
    } else {
      IntegerFieldsRoundTrip(f.dataSize, v.n, y);
    }
  }

  // ---- Records ----

  /** What follows a known field's tag is decoded into that field. */
  lemma RecordStep(fields: seq<Field>, i: nat, wt: nat, w: seq<byte>, st: State)
    requires UniqueTags(fields) && i < |fields| && wt < 8
    ensures DecFields(fields, EncTag(wt, fields[i].tag) + w, st) ==
            match DecKnown(fields, i, wt, w, st)
            case Bad => Bad
            case Ok(st1, rest) => DecFields(fields, rest, st1)
  {
    hide DecKnown, DecTag, EncVarint;
    TagRoundTrip(wt, fields[i].tag, w);
    LookupUnique(fields, i);
  }

  /** The first i fields mean what they mean in the source; the others have their defaults. */
  ghost predicate Arrived(fields: seq<Field>, src: seq<Cell>, i: nat, cells: seq<Cell>)
    requires i <= |fields|
  {
    && |cells| == SlotCount(fields)
    && (forall j | 0 <= j < i :: SameCell(fields[j], CellAt(src, Slot(fields, j)), CellAt(cells, Slot(fields, j))))
    && (forall j | i <= j < |fields| :: FreshCell(fields[j], CellAt(cells, Slot(fields, j))))
  }

  ghost predicate SeenBefore(fields: seq<Field>, i: nat, seen: set<nat>) {
    forall k: nat | k < RequiredBefore(fields, i) && k < PB_MAX_REQUIRED_FIELDS :: k in seen
  }

  ghost predicate FixedBefore(fields: seq<Field>, i: nat, st: State) {
    (st.fixedField.Some? ==> st.fixedField.value < i) && FixedComplete(fields, st)
  }

  /** The state of the decoder after the first i fields have arrived */
  ghost predicate Progress(fields: seq<Field>, src: seq<Cell>, i: nat, st: State)
    requires i <= |fields|
  {
    Arrived(fields, src, i, st.cells) && SeenBefore(fields, i, st.seen) && FixedBefore(fields, i, st)
  }

  /** Selecting one member of a union leaves the other members unselected, as in the source. */
  lemma OtherMember(fields: seq<Field>, i: nat, j: nat, a: Cell, c: Cell)
    requires UniqueTags(fields) && i < |fields| && j < |fields| && i != j
    requires Slot(fields, i) == Slot(fields, j)
    requires fields[i].htype.Oneof? ==> Selected(fields[i], c) && Selected(fields[i], a)
    ensures SameCell(fields[j], a, c) && FreshCell(fields[j], c)
  {
    SlotShared(fields, i, j);
    assert fields[i].tag != fields[j].tag;
  }

  lemma AdvanceCells(fields: seq<Field>, src: seq<Cell>, i: nat, cells: seq<Cell>, c: Cell)
    requires UniqueTags(fields) && i < |fields| && Arrived(fields, src, i, cells)
    requires SameCell(fields[i], CellAt(src, Slot(fields, i)), c)
    requires fields[i].htype.Oneof? ==> Selected(fields[i], c) && Selected(fields[i], CellAt(src, Slot(fields, i)))
    ensures Arrived(fields, src, i + 1, WithCell(cells, Slot(fields, i), c))
  {
    hide SameCell, FreshCell, SlotCount, UniqueTags, Slot;
    SlotInRange(fields, i);
    var cells1 := WithCell(cells, Slot(fields, i), c);
    forall j | 0 <= j < |fields| && j != i
      ensures if j < i
        then SameCell(fields[j], CellAt(src, Slot(fields, j)), CellAt(cells1, Slot(fields, j)))
        else FreshCell(fields[j], CellAt(cells1, Slot(fields, j)))
    {
      SlotInRange(fields, j);
      if Slot(fields, j) == Slot(fields, i) {
        OtherMember(fields, i, j, CellAt(src, Slot(fields, i)), c);
      }
    }
  }

  lemma Advance(fields: seq<Field>, src: seq<Cell>, i: nat, st: State, c: Cell, st1: State)
    requires UniqueTags(fields) && i < |fields| && Progress(fields, src, i, st)
    requires SameCell(fields[i], CellAt(src, Slot(fields, i)), c)
    requires fields[i].htype.Oneof? ==> Selected(fields[i], c) && Selected(fields[i], CellAt(src, Slot(fields, i)))
    requires st1.cells == WithCell(st.cells, Slot(fields, i), c)
    requires st1.seen == Mark(fields, i, st.seen)
    requires (st1.fixedField.Some? ==> st1.fixedField.value <= i) && FixedComplete(fields, st1)
    ensures Progress(fields, src, i + 1, st1)
  {
    hide Arrived, SameCell, FixedComplete, UniqueTags, Slot;
    AdvanceCells(fields, src, i, st.cells, c);
  }

  // ---- Arrays ----

  /** The array after values were stored from position n on. */
  ghost predicate Stored(f: Field, prior: seq<Value>, n: nat, values: seq<Value>, items: seq<Value>) {
    && n + |values| <= |prior| == |items|
    && (forall k | 0 <= k < n :: items[k] == prior[k])
    && (forall k | 0 <= k < |values| :: SameValue(f, values[k], items[n + k]))
    && (forall k | n + |values| <= k < |items| :: items[k] == prior[k])
  }

  lemma StoredStep(f: Field, prior: seq<Value>, n: nat, values: seq<Value>, v: Value, items: seq<Value>)
    requires values != [] && n < |prior| && SameValue(f, values[0], v)
    requires Stored(f, WithItem(prior, n, v), n + 1, values[1..], items)
    ensures Stored(f, prior, n, values, items)
  {
    hide SameValue;
    forall k | 0 <= k < |values|
      ensures SameValue(f, values[k], items[n + k])
    {
      if k > 0 {
        assert values[k] == values[1..][k - 1];
      }
    }
  }

  lemma EncValueNonEmpty(f: Field, v: Value)
    ensures EncValue(f, v).Some? ==> |EncValue(f, v).value| >= 1
  {
  }

  lemma PackedStep(f: Field, values: seq<Value>, n: nat, prior: seq<Value>)
    requires values != [] && n < f.arraySize && EncItems(f, values[1..]).Some? && EncValue(f, values[0]).Some?
    requires var more := EncItems(f, values[1..]).value;
      DecValue(f, EncValue(f, values[0]).value + more, ItemAt(prior, n)) == Ok(values[0], more)
    ensures EncItems(f, values).Some?
    ensures DecItems(f, EncItems(f, values).value, n, prior) ==
            DecItems(f, EncItems(f, values[1..]).value, n + 1, WithItem(prior, n, values[0]))
  {
    hide EncValue, DecValue;
    EncValueNonEmpty(f, values[0]);
  }

  lemma NothingPacked(f: Field, n: nat, prior: seq<Value>)
    requires n <= |prior|
    ensures EncItems(f, []) == Some([]) && DecItems(f, [], n, prior) == Ok((n, prior), [])
    ensures Stored(f, prior, n, [], prior)
  {
  }

  /** A packed array decodes from its own encoding, behind the elements that are there already. */
  lemma {:induction false} PackedRoundTrip(f: Field, values: seq<Value>, n: nat, prior: seq<Value>)
    returns (items: seq<Value>)
    requires WellFormedField(f) && f.Packable()
    requires forall k | 0 <= k < |values| :: ValueShape(f, values[k])
    requires n + |values| <= f.arraySize == |prior|
    ensures EncItems(f, values).Some?
    ensures DecItems(f, EncItems(f, values).value, n, prior) == Ok((n + |values|, items), [])
    ensures Stored(f, prior, n, values, items)
    decreases |values|
  {
    hide *;
    if values == [] {
      items := prior;
      NothingPacked(f, n, prior);
    } else {
      var v := values[0];
      items := PackedRoundTrip(f, values[1..], n + 1, WithItem(prior, n, v));
      NumberRoundTrip(f, v, EncItems(f, values[1..]).value, ItemAt(prior, n));
      PackedStep(f, values, n, prior);
      StoredStep(f, prior, n, values, v, items);
    }
  }

  /** The state when array field i holds n elements, and is the fixed-count array being received */
  function Hold(fields: seq<Field>, i: nat, st: State, n: nat, items: seq<Value>): State {
    var s := Slot(fields, i);
    if FieldAt(fields, i).sizeOffset != 0 then st.(cells := WithCell(st.cells, s, Arr(n, items)))
    else State(WithCell(st.cells, s, Fix(items)), st.seen, Some(i), n)
  }

  lemma HoldStep(fields: seq<Field>, i: nat, wt: nat, bs: seq<byte>, st: State, n: nat, items: seq<Value>)
    requires i < |fields| && fields[i].htype.Repeated? && |st.cells| == SlotCount(fields)
    ensures DecKnown(fields, i, wt, bs, Hold(fields, i, st, n, items)) ==
            match DecArray(fields[i], wt, bs, n, items)
            case Bad => Bad
            case Ok(r, rest) => Ok(Hold(fields, i, st, r.0, r.1), rest)
  {
    hide DecArray, Slot;
    SlotInRange(fields, i);
    var s := Slot(fields, i);
    forall c, c' ensures WithCell(WithCell(st.cells, s, c), s, c') == WithCell(st.cells, s, c') {}
  }

  /** The first element turns the decoder to the array, if it has no counter of its own. */
  lemma FirstElement(fields: seq<Field>, i: nat, wt: nat, bs: seq<byte>, st: State)
    requires i < |fields| && FixedBefore(fields, i, st) && |st.cells| == SlotCount(fields)
    requires fields[i].htype.Repeated? && FreshCell(fields[i], CellAt(st.cells, Slot(fields, i)))
    ensures var items := CellItems(CellAt(st.cells, Slot(fields, i)));
      DecKnown(fields, i, wt, bs, st) == DecKnown(fields, i, wt, bs, Hold(fields, i, st, 0, items))
  {
    hide DecCell, Slot;
    SlotInRange(fields, i);
    var s := Slot(fields, i);
    assert WithCell(st.cells, s, CellAt(st.cells, s)) == st.cells;
  }

  lemma TableFacts(fields: seq<Field>, i: nat)
    requires WellFormed(fields) && i < |fields|
    ensures UniqueTags(fields) && WellFormedField(fields[i]) && WT_STRING < 8 && WireType(fields[i].ltype) < 8
  {
  }

  /** One record of an array field: its payload goes through DecArray. */
  lemma ArrayRecord(fields: seq<Field>, i: nat, wt: nat, w: seq<byte>, st: State, n: nat, items: seq<Value>)
    requires UniqueTags(fields) && i < |fields| && wt < 8
    requires fields[i].htype.Repeated? && |st.cells| == SlotCount(fields)
    ensures DecFields(fields, EncTag(wt, fields[i].tag) + w, Hold(fields, i, st, n, items)) ==
            match DecArray(fields[i], wt, w, n, items)
            case Bad => Bad
            case Ok(r, rest) => DecFields(fields, rest, Hold(fields, i, st, r.0, r.1))
  {
    hide DecArray, DecFields, DecKnown, Hold, EncTag, UniqueTags;
    RecordStep(fields, i, wt, w, Hold(fields, i, st, n, items));
    HoldStep(fields, i, wt, w, st, n, items);
  }

  lemma DecPackedBlock(f: Field, w: seq<byte>, y: seq<byte>, n: nat, prior: seq<Value>)
    requires f.Packable() && |w| < U32
    ensures DecArray(f, WT_STRING, EncString(w) + y, n, prior) ==
            (var r := DecItems(f, w, n, prior); if r.Ok? then Ok(r.val, y) else Bad)
  {
    hide DecItems, EncString, DecString;
    StringRoundTrip(w, y);
  }

  lemma PackedBytes(f: Field, values: seq<Value>, y: seq<byte>)
    requires EncItems(f, values).Some?
    ensures EncPacked(f, values).Some?
    ensures |EncItems(f, values).value| <= |EncPacked(f, values).value|
    ensures EncPacked(f, values).value + y == EncTag(WT_STRING, f.tag) + (EncString(EncItems(f, values).value) + y)
  {
    hide EncItems, EncTag, EncVarint;
  }

  /** A packed block of values received by an array that holds n elements */
  lemma PackedRecord(fields: seq<Field>, i: nat, values: seq<Value>, n: nat, prior: seq<Value>, st: State, y: seq<byte>)
    returns (items: seq<Value>)
    requires WellFormed(fields) && i < |fields| && |st.cells| == SlotCount(fields)
    requires fields[i].htype.Repeated? && fields[i].Packable() && n + |values| <= fields[i].arraySize == |prior|
    requires forall k | 0 <= k < |values| :: ValueShape(fields[i], values[k])
    requires EncPacked(fields[i], values).Some? ==> |EncPacked(fields[i], values).value| < U32
    ensures EncPacked(fields[i], values).Some? && Stored(fields[i], prior, n, values, items)
    ensures DecFields(fields, EncPacked(fields[i], values).value + y, Hold(fields, i, st, n, prior)) ==
            DecFields(fields, y, Hold(fields, i, st, n + |values|, items))
  {
    hide *;
    var f := fields[i];
    TableFacts(fields, i);
    items := PackedRoundTrip(f, values, n, prior);
    var w := EncItems(f, values).value;
    PackedBytes(f, values, y);
    ArrayRecord(fields, i, WT_STRING, EncString(w) + y, st, n, prior);
    DecPackedBlock(f, w, y, n, prior);
  }

  // ---- The induction over descriptor trees ----

  /** What the storage of a field must be like before the field is decoded into it */
  ghost predicate Ready(f: Field, prior: Value) {
    f.ltype.LSubmessage? ==>
      prior.VMsg? && f.ptr.Sub?
      && if f.htype.Repeated? then Shape(f.ptr.fields, prior.cells) else Fresh(f.ptr.fields, prior.cells)
  }

  /** A value of field f that decodes from its own encoding */
  ghost predicate Sendable(f: Field, v: Value) {
    ValueShape(f, v) && TerminatedValue(f, v)
  }

  lemma {:induction false} ValueRoundTrip(f: Field, v: Value, y: seq<byte>, prior: Value)
    requires WellFormedField(f) && ZeroDefault(f) && Sendable(f, v) && Ready(f, prior)
    requires EncValue(f, v).Some? && |EncValue(f, v).value| < U32
    ensures var r := DecValue(f, EncValue(f, v).value + y, prior);
      r.Ok? && r.rest == y && SameValue(f, v, r.val)
    decreases f, 1
  {
    hide EncValue, DecValue, ValueShape, TerminatedValue, WellFormedField, ZeroDefault, Ready, SameValue;
    if f.ltype.LSubmessage? {
      SubmessageRoundTrip(f, v, y, prior);
    } else if f.ltype.LString? {
      CharsRoundTrip(f, v, y, prior);
    } else if f.Packable() {
      NumberRoundTrip(f, v, y, prior);
    } else {
      BytesRoundTrip(f, v, y, prior);
    }
  }

  lemma {:induction false} SubmessageRoundTrip(f: Field, v: Value, y: seq<byte>, prior: Value)
    requires WellFormedField(f) && ZeroDefault(f) && Sendable(f, v) && Ready(f, prior) && f.ltype.LSubmessage?
    requires EncValue(f, v).Some? && |EncValue(f, v).value| < U32
    ensures var r := DecValue(f, EncValue(f, v).value + y, prior);
      r.Ok? && r.rest == y && SameValue(f, v, r.val)
    decreases f, 0
  {
    hide DecString, EncVarint;
    var sub := f.ptr.fields;
    var w := EncFields(sub, v.cells, 0).value;
    var dest := if f.htype.Repeated? then SetDefaults(sub, prior.cells) else prior.cells;
    if f.htype.Repeated? {
      SetDefaultsFresh(sub, prior.cells);
    }
    MessageRoundTrip(sub, v.cells, dest);
    StringRoundTrip(w, y);
  }

  lemma AllArrived(fields: seq<Field>, src: seq<Cell>, st: State)
    requires Progress(fields, src, |fields|, st)
    ensures FixedComplete(fields, st) && RequiredPresent(fields, st.seen) && SameMessage(fields, src, st.cells)
  {
    hide SameCell, FreshCell, Slot, RequiredBefore;
  }

  lemma StartProgress(fields: seq<Field>, src: seq<Cell>, dest: seq<Cell>)
    requires Fresh(fields, dest)
    ensures Progress(fields, src, 0, Start(dest))
  {
    hide FreshCell, Slot;
  }

  /** The message decodes, up to its end or a zero tag behind it. */
  lemma {:induction false} MessageRoundTrip(fields: seq<Field>, src: seq<Cell>, dest: seq<Cell>)
    requires WellFormed(fields) && ZeroDefaults(fields)
    requires Shape(fields, src) && Terminated(fields, src) && Fresh(fields, dest)
    requires EncMessage(fields, src).Some? && |EncMessage(fields, src).value| < U32
    ensures var r := DecMessage(fields, EncMessage(fields, src).value, dest);
      r.Ok? && r.rest == [] && SameMessage(fields, src, r.val)
    ensures forall y :: var r := DecMessage(fields, EncMessage(fields, src).value + [0] + y, dest);
      r.Ok? && r.rest == y && SameMessage(fields, src, r.val)
    decreases fields, |fields| + 1
  {
    hide DecFields, EncFields, Progress, SameMessage, Fresh, FixedComplete, RequiredPresent;
    StartProgress(fields, src, dest);
    var m := EncMessage(fields, src).value;
    var st := FieldsRoundTrip(fields, src, 0, Start(dest), []);
    assert m + [] == m;
    NothingLeft(fields, st, []);
    AllArrived(fields, src, st);
    forall y
      ensures var r := DecMessage(fields, m + [0] + y, dest); r.Ok? && r.rest == y && SameMessage(fields, src, r.val)
    {
      var st1 := FieldsRoundTrip(fields, src, 0, Start(dest), [0] + y);
      assert m + [0] + y == m + ([0] + y);
      NothingLeft(fields, st1, y);
      AllArrived(fields, src, st1);
    }
  }

  lemma NothingLeft(fields: seq<Field>, st: State, y: seq<byte>)
    ensures DecFields(fields, [], st) == Ok(st, [])
    ensures DecFields(fields, [0] + y, st) == Ok(st, y)
  {
    assert ([0] + y)[1..] == y;
  }

  lemma {:induction false} FieldsRoundTrip(fields: seq<Field>, src: seq<Cell>, i: nat, st: State, y: seq<byte>)
    returns (st1: State)
    requires WellFormed(fields) && ZeroDefaults(fields) && Shape(fields, src) && Terminated(fields, src)
    requires i <= |fields| && Progress(fields, src, i, st)
    requires EncFields(fields, src, i).Some? && |EncFields(fields, src, i).value| < U32
    ensures DecFields(fields, EncFields(fields, src, i).value + y, st) == DecFields(fields, y, st1)
    ensures Progress(fields, src, |fields|, st1)
    decreases fields, |fields| - i, 1
  {
    if i == |fields| {
      st1 := st;
      assert EncFields(fields, src, i).value + y == y;
    } else {
      st1 := FieldThenRest(fields, src, i, st, y);
    }
  }

  lemma {:induction false} FieldThenRest(fields: seq<Field>, src: seq<Cell>, i: nat, st: State, y: seq<byte>)
    returns (st1: State)
    requires WellFormed(fields) && ZeroDefaults(fields) && Shape(fields, src) && Terminated(fields, src)
    requires i < |fields| && Progress(fields, src, i, st)
    requires EncFields(fields, src, i).Some? && |EncFields(fields, src, i).value| < U32
    ensures DecFields(fields, EncFields(fields, src, i).value + y, st) == DecFields(fields, y, st1)
    ensures Progress(fields, src, |fields|, st1)
    decreases fields, |fields| - i, 1, 0
  {
    hide *;
    EncFieldsStep(fields, src, i, y);
    TerminatedAt(fields, src, i);
    var more := EncFields(fields, src, i + 1).value;
    var st' := FieldRoundTrip(fields, src, i, st, more + y);
    st1 := FieldsRoundTrip(fields, src, i + 1, st', y);
  }

  lemma TerminatedAt(fields: seq<Field>, src: seq<Cell>, i: nat)
    requires Terminated(fields, src) && i < |fields|
    ensures TerminatedCell(fields[i], CellAt(src, Slot(fields, i)))
  {
  }

  lemma EncFieldsStep(fields: seq<Field>, src: seq<Cell>, i: nat, y: seq<byte>)
    requires i < |fields| && EncFields(fields, src, i).Some?
    ensures var b, more := EncField(fields[i], CellAt(src, Slot(fields, i))), EncFields(fields, src, i + 1);
      && b.Some? && more.Some? && EncFields(fields, src, i).value + y == b.value + (more.value + y)
      && |b.value| + |more.value| == |EncFields(fields, src, i).value|
  {
    hide EncField, Slot;
  }

  lemma {:induction false} FieldRoundTrip(fields: seq<Field>, src: seq<Cell>, i: nat, st: State, y: seq<byte>)
    returns (st1: State)
    requires WellFormed(fields) && ZeroDefaults(fields) && Shape(fields, src)
    requires i < |fields| && Progress(fields, src, i, st)
    requires TerminatedCell(fields[i], CellAt(src, Slot(fields, i)))
    requires var b := EncField(fields[i], CellAt(src, Slot(fields, i))); b.Some? && |b.value| < U32
    ensures DecFields(fields, EncField(fields[i], CellAt(src, Slot(fields, i))).value + y, st) ==
            DecFields(fields, y, st1)
    ensures Progress(fields, src, i + 1, st1)
    decreases fields, |fields| - i, 0
  {
    hide *;
    var f, a := fields[i], CellAt(src, Slot(fields, i));
    if EncField(f, a).value == [] {
      st1 := st;
      assert [] + y == y;
      SkippedRoundTrip(fields, src, i, st);
    } else if f.htype.Repeated? {
      st1 := ArrayRoundTrip(fields, src, i, st, y);
    } else {
      st1 := SingleRoundTrip(fields, src, i, st, y);
    }
  }

  lemma SingleNonEmpty(f: Field, v: Value)
    ensures EncSingle(f, v).Some? ==> EncSingle(f, v).value != []
  {
    hide EncValue, EncVarint;
  }

  /** An array that is sent starts with a tag. */
  lemma ArrayBytes(f: Field, values: seq<Value>) returns (wt: nat, w: seq<byte>)
    requires values != []
    requires (if f.Packable() then EncPacked(f, values) else EncTagged(f, values)).Some?
    ensures wt < 8
    ensures (if f.Packable() then EncPacked(f, values) else EncTagged(f, values)).value == EncTag(wt, f.tag) + w
  {
    hide EncValue, EncTag, EncVarint, EncItems;
    if f.Packable() {
      wt, w := WT_STRING, EncString(EncItems(f, values).value);
    } else {
      wt, w := WireType(f.ltype), EncValue(f, values[0]).value + EncTagged(f, values[1..]).value;
    }
  }

  lemma ArrayNonEmpty(f: Field, items: seq<Value>, count: nat)
    ensures EncArray(f, items, count) == Some([]) ==> count == 0
  {
    hide EncValue, EncVarint, EncItems, EncPacked, EncTagged;
    if 0 < count <= |items| && EncArray(f, items, count).Some? {
      var wt, w := ArrayBytes(f, items[..count]);
    }
  }

  lemma EncodedNonEmpty(f: Field, a: Cell)
    ensures f.htype.Required? && EncField(f, a).Some? ==> EncField(f, a).value != []
    ensures f.htype.Optional? && EncField(f, a) == Some([]) ==> !IsSent(f, a)
    ensures f.htype.Repeated? && EncField(f, a) == Some([]) ==>
      (if f.sizeOffset == 0 then f.arraySize else if a.Arr? then a.count else 0) == 0
    ensures f.htype.Oneof? && EncField(f, a) == Some([]) ==> !Selected(f, a)
  {
    hide EncSingle, EncArray, IsSent;
    SingleNonEmpty(f, CellValue(a));
    if f.htype.Repeated? {
      ArrayNonEmpty(f, CellItems(a), if f.sizeOffset == 0 then f.arraySize else if a.Arr? then a.count else 0);
    }
  }

  lemma UnsentSame(f: Field, a: Cell, c: Cell)
    requires WellFormedField(f) && CellShape(f, a) && FreshCell(f, c) && EncField(f, a) == Some([])
    ensures SameCell(f, a, c) && !f.htype.Required?
  {
    hide EncField;
    EncodedNonEmpty(f, a);
    if f.htype.Optional? && f.sizeOffset == 0 {
      UnsentCellSame(f, a, c);
    }
  }

  lemma SkippedRoundTrip(fields: seq<Field>, src: seq<Cell>, i: nat, st: State)
    requires WellFormed(fields) && Shape(fields, src) && i < |fields| && Progress(fields, src, i, st)
    requires EncField(fields[i], CellAt(src, Slot(fields, i))) == Some([])
    ensures Progress(fields, src, i + 1, st)
  {
    hide EncField, SameCell, FreshCell, CellShape, Slot;
    UnsentSame(fields[i], CellAt(src, Slot(fields, i)), CellAt(st.cells, Slot(fields, i)));
  }

  // ---- A single value ----

  lemma SingleReady(f: Field, c: Cell)
    requires WellFormedField(f) && ZeroDefault(f) && FreshCell(f, c) && !f.htype.Repeated?
    ensures Ready(f, if f.htype.Oneof? then OneofTarget(f, c) else CellValue(c))
  {
    hide Fresh;
    if f.htype.Oneof? && f.ltype.LSubmessage? {
      FreshMessageFresh(f.ptr.fields);
    }
  }

  lemma SingleSendable(f: Field, a: Cell)
    requires WellFormedField(f) && CellShape(f, a) && TerminatedCell(f, a) && !f.htype.Repeated?
    requires EncField(f, a).Some? && EncField(f, a).value != []
    ensures Sendable(f, CellValue(a)) && EncField(f, a) == EncSingle(f, CellValue(a))
    ensures f.htype.Oneof? ==> Selected(f, a)
    ensures f.htype.Optional? ==> IsSent(f, a)
  {
    hide EncSingle, IsDefault;
  }

  /** The cell a single field leaves behind when v has been decoded into it */
  function Received(f: Field, v: Value): Cell {
    if f.htype.Oneof? then Union(f.tag, v)
    else if f.htype.Optional? && f.sizeOffset != 0 then Opt(true, v)
    else One(v)
  }

  lemma ReceivedSame(f: Field, a: Cell, v: Value)
    requires CellShape(f, a) && !f.htype.Repeated? && SameValue(f, CellValue(a), v)
    requires f.htype.Oneof? ==> Selected(f, a)
    requires f.htype.Optional? ==> IsSent(f, a)
    ensures SameCell(f, a, Received(f, v))
  {
    hide SameValue, IsDefault, ValueShape;
  }

  lemma SingleRecord(fields: seq<Field>, i: nat, w: seq<byte>, st: State, v: Value, y: seq<byte>)
    requires UniqueTags(fields) && i < |fields| && !fields[i].htype.Repeated?
    requires var f, c := fields[i], CellAt(st.cells, Slot(fields, i));
      DecValue(f, w, if f.htype.Oneof? then OneofTarget(f, c) else CellValue(c)) == Ok(v, y)
    ensures DecFields(fields, FieldTag(fields[i]) + w, st) ==
      DecFields(fields, y,
        State(WithCell(st.cells, Slot(fields, i), Received(fields[i], v)),
              Mark(fields, i, st.seen), st.fixedField, st.fixedSize))
  {
    hide DecFields, DecValue, OneofTarget, EncTag, Slot, Mark, UniqueTags;
    RecordStep(fields, i, WireType(fields[i].ltype), w, st);
  }

  lemma SingleBytes(f: Field, v: Value, y: seq<byte>)
    requires EncSingle(f, v).Some?
    ensures EncValue(f, v).Some? && |EncValue(f, v).value| <= |EncSingle(f, v).value|
    ensures EncSingle(f, v).value + y == FieldTag(f) + (EncValue(f, v).value + y)
  {
    hide EncValue, FieldTag;
  }

  lemma {:induction false} SingleRoundTrip(fields: seq<Field>, src: seq<Cell>, i: nat, st: State, y: seq<byte>)
    returns (st1: State)
    requires WellFormed(fields) && ZeroDefaults(fields) && Shape(fields, src)
    requires i < |fields| && Progress(fields, src, i, st) && !fields[i].htype.Repeated?
    requires TerminatedCell(fields[i], CellAt(src, Slot(fields, i)))
    requires var b := EncField(fields[i], CellAt(src, Slot(fields, i))); b.Some? && 0 < |b.value| < U32
    ensures DecFields(fields, EncField(fields[i], CellAt(src, Slot(fields, i))).value + y, st) ==
            DecFields(fields, y, st1)
    ensures Progress(fields, src, i + 1, st1)
    decreases fields[i], 3
  {
    hide *;
    var f, a, c := fields[i], CellAt(src, Slot(fields, i)), CellAt(st.cells, Slot(fields, i));
    FieldFacts(fields, src, i, st);
    SingleReady(f, c);
    SingleSendable(f, a);
    var v := CellValue(a);
    var prior := if f.htype.Oneof? then OneofTarget(f, c) else CellValue(c);
    SingleBytes(f, v, y);
    ValueRoundTrip(f, v, y, prior);
    var v' := DecValue(f, EncValue(f, v).value + y, prior).val;
    SingleRecord(fields, i, EncValue(f, v).value + y, st, v', y);
    ReceivedSame(f, a, v');
    st1 := State(WithCell(st.cells, Slot(fields, i), Received(f, v')),
      Mark(fields, i, st.seen), st.fixedField, st.fixedSize);
    SelectedReceived(f, v');
    SameFixed(fields, st, st1);
    Advance(fields, src, i, st, Received(f, v'), st1);
  }

  lemma SelectedReceived(f: Field, v: Value)
    ensures f.htype.Oneof? ==> Selected(f, Received(f, v))
  {
  }

  lemma SameFixed(fields: seq<Field>, st: State, st1: State)
    requires st1.fixedField == st.fixedField && st1.fixedSize == st.fixedSize
    ensures FixedComplete(fields, st) == FixedComplete(fields, st1)
  {
  }

  lemma FieldFacts(fields: seq<Field>, src: seq<Cell>, i: nat, st: State)
    requires WellFormed(fields) && ZeroDefaults(fields) && Shape(fields, src)
    requires i < |fields| && Progress(fields, src, i, st)
    ensures UniqueTags(fields) && WellFormedField(fields[i]) && ZeroDefault(fields[i])
    ensures CellShape(fields[i], CellAt(src, Slot(fields, i)))
    ensures FreshCell(fields[i], CellAt(st.cells, Slot(fields, i)))
    ensures FixedBefore(fields, i, st) && |st.cells| == SlotCount(fields)
    ensures FixedComplete(fields, st) && (st.fixedField.Some? ==> st.fixedField.value <= i)
  {
    hide CellShape, TerminatedCell, FreshCell, ZeroDefault, WellFormedField, Slot, SlotCount;
  }

  // ---- An array with a counter, or of fixed count ----

  lemma TaggedBytes(f: Field, values: seq<Value>, y: seq<byte>)
    requires values != [] && EncTagged(f, values).Some?
    ensures EncValue(f, values[0]).Some? && EncTagged(f, values[1..]).Some?
    ensures |EncValue(f, values[0]).value| + |EncTagged(f, values[1..]).value| <= |EncTagged(f, values).value|
    ensures EncTagged(f, values).value + y ==
      FieldTag(f) + (EncValue(f, values[0]).value + (EncTagged(f, values[1..]).value + y))
  {
    hide EncValue, FieldTag;
  }

  lemma DecElement(f: Field, w: seq<byte>, n: nat, prior: seq<Value>, v: Value, y: seq<byte>)
    requires !f.Packable() && n < f.arraySize && DecValue(f, w, ItemAt(prior, n)) == Ok(v, y)
    ensures DecArray(f, WireType(f.ltype), w, n, prior) == Ok((n + 1, WithItem(prior, n, v)), y)
  {
    hide DecValue;
  }

  lemma ElementReady(f: Field, prior: seq<Value>, n: nat)
    requires f.htype.Repeated? && n < |prior| && ValueShape(f, prior[n])
    ensures Ready(f, ItemAt(prior, n))
  {
    hide Shape;
  }

  lemma NothingTagged(f: Field, n: nat, prior: seq<Value>, y: seq<byte>)
    requires n <= |prior|
    ensures EncTagged(f, []) == Some([]) && [] + y == y
    ensures Stored(f, prior, n, [], prior)
  {
  }

  lemma {:induction false} TaggedRoundTrip(
    fields: seq<Field>, i: nat, values: seq<Value>, n: nat, prior: seq<Value>, st: State, y: seq<byte>)
    returns (items: seq<Value>)
    requires WellFormed(fields) && ZeroDefaults(fields) && i < |fields| && |st.cells| == SlotCount(fields)
    requires fields[i].htype.Repeated? && !fields[i].Packable()
    requires n + |values| <= fields[i].arraySize == |prior|
    requires forall k | 0 <= k < |values| :: Sendable(fields[i], values[k])
    requires forall k | n <= k < |prior| :: ValueShape(fields[i], prior[k])
    requires EncTagged(fields[i], values).Some? && |EncTagged(fields[i], values).value| < U32
    ensures DecFields(fields, EncTagged(fields[i], values).value + y, Hold(fields, i, st, n, prior)) ==
            DecFields(fields, y, Hold(fields, i, st, n + |values|, items))
    ensures Stored(fields[i], prior, n, values, items)
    decreases fields[i], 2, |values|
  {
    hide *;
    if values == [] {
      items := prior;
      NothingTagged(fields[i], n, prior, y);
    } else {
      items := TaggedStep(fields, i, values, n, prior, st, y);
    }
  }

  lemma {:induction false} TaggedStep(
    fields: seq<Field>, i: nat, values: seq<Value>, n: nat, prior: seq<Value>, st: State, y: seq<byte>)
    returns (items: seq<Value>)
    requires WellFormed(fields) && ZeroDefaults(fields) && i < |fields| && |st.cells| == SlotCount(fields)
    requires fields[i].htype.Repeated? && !fields[i].Packable() && values != []
    requires n + |values| <= fields[i].arraySize == |prior|
    requires forall k | 0 <= k < |values| :: Sendable(fields[i], values[k])
    requires forall k | n <= k < |prior| :: ValueShape(fields[i], prior[k])
    requires EncTagged(fields[i], values).Some? && |EncTagged(fields[i], values).value| < U32
    ensures DecFields(fields, EncTagged(fields[i], values).value + y, Hold(fields, i, st, n, prior)) ==
            DecFields(fields, y, Hold(fields, i, st, n + |values|, items))
    ensures Stored(fields[i], prior, n, values, items)
    decreases fields[i], 2, |values|, 0
  {
    hide *;
    var f, v := fields[i], values[0];
    TableFacts(fields, i);
    ZeroDefaultAt(fields, i);
    TaggedBytes(f, values, y);
    ElementReady(f, prior, n);
    var more := EncTagged(f, values[1..]).value + y;
    var w := EncValue(f, v).value + more;
    ValueRoundTrip(f, v, more, ItemAt(prior, n));
    var v' := DecValue(f, w, ItemAt(prior, n)).val;
    DecElement(f, w, n, prior, v', more);
    FieldTagIs(f);
    ArrayRecord(fields, i, WireType(f.ltype), w, st, n, prior);
    WithItemAt(prior, n, v');
    items := TaggedRoundTrip(fields, i, values[1..], n + 1, WithItem(prior, n, v'), st, y);
    StoredStep(f, prior, n, values, v', items);
  }

  lemma FieldTagIs(f: Field)
    ensures FieldTag(f) == EncTag(WireType(f.ltype), f.tag)
  {
  }

  lemma WithItemAt(items: seq<Value>, n: nat, v: Value)
    requires n < |items|
    ensures WithItem(items, n, v) == items[n := v]
  {
  }

  lemma ZeroDefaultAt(fields: seq<Field>, i: nat)
    requires ZeroDefaults(fields) && i < |fields|
    ensures ZeroDefault(fields[i])
  {
  }

  lemma FirstRecord(fields: seq<Field>, i: nat, wt: nat, w: seq<byte>, st: State)
    requires UniqueTags(fields) && i < |fields| && wt < 8
    requires FixedBefore(fields, i, st) && |st.cells| == SlotCount(fields)
    requires fields[i].htype.Repeated? && FreshCell(fields[i], CellAt(st.cells, Slot(fields, i)))
    ensures var items := CellItems(CellAt(st.cells, Slot(fields, i)));
      DecFields(fields, EncTag(wt, fields[i].tag) + w, st) ==
      DecFields(fields, EncTag(wt, fields[i].tag) + w, Hold(fields, i, st, 0, items))
  {
    hide *;
    var items := CellItems(CellAt(st.cells, Slot(fields, i)));
    RecordStep(fields, i, wt, w, st);
    RecordStep(fields, i, wt, w, Hold(fields, i, st, 0, items));
    FirstElement(fields, i, wt, w, st);
  }

  lemma ArraySendable(f: Field, a: Cell) returns (values: seq<Value>)
    requires f.htype.Repeated? && CellShape(f, a) && TerminatedCell(f, a)
    requires EncField(f, a).Some? && EncField(f, a).value != []
    ensures 0 < |values| <= f.arraySize && |values| <= |a.items| && values == a.items[..|values|]
    ensures |values| == if f.sizeOffset == 0 then f.arraySize else a.count
    ensures EncField(f, a) == if f.Packable() then EncPacked(f, values) else EncTagged(f, values)
    ensures forall k | 0 <= k < |values| :: Sendable(f, values[k])
  {
    hide EncPacked, EncTagged, ValueShape, TerminatedValue;
    values := a.items[..if f.sizeOffset == 0 then f.arraySize else a.count];
  }

  lemma ArrayFresh(f: Field, c: Cell)
    requires f.htype.Repeated? && FreshCell(f, c)
    ensures |CellItems(c)| == f.arraySize
    ensures forall k | 0 <= k < f.arraySize :: ValueShape(f, CellItems(c)[k])
  {
    hide ValueShape;
  }

  lemma ArraySame(
    fields: seq<Field>, i: nat, a: Cell, prior: seq<Value>, values: seq<Value>, items: seq<Value>, st: State)
    returns (c: Cell)
    requires i < |fields| && fields[i].htype.Repeated? && CellShape(fields[i], a)
    requires |values| <= |a.items| && values == a.items[..|values|]
    requires |values| == if fields[i].sizeOffset == 0 then fields[i].arraySize else a.count
    requires Stored(fields[i], prior, 0, values, items) && |prior| == fields[i].arraySize
    requires FixedBefore(fields, i, st)
    ensures SameCell(fields[i], a, c)
    ensures var st1 := Hold(fields, i, st, |values|, items);
      && st1.cells == WithCell(st.cells, Slot(fields, i), c)
      && st1.seen == Mark(fields, i, st.seen)
      && (st1.fixedField.Some? ==> st1.fixedField.value <= i) && FixedComplete(fields, st1)
  {
    hide SameValue, ValueShape, Slot;
    c := if fields[i].sizeOffset != 0 then Arr(|values|, items) else Fix(items);
  }

  lemma {:induction false} ArrayRoundTrip(fields: seq<Field>, src: seq<Cell>, i: nat, st: State, y: seq<byte>)
    returns (st1: State)
    requires WellFormed(fields) && ZeroDefaults(fields) && Shape(fields, src)
    requires i < |fields| && Progress(fields, src, i, st) && fields[i].htype.Repeated?
    requires TerminatedCell(fields[i], CellAt(src, Slot(fields, i)))
    requires var b := EncField(fields[i], CellAt(src, Slot(fields, i))); b.Some? && 0 < |b.value| < U32
    ensures DecFields(fields, EncField(fields[i], CellAt(src, Slot(fields, i))).value + y, st) ==
            DecFields(fields, y, st1)
    ensures Progress(fields, src, i + 1, st1)
    decreases fields[i], 3
  {
    hide *;
    var f, a, c := fields[i], CellAt(src, Slot(fields, i)), CellAt(st.cells, Slot(fields, i));
    FieldFacts(fields, src, i, st);
    ArrayFresh(f, c);
    var values := ArraySendable(f, a);
    SendableShapes(f, values);
    var wt, w := ArrayBytes(f, values);
    assert EncTag(wt, f.tag) + w + y == EncTag(wt, f.tag) + (w + y);
    FirstRecord(fields, i, wt, w + y, st);
    var items;
    if f.Packable() {
      items := PackedRecord(fields, i, values, 0, CellItems(c), st, y);
    } else {
      items := TaggedRoundTrip(fields, i, values, 0, CellItems(c), st, y);
    }
    st1 := Hold(fields, i, st, |values|, items);
    var c1 := ArraySame(fields, i, a, CellItems(c), values, items, st);
    IsRepeated(f);
    Advance(fields, src, i, st, c1, st1);
  }

  lemma SendableShapes(f: Field, values: seq<Value>)
    requires forall k | 0 <= k < |values| :: Sendable(f, values[k])
    ensures forall k | 0 <= k < |values| :: ValueShape(f, values[k])
  {
  }

  lemma IsRepeated(f: Field)
    requires f.htype.Repeated?
    ensures !f.htype.Oneof?
  {
  }

  // ---- The main result ----

  /**
    Message round trip: when pb_encode succeeds on a struct, pb_decode of exactly those bytes
    succeeds, uses all of them and yields the same message, whatever the target struct held.
   */
  lemma RoundTripTheorem(fields: seq<Field>, src: seq<Cell>, dest: seq<Cell>)
    requires WellFormed(fields) && ZeroDefaults(fields)
    requires Shape(fields, src) && Terminated(fields, src) && Shape(fields, dest)
    requires EncMessage(fields, src).Some? && |EncMessage(fields, src).value| < U32
    ensures var r := Decode(fields, EncMessage(fields, src).value, dest);
      r.Ok? && r.rest == [] && SameMessage(fields, src, r.val)
  {
    hide DecMessage, EncMessage, Fresh, SameMessage;
    SetDefaultsFresh(fields, dest);
    MessageRoundTrip(fields, src, SetDefaults(fields, dest));
  }
}
