/**
  pb_decode.c: the decoder, reading from a stream and writing into a struct step by step. Each
  method does what the functions of DecoderSpec say. The number of bytes left decreases in the
  recursion, so decoding ends on every input.
 */
module Decoder {
  import opened Words
  import opened Wire
  import opened Descriptors
  import opened DecoderSpec
  import opened InputStream
  import opened FieldIterator
  import opened Bitmap

  /** The memory of a message struct */
  class Struct {
    var cells: seq<Cell>

    constructor (cells: seq<Cell>)
      ensures this.cells == cells
    {
      this.cells := cells;
    }
  }

  lemma TableFields(fields: seq<Field>)
    requires WellFormed(fields)
    ensures UniqueTags(fields)
    ensures forall i | 0 <= i < |fields| :: fields[i].tag != 0
    ensures forall i | 0 <= i < |fields| :: WellFormedField(fields[i])
  {
  }

  // ---- Default values ----

  /** The part of pb_field_set_to_default that initialises the data */
  method InitializeValue(f: Field, prior: Value) returns (v: Value)
    requires WellFormedField(f)
    ensures v == InitialValue(f, prior)
    decreases f, 0
  {
    hide WellFormed, ValueShape;
    if f.ltype.LSubmessage? {
      var sub := new Struct(CellsOf(prior));
      MessageSetToDefaults(f.ptr.fields, sub);
      v := VMsg(sub.cells);
    } else if f.ptr.Default? {
      v := f.ptr.value;
    } else {
      v := ZeroValue(f);
    }
  }

  /** pb_field_set_to_default */
  method FieldSetToDefault(f: Field, dest: Struct, slot: nat)
    requires WellFormedField(f)
    modifies dest
    ensures dest.cells == WithCell(old(dest.cells), slot, SetDefault(f, CellAt(old(dest.cells), slot)))
    decreases f, 1
  {
    hide WellFormedField, InitialValue;
    var c := CellAt(dest.cells, slot);
    match f.htype {
      case Required =>
        var v := InitializeValue(f, CellValue(c));
        c := One(v);
      case Optional =>
        var v := InitializeValue(f, CellValue(c));
        c := if f.sizeOffset != 0 then Opt(false, v) else One(v);
      case Repeated =>
        c := if f.sizeOffset != 0 then Arr(0, CellItems(c)) else Fix(ZERO_START(f, CellItems(c)));
      case Oneof =>
        c := Union(0, CellValue(c));
    }
    dest.cells := WithCell(dest.cells, slot, c);
  }

  /** pb_message_set_to_defaults */
  method MessageSetToDefaults(fields: seq<Field>, dest: Struct)
    requires WellFormed(fields)
    modifies dest
    ensures dest.cells == SetDefaults(fields, old(dest.cells))
    decreases fields, 2
  {
    hide WellFormed, WellFormedField, SetDefault, Slot;
    TableFields(fields);
    var iter := new FieldIter(fields, 0);
    if fields == [] {
      return;
    }
    while true
      invariant iter.Valid() && iter.start == fields && fresh(iter)
      invariant SetDefaults(fields, old(dest.cells)) == SetDefaultsFrom(fields, dest.cells, iter.pos)
      decreases |fields| - iter.pos
    {
      ghost var i := iter.pos;
      FieldSetToDefault(iter.Current(), dest, Slot(fields, iter.pos));
      var more := iter.Next();
      if !more {
        assert SetDefaultsFrom(fields, dest.cells, i + 1) == dest.cells;
        return;
      }
    }
  }

  // ---- Field decoders ----

  /** pb_dec_varint */
  method DecodeSignedField(s: IStream, size: nat) returns (ok: bool, i: int)
    requires s.Valid()
    modifies s
    ensures s.Valid() && s.state + s.bytesLeft == old(s.state + s.bytesLeft)
    ensures ok == DecSignedField(size, old(s.Window())).Ok?
    ensures ok ==> i == DecSignedField(size, old(s.Window())).val
    ensures ok ==> s.Window() == DecSignedField(size, old(s.Window())).rest
  {
    hide DecVarint, Signed;
    i := 0;
    var value;
    ok, value := s.DecodeVarint();
    if !ok {
      return;
    }
    if !IntSize(size) {
      return false, 0;
    }
    var svalue := if size == 8 then Signed(value, U64) else Signed(value, U32);
    i := Signed(svalue, IntModulus(size));
    ok := i == svalue;
  }

  /** pb_dec_uvarint */
  method DecodeUnsignedField(s: IStream, size: nat) returns (ok: bool, i: int)
    requires s.Valid()
    modifies s
    ensures s.Valid() && s.state + s.bytesLeft == old(s.state + s.bytesLeft)
    ensures ok == DecUnsignedField(size, old(s.Window())).Ok?
    ensures ok ==> i == DecUnsignedField(size, old(s.Window())).val
    ensures ok ==> s.Window() == DecUnsignedField(size, old(s.Window())).rest
  {
    hide DecVarint, IntModulus;
    i := 0;
    var value;
    ok, value := s.DecodeVarint();
    if !ok {
      return;
    }
    if !IntSize(size) {
      return false, 0;
    }
    i := value % IntModulus(size);
    ok := i == value;
  }

  /** pb_decode_svarint */
  method DecodeSvarint(s: IStream) returns (ok: bool, i: int)
    requires s.Valid()
    modifies s
    ensures s.Valid() && s.state + s.bytesLeft == old(s.state + s.bytesLeft)
    ensures ok == DecVarint(old(s.Window())).Ok?
    ensures ok ==> i == Unzigzag(DecVarint(old(s.Window())).val)
    ensures ok ==> s.Window() == DecVarint(old(s.Window())).rest
  {
    hide DecVarint, Signed;
    i := 0;
    var value;
    ok, value := s.DecodeVarint();
    if !ok {
      return;
    }
    if value % 2 == 1 {
      i := Signed(U64 - 1 - value / 2, U64);
    } else {
      i := Signed(value / 2, U64);
    }
  }

  /** pb_dec_svarint */
  method DecodeZigzagField(s: IStream, size: nat) returns (ok: bool, i: int)
    requires s.Valid()
    modifies s
    ensures s.Valid() && s.state + s.bytesLeft == old(s.state + s.bytesLeft)
    ensures ok == DecZigzagField(size, old(s.Window())).Ok?
    ensures ok ==> i == DecZigzagField(size, old(s.Window())).val
    ensures ok ==> s.Window() == DecZigzagField(size, old(s.Window())).rest
  {
    hide DecVarint, Signed, Unzigzag, IntModulus;
    var value;
    i := 0;
    ok, value := DecodeSvarint(s);
    if !ok {
      return;
    }
    if !IntSize(size) {
      return false, 0;
    }
    i := Signed(value, IntModulus(size));
    ok := i == value;
  }

  /** Four bytes put together by shifting and OR-ing */
  function Join32(b: seq<byte>): nat
    requires |b| == 4
  {
    BitOr(BitOr(BitOr(b[0], Shl(b[1], 8)), Shl(b[2], 16)), Shl(b[3], 24))
  }

  lemma Join32Value(b: seq<byte>)
    requires |b| == 4
    ensures Join32(b) == Word32(b[0], b[1], b[2], b[3]) < Shl(1, 32)
  {
    hide Shl, BitOr;
    ShlBytes(1);
    OrByte(b[0], b[1], 8);
    OrByte(BitOr(b[0], Shl(b[1], 8)), b[2], 16);
    OrByte(BitOr(BitOr(b[0], Shl(b[1], 8)), Shl(b[2], 16)), b[3], 24);
    ShlBytes(b[1]);
    ShlBytes(b[2]);
    ShlBytes(b[3]);
  }

  function Join64(b: seq<byte>): nat
    requires |b| == 8
  {
    BitOr(BitOr(BitOr(BitOr(Join32(b[..4]), Shl(b[4], 32)), Shl(b[5], 40)), Shl(b[6], 48)), Shl(b[7], 56))
  }

  lemma Join64Value(b: seq<byte>)
    requires |b| == 8
    ensures Join64(b) == Word32(b[0], b[1], b[2], b[3]) + U32 * Word32(b[4], b[5], b[6], b[7])
  {
    hide Shl, BitOr, Join32;
    Join32Value(b[..4]);
    var x := Join32(b[..4]);
    OrByte(x, b[4], 32);
    OrByte(BitOr(x, Shl(b[4], 32)), b[5], 40);
    OrByte(BitOr(BitOr(x, Shl(b[4], 32)), Shl(b[5], 40)), b[6], 48);
    OrByte(BitOr(BitOr(BitOr(x, Shl(b[4], 32)), Shl(b[5], 40)), Shl(b[6], 48)), b[7], 56);
    ShlBytes(b[4]);
    ShlBytes(b[5]);
    ShlBytes(b[6]);
    ShlBytes(b[7]);
  }

  /** pb_decode_fixed32 */
  method DecodeFixed32(s: IStream) returns (ok: bool, n: nat)
    requires s.Valid()
    modifies s
    ensures s.Valid() && s.state + s.bytesLeft == old(s.state + s.bytesLeft)
    ensures ok == DecFixed32(old(s.Window())).Ok?
    ensures ok ==> n == DecFixed32(old(s.Window())).val && s.Window() == DecFixed32(old(s.Window())).rest
  {
    hide Join32, Word32;
    n := 0;
    ghost var w := s.Window();
    var bytes := new byte[4];
    ok := s.Read(bytes, 4);
    if ok {
      assert bytes[..] == w[..4];
      Join32Value(bytes[..]);
      n := Join32(bytes[..]);
    }
  }

  /** pb_decode_fixed64 */
  method DecodeFixed64(s: IStream) returns (ok: bool, n: nat)
    requires s.Valid()
    modifies s
    ensures s.Valid() && s.state + s.bytesLeft == old(s.state + s.bytesLeft)
    ensures ok == DecFixed64(old(s.Window())).Ok?
    ensures ok ==> n == DecFixed64(old(s.Window())).val && s.Window() == DecFixed64(old(s.Window())).rest
  {
    hide Join64, Word32;
    n := 0;
    ghost var w := s.Window();
    var bytes := new byte[8];
    ok := s.Read(bytes, 8);
    if ok {
      assert bytes[..] == w[..8];
      Join64Value(bytes[..]);
      n := Join64(bytes[..]);
    }
  }

  /** pb_dec_bytes */
  method DecodeBytes(s: IStream, f: Field) returns (ok: bool, v: Value)
    requires s.Valid()
    modifies s
    ensures s.Valid() && s.state + s.bytesLeft == old(s.state + s.bytesLeft)
    ensures ok == DecBytes(f, old(s.Window())).Ok?
    ensures ok ==> v == DecBytes(f, old(s.Window())).val
    ensures ok ==> s.Window() == DecBytes(f, old(s.Window())).rest
  {
    hide DecVarint32;
    v := BLANK;
    var size, eof;
    ok, size, eof := s.DecodeVarint32Eof();
    if !ok {
      return;
    }
    if size > PB_SIZE_MAX {
      return false, v;
    }
    if size + BYTES_HEADER > f.dataSize {
      return false, v;
    }
    var bytes := new byte[size];
    ok := s.Read(bytes, size);
    v := VBytes(bytes[..]);
  }

  /** pb_dec_string */
  method DecodeChars(s: IStream, f: Field, prior: Value) returns (ok: bool, v: Value)
    requires s.Valid()
    modifies s
    ensures s.Valid() && s.state + s.bytesLeft == old(s.state + s.bytesLeft)
    ensures ok == DecChars(f, old(s.Window()), prior).Ok?
    ensures ok ==> v == DecChars(f, old(s.Window()), prior).val
    ensures ok ==> s.Window() == DecChars(f, old(s.Window()), prior).rest
  {
    hide DecVarint32;
    v := prior;
    var size, eof;
    ok, size, eof := s.DecodeVarint32Eof();
    if !ok {
      return;
    }
    var allocSize := (size + 1) % U32;
    if allocSize < size {
      return false, v;
    }
    if allocSize > f.dataSize {
      return false, v;
    }
    ok, v := ReadChars(s, size, prior, f.dataSize);
  }

  lemma Terminate(chars: seq<byte>, data: seq<byte>, tail: seq<byte>)
    requires |data| < |tail| && chars == data + tail[|data|..]
    ensures chars[|data| := 0] == data + [0] + tail[|data| + 1..]
  {
  }

  /** The characters are read over the array, and the terminator is put behind them. */
  method ReadChars(s: IStream, count: nat, prior: Value, size: nat) returns (ok: bool, v: Value)
    requires s.Valid() && count < size
    modifies s
    ensures s.Valid() && s.state + s.bytesLeft == old(s.state + s.bytesLeft)
    ensures ok == (count <= old(s.bytesLeft))
    ensures ok ==> v == VString(WriteString(prior, old(s.Window())[..count], size))
    ensures ok ==> s.Window() == old(s.Window())[count..]
  {
    ghost var w := s.Window();
    var tail := if prior.VString? && |prior.buf| == size then prior.buf else Zeros(size);
    var chars := new byte[size](k requires 0 <= k < |tail| => tail[k]);
    assert chars[..] == tail && chars[count..] == tail[count..];
    ok := s.Read(chars, count);
    ghost var read := chars[..];
    chars[count] := 0;
    v := VString(chars[..]);
    if ok {
      Terminate(read, w[..count], tail);
      assert chars[..] == read[count := 0];
    }
  }

  /** pb_dec_fixed_length_bytes */
  method DecodeFixedBytes(s: IStream, f: Field) returns (ok: bool, v: Value)
    requires s.Valid()
    modifies s
    ensures s.Valid() && s.state + s.bytesLeft == old(s.state + s.bytesLeft)
    ensures ok == DecFixedBytes(f, old(s.Window())).Ok?
    ensures ok ==> v == DecFixedBytes(f, old(s.Window())).val
    ensures ok ==> s.Window() == DecFixedBytes(f, old(s.Window())).rest
  {
    hide DecVarint32;
    v := BLANK;
    var size, eof;
    ok, size, eof := s.DecodeVarint32Eof();
    if !ok {
      return;
    }
    if size > PB_SIZE_MAX {
      return false, v;
    }
    if size == 0 {
      return true, VFixed(Zeros(f.dataSize));
    }
    if size != f.dataSize {
      return false, v;
    }
    var bytes := new byte[size];
    ok := s.Read(bytes, size);
    v := VFixed(bytes[..]);
  }

  /** pb_decode */
  method Decode(s: IStream, fields: seq<Field>, dest: Struct) returns (ok: bool)
    requires s.Valid() && WellFormed(fields)
    modifies s, dest
    ensures s.Valid() && s.state + s.bytesLeft <= old(s.state + s.bytesLeft)
    ensures ok == DecoderSpec.Decode(fields, old(s.Window()), old(dest.cells)).Ok?
    ensures ok ==> dest.cells == DecoderSpec.Decode(fields, old(s.Window()), old(dest.cells)).val
    ensures ok ==> s.Window() == DecoderSpec.Decode(fields, old(s.Window()), old(dest.cells)).rest
    ensures ok ==> s.state + s.bytesLeft == old(s.state + s.bytesLeft)
    decreases s.bytesLeft, 8
  {
    hide DecMessage, SetDefaults, WellFormed;
    MessageSetToDefaults(fields, dest);
    ok := DecodeNoinit(s, fields, dest);
  }

  /** pb_dec_submessage */
  method DecodeSubmessage(s: IStream, f: Field, prior: Value) returns (ok: bool, v: Value)
    requires s.Valid() && f.ltype.LSubmessage? && WellFormedField(f)
    modifies s
    ensures s.Valid() && s.state + s.bytesLeft <= old(s.state + s.bytesLeft)
    ensures ok == DecValue(f, old(s.Window()), prior).Ok?
    ensures ok ==> v == DecValue(f, old(s.Window()), prior).val
    ensures ok ==> s.Window() == DecValue(f, old(s.Window()), prior).rest
    ensures ok ==> s.state + s.bytesLeft == old(s.state + s.bytesLeft)
    decreases s.bytesLeft, 0
  {
    hide DecString, DecMessage, WellFormed, SetDefaults;
    v := prior;
    var sub;
    ok, sub := s.MakeSubstream();
    if !ok {
      return;
    }
    if !f.ptr.Sub? {
      return false, v;
    }
    var dest := new Struct(CellsOf(prior));
    var status;
    if f.htype.Repeated? {
      status := Decode(sub, f.ptr.fields, dest);
    } else {
      status := DecodeNoinit(sub, f.ptr.fields, dest);
    }
    ok := s.CloseSubstream(sub);
    if !ok {
      return;
    }
    v := VMsg(dest.cells);
    ok := status;
  }

  lemma SubmessageTable(f: Field)
    requires WellFormedField(f) && f.ltype.LSubmessage?
    ensures WellFormed(f.SubFields())
  {
  }

  /** memset to zero, then defaults: what a union is given when it turns to a submessage */
  method ZeroedMessage(fields: seq<Field>) returns (v: Value)
    requires WellFormed(fields)
    ensures v == VMsg(FreshMessage(fields))
  {
    hide WellFormed;
    var dest := new Struct(ZeroCells(fields, |fields|));
    MessageSetToDefaults(fields, dest);
    v := VMsg(dest.cells);
  }

  /** pSize differs from pData exactly when there is a has_ or _count member. */
  lemma HasFlag(iter: FieldIter)
    requires iter.Valid() && !iter.Current().htype.Oneof? && iter.pSize.At?
    ensures iter.pSize != At(iter.pData) <==> iter.Current().sizeOffset != 0
  {
  }

  // ---- The main loop ----

  /** The variables of pb_decode_noinit stand for the state st of DecoderSpec. */
  ghost predicate Tracks(fields: seq<Field>, iter: FieldIter, dest: Struct, fieldsSeen: array<nat>,
                         fixedField: Option<nat>, fixedSize: nat, st: State)
    reads iter, dest, fieldsSeen
  {
    && iter.Valid() && iter.start == fields && dest.cells == st.cells
    && fieldsSeen.Length == 2 && Represents(fieldsSeen[0], fieldsSeen[1], st.seen)
    && (fields != [] ==> forall k | k in st.seen :: k < RequiredTracked(fields))
    && fixedField == st.fixedField && fixedSize == st.fixedSize
    && (iter.pSize == LocalCounter ==> fixedField == Some(iter.pos))
  }

  lemma FieldsStep(fields: seq<Field>, bs: seq<byte>, st: State)
    requires bs != []
    ensures DecTag(bs).TagError? ==> DecFields(fields, bs, st).Bad?
    ensures DecTag(bs).End? ==> DecFields(fields, bs, st) == Ok(st, DecTag(bs).rest)
    ensures DecTag(bs).Tag? ==>
      var r := DecField(fields, DecTag(bs).wt, DecTag(bs).tag, DecTag(bs).rest, st);
      DecFields(fields, bs, st) == if r.Ok? then DecFields(fields, r.rest, r.val) else Bad
  {
    hide DecTag, DecField;
  }

  lemma FieldsEnd(fields: seq<Field>, st: State)
    ensures DecFields(fields, [], st) == Ok(st, [])
  {
  }

  lemma TrackedEmpty(fields: seq<Field>)
    ensures fields == [] ==> RequiredTracked(fields) == 0
    ensures RequiredTracked(fields) <= 64
  {
  }

  /** The walk to the end of the table that counts the required fields, from any position */
  method CountRequired(iter: FieldIter) returns (reqFieldCount: nat)
    requires iter.Valid()
    modifies iter
    ensures reqFieldCount == RequiredBefore(iter.start, |iter.start|)
  {
    hide Offset;
    reqFieldCount := iter.requiredFieldIndex;
    var last := iter.Current().htype;
    var more := iter.Next();
    while more
      invariant iter.Valid() && (more ==> 0 < iter.pos < |iter.start|)
      invariant !more ==> iter.pos == 0 && (iter.start == [] ==> reqFieldCount == 0)
      invariant !more && iter.start != [] ==>
        reqFieldCount == RequiredBefore(iter.start, |iter.start| - 1) && last == iter.start[|iter.start| - 1].htype
      decreases if more then |iter.start| - iter.pos else 0
    {
      reqFieldCount := iter.requiredFieldIndex;
      last := iter.Current().htype;
      more := iter.Next();
    }
    if last.Required? && iter.Current().tag != 0 {
      reqFieldCount := reqFieldCount + 1;
    }
  }

  lemma SubmessageWellFormed(fields: seq<Field>, i: nat)
    requires WellFormed(fields)
    ensures FieldAt(fields, i).ltype.LSubmessage? ==> WellFormedField(FieldAt(fields, i))
  {
  }

  lemma MarkBelow(fields: seq<Field>, i: nat)
    requires i < |fields| && fields[i].htype.Required? && RequiredBefore(fields, i) < PB_MAX_REQUIRED_FIELDS
    ensures RequiredBefore(fields, i) < RequiredTracked(fields)
  {
    RequiredBeforeStrict(fields, i, |fields|);
  }

  /** The bit of a required field is set. */
  method MarkSeen(fields: seq<Field>, iter: FieldIter, fieldsSeen: array<nat>, ghost seen: set<nat>)
    requires iter.Valid() && iter.start == fields && fieldsSeen.Length == 2
    requires Represents(fieldsSeen[0], fieldsSeen[1], seen)
    requires fields != [] ==> forall k | k in seen :: k < RequiredTracked(fields)
    modifies fieldsSeen
    ensures Represents(fieldsSeen[0], fieldsSeen[1], Mark(fields, iter.pos, seen))
    ensures fields != [] ==> forall k | k in Mark(fields, iter.pos, seen) :: k < RequiredTracked(fields)
  {
    hide Represents, RequiredBefore, RequiredTracked, Offset;
    if iter.Current().htype.Required? && iter.requiredFieldIndex < PB_MAX_REQUIRED_FIELDS {
      var index := iter.requiredFieldIndex;
      RepresentsInsert(fieldsSeen[0], fieldsSeen[1], seen, index);
      if fields != [] {
        MarkBelow(fields, iter.pos);
      }
      fieldsSeen[index / 32] := BitOr(fieldsSeen[index / 32], Shl(1, index % 32));
    }
  }

  /** The rest of a round of the main loop, once the iterator is at the field */
  method DecodeFound(s: IStream, fields: seq<Field>, wt: nat, iter: FieldIter, dest: Struct, fieldsSeen: array<nat>,
                     fixedField: Option<nat>, fixedSize: nat, ghost st: State)
    returns (ok: bool, newField: Option<nat>, newSize: nat, ghost st1: State)
    requires s.Valid() && WellFormed(fields)
    requires Tracks(fields, iter, dest, fieldsSeen, fixedField, fixedSize, st)
    modifies s, iter, dest, fieldsSeen
    ensures s.Valid() && s.state + s.bytesLeft <= old(s.state + s.bytesLeft)
    ensures var r := DecKnown(fields, old(iter.pos), wt, old(s.Window()), st);
      && ok == r.Ok?
      && (ok ==> st1 == r.val && s.Window() == r.rest && s.state + s.bytesLeft == old(s.state + s.bytesLeft))
      && (ok ==> Tracks(fields, iter, dest, fieldsSeen, newField, newSize, st1))
    decreases s.bytesLeft, 5
  {
    hide WellFormed, WellFormedField, Represents, RequiredBefore, RequiredTracked, DecCell, Slot, Offset, SizeAddress;
    newField, newSize, st1 := fixedField, fixedSize, st;
    SubmessageWellFormed(fields, iter.pos);
    if iter.Current().htype.Repeated? {
      CounterPlace(iter);
      if iter.pSize == At(iter.pData) {
        if newField != Some(iter.pos) {
          if newField.Some? && newSize != FieldAt(fields, newField.value).arraySize {
            return false, newField, newSize, st1;
          }
          newField, newSize := Some(iter.pos), 0;
        }
        iter.pSize := LocalCounter;
      }
    }
    ghost var turned := Turn(fields, iter.pos, st);
    assert turned == Some(State(st.cells, st.seen, newField, newSize));
    MarkSeen(fields, iter, fieldsSeen, st.seen);
    ok, newSize := DecodeStaticField(s, wt, iter, dest, newSize);
    st1 := State(dest.cells, Mark(fields, iter.pos, st.seen), newField, newSize);
  }

  /** pSize is at the data exactly when a repeated field is of fixed count and not yet turned to. */
  lemma CounterPlace(iter: FieldIter)
    requires iter.Valid() && iter.Current().htype.Repeated?
    ensures iter.Current().FixedCount() <==> iter.pSize == At(iter.pData) || iter.pSize == LocalCounter
  {
  }

  lemma KnownField(fields: seq<Field>, wt: nat, tag: nat, bs: seq<byte>, st: State, i: nat)
    requires Lookup(fields, tag) == Some(i)
    ensures DecField(fields, wt, tag, bs, st) == DecKnown(fields, i, wt, bs, st)
  {
    hide DecKnown, Lookup;
  }

  lemma UnknownField(fields: seq<Field>, wt: nat, tag: nat, bs: seq<byte>, st: State)
    requires Lookup(fields, tag).None?
    ensures DecField(fields, wt, tag, bs, st) ==
      if SkipField(wt, bs).Ok? then Ok(st, SkipField(wt, bs).rest) else Bad
  {
    hide DecKnown, Lookup, SkipField;
  }

  /** One round of the main loop: eof says that the message has ended. */
  method DecodeRound(s: IStream, fields: seq<Field>, iter: FieldIter, dest: Struct, fieldsSeen: array<nat>,
                     fixedField: Option<nat>, fixedSize: nat, ghost st: State)
    returns (ok: bool, eof: bool, newField: Option<nat>, newSize: nat, ghost st1: State)
    requires s.Valid() && WellFormed(fields) && s.bytesLeft != 0
    requires Tracks(fields, iter, dest, fieldsSeen, fixedField, fixedSize, st)
    modifies s, iter, dest, fieldsSeen
    ensures s.Valid() && s.state + s.bytesLeft <= old(s.state + s.bytesLeft)
    ensures !ok ==> DecFields(fields, old(s.Window()), st).Bad?
    ensures ok && eof ==> DecFields(fields, old(s.Window()), st) == Ok(st1, s.Window())
    ensures ok && !eof ==> DecFields(fields, old(s.Window()), st) == DecFields(fields, s.Window(), st1)
    ensures ok ==> s.bytesLeft < old(s.bytesLeft) && s.state + s.bytesLeft == old(s.state + s.bytesLeft)
    ensures ok ==> Tracks(fields, iter, dest, fieldsSeen, newField, newSize, st1)
    decreases s.bytesLeft, 6
  {
    hide DecFields, DecTag, DecField, DecKnown, WellFormed, WellFormedField, Represents;
    hide Lookup, RequiredTracked, Offset, RequiredBefore;
    newField, newSize, st1 := fixedField, fixedSize, st;
    TableFields(fields);
    FieldsStep(fields, s.Window(), st);
    var wt, tag;
    ok, wt, tag, eof := s.DecodeTag();
    if !ok {
      ok := eof;
      return;
    }
    eof := false;
    var found, _ := iter.Find(tag);
    if found {
      KnownField(fields, wt, tag, s.Window(), st, iter.pos);
      ok, newField, newSize, st1 := DecodeFound(s, fields, wt, iter, dest, fieldsSeen, fixedField, fixedSize, st);
    } else {
      UnknownField(fields, wt, tag, s.Window(), st) by { NotFound(fields, tag); }
      ok := s.SkipField(wt);
    }
  }

  lemma NotFound(fields: seq<Field>, tag: nat)
    requires fields == [] ==> tag != 0
    requires forall i | 0 <= i < |fields| :: fields[i].tag != tag
    ensures Lookup(fields, tag).None?
  {
  }

  /** pb_decode_noinit */
  method DecodeNoinit(s: IStream, fields: seq<Field>, dest: Struct) returns (ok: bool)
    requires s.Valid() && WellFormed(fields)
    modifies s, dest
    ensures s.Valid() && s.state + s.bytesLeft <= old(s.state + s.bytesLeft)
    ensures ok == DecMessage(fields, old(s.Window()), old(dest.cells)).Ok?
    ensures ok ==> dest.cells == DecMessage(fields, old(s.Window()), old(dest.cells)).val
    ensures ok ==> s.Window() == DecMessage(fields, old(s.Window()), old(dest.cells)).rest
    ensures ok ==> s.state + s.bytesLeft == old(s.state + s.bytesLeft)
    decreases s.bytesLeft, 7
  {
    hide DecFields, WellFormed, WellFormedField, Represents, Lookup, RequiredBefore, Offset;
    TableFields(fields);
    ghost var w, st := s.Window(), Start(dest.cells);
    var iter := new FieldIter(fields, 0);
    var fieldsSeen := new nat[2](_ => 0);
    RepresentsEmpty();
    var fixedField, fixedSize := None, 0;
    var eof := false;
    while s.bytesLeft != 0 && !eof
      invariant s.Valid() && s.bytesLeft <= old(s.bytesLeft) && s.state + s.bytesLeft == old(s.state + s.bytesLeft)
      invariant fresh(iter) && fresh(fieldsSeen)
      invariant Tracks(fields, iter, dest, fieldsSeen, fixedField, fixedSize, st)
      invariant DecFields(fields, w, Start(old(dest.cells))) ==
        if eof then Ok(st, s.Window()) else DecFields(fields, s.Window(), st)
      decreases s.bytesLeft
    {
      ok, eof, fixedField, fixedSize, st := DecodeRound(s, fields, iter, dest, fieldsSeen, fixedField, fixedSize, st);
      if !ok {
        return;
      }
    }
    FieldsEnd(fields, st);
    if fixedField.Some? && fixedSize != FieldAt(fields, fixedField.value).arraySize {
      return false;
    }
    var reqFieldCount := CountRequired(iter);
    if reqFieldCount > PB_MAX_REQUIRED_FIELDS {
      reqFieldCount := PB_MAX_REQUIRED_FIELDS;
    }
    TrackedEmpty(fields);
    ok := AllSeen(fieldsSeen, reqFieldCount, st.seen);
  }

  /** The decoder of field f: one of the pb_dec functions, by its ltype */
  method DecodeValue(s: IStream, f: Field, prior: Value) returns (ok: bool, v: Value)
    requires s.Valid() && (f.ltype.LSubmessage? ==> WellFormedField(f))
    modifies s
    ensures s.Valid() && s.state + s.bytesLeft <= old(s.state + s.bytesLeft)
    ensures ok == DecValue(f, old(s.Window()), prior).Ok?
    ensures ok ==> v == DecValue(f, old(s.Window()), prior).val
    ensures ok ==> s.Window() == DecValue(f, old(s.Window()), prior).rest
    ensures ok ==> s.state + s.bytesLeft == old(s.state + s.bytesLeft)
    decreases s.bytesLeft, 1
  {
    hide DecVarint32, DecSignedField, DecUnsignedField, DecZigzagField, DecFixed32, DecFixed64;
    hide DecBytes, DecChars, DecFixedBytes, WellFormedField, DecString, DecMessage;
    v := prior;
    match f.ltype {
      case LBool =>
        var n, eof;
        ok, n, eof := s.DecodeVarint32Eof();
        v := VBool(n != 0);
      case LVarint =>
        var i;
        ok, i := DecodeSignedField(s, f.dataSize);
        v := VNum(i);
      case LUvarint =>
        var i;
        ok, i := DecodeUnsignedField(s, f.dataSize);
        v := VNum(i);
      case LSvarint =>
        var i;
        ok, i := DecodeZigzagField(s, f.dataSize);
        v := VNum(i);
      case LFixed32 =>
        var n;
        ok, n := DecodeFixed32(s);
        v := VNum(n);
      case LFixed64 =>
        var n;
        ok, n := DecodeFixed64(s);
        v := VNum(n);
      case LBytes =>
        ok, v := DecodeBytes(s, f);
      case LString =>
        ok, v := DecodeChars(s, f, prior);
      case LFixedBytes =>
        ok, v := DecodeFixedBytes(s, f);
      case LSubmessage =>
        ok, v := DecodeSubmessage(s, f, prior);
    }
  }

  /** The loop of decode_static_field over a packed array */
  method DecodePacked(sub: IStream, f: Field, n: nat, items: seq<Value>)
    returns (ok: bool, size: nat, stored: seq<Value>)
    requires sub.Valid() && (f.ltype.LSubmessage? ==> WellFormedField(f))
    modifies sub
    ensures sub.Valid()
    ensures ok && sub.bytesLeft == 0 <==> DecItems(f, old(sub.Window()), n, items).Ok?
    ensures ok && sub.bytesLeft == 0 ==> DecItems(f, old(sub.Window()), n, items).val == (size, stored)
    ensures ok ==> sub.state + sub.bytesLeft == old(sub.state + sub.bytesLeft)
    decreases sub.bytesLeft, 2
  {
    hide DecValue, WellFormedField;
    ghost var w := sub.Window();
    size, stored := n, items;
    while sub.bytesLeft > 0 && size < f.arraySize
      invariant sub.Valid() && sub.bytesLeft <= old(sub.bytesLeft)
      invariant sub.state + sub.bytesLeft == old(sub.state + sub.bytesLeft)
      invariant DecItems(f, w, n, items) == DecItems(f, sub.Window(), size, stored)
      decreases sub.bytesLeft
    {
      ghost var before := sub.Window();
      var v;
      ok, v := DecodeValue(sub, f, ItemAt(stored, size));
      if !ok {
        assert DecItems(f, before, size, stored).Bad?;
        return;
      }
      stored := WithItem(stored, size, v);
      size := size + 1;
    }
    ok := true;
  }

  /** decode_static_field, for an array with n elements */
  method DecodeArray(s: IStream, f: Field, wt: nat, n: nat, items: seq<Value>)
    returns (ok: bool, size: nat, stored: seq<Value>)
    requires s.Valid() && (f.ltype.LSubmessage? ==> WellFormedField(f))
    modifies s
    ensures s.Valid() && s.state + s.bytesLeft <= old(s.state + s.bytesLeft)
    ensures ok == DecArray(f, wt, old(s.Window()), n, items).Ok?
    ensures ok ==> (size, stored) == DecArray(f, wt, old(s.Window()), n, items).val
    ensures ok ==> s.Window() == DecArray(f, wt, old(s.Window()), n, items).rest
    ensures ok ==> s.state + s.bytesLeft == old(s.state + s.bytesLeft)
    decreases s.bytesLeft, 3
  {
    hide DecValue, WellFormedField, DecString, DecItems;
    size, stored := n, items;
    if wt == WT_STRING && f.Packable() {
      var sub;
      ok, sub := s.MakeSubstream();
      if !ok {
        return;
      }
      var status;
      status, size, stored := DecodePacked(sub, f, n, items);
      if sub.bytesLeft != 0 {
        return false, size, stored;
      }
      ok := s.CloseSubstream(sub);
      if !ok {
        return;
      }
      ok := status;
    } else {
      if n >= f.arraySize {
        return false, n, items;
      }
      var v;
      ok, v := DecodeValue(s, f, ItemAt(items, n));
      size, stored := n + 1, WithItem(items, n, v);
    }
  }

  /** decode_static_field, with the counter of a fixed-count array passed in and out */
  method DecodeStaticField(s: IStream, wt: nat, iter: FieldIter, dest: Struct, fixedSize: nat)
    returns (ok: bool, newSize: nat)
    requires s.Valid() && iter.Valid() && (iter.Current().ltype.LSubmessage? ==> WellFormedField(iter.Current()))
    requires iter.Current().htype.Repeated? ==> (iter.pSize == LocalCounter <==> iter.Current().FixedCount())
    modifies s, dest
    ensures s.Valid() && s.state + s.bytesLeft <= old(s.state + s.bytesLeft)
    ensures var slot := Slot(iter.start, iter.pos);
      var r := DecCell(iter.Current(), wt, old(s.Window()), CellAt(old(dest.cells), slot), fixedSize);
      && ok == r.Ok?
      && (ok ==> dest.cells == WithCell(old(dest.cells), slot, r.val.0) && newSize == r.val.1)
      && (ok ==> s.Window() == r.rest && s.state + s.bytesLeft == old(s.state + s.bytesLeft))
    decreases s.bytesLeft, 4
  {
    hide DecValue, DecArray, WellFormedField, Slot, Offset, RequiredBefore, FreshMessage;
    var f, slot := iter.Current(), Slot(iter.start, iter.pos);
    var c := CellAt(dest.cells, slot);
    newSize := fixedSize;
    var v;
    match f.htype {
      case Required =>
        ok, v := DecodeValue(s, f, CellValue(c));
        dest.cells := WithCell(dest.cells, slot, One(v));
      case Optional =>
        ok, v := DecodeValue(s, f, CellValue(c));
        HasFlag(iter);
        dest.cells := WithCell(dest.cells, slot, if iter.pSize != At(iter.pData) then Opt(true, v) else One(v));
      case Repeated =>
        var items := CellItems(c);
        if iter.pSize == LocalCounter {
          ok, newSize, items := DecodeArray(s, f, wt, fixedSize, items);
          dest.cells := WithCell(dest.cells, slot, Fix(items));
        } else {
          var count := if c.Arr? then c.count else 0;
          ok, count, items := DecodeArray(s, f, wt, count, items);
          dest.cells := WithCell(dest.cells, slot, Arr(count, items));
        }
      case Oneof =>
        var target := CellValue(c);
        if f.ltype.LSubmessage? {
          target := ZeroedMessage(f.SubFields()) by { SubmessageTable(f); }
        }
        ok, v := DecodeValue(s, f, target);
        dest.cells := WithCell(dest.cells, slot, Union(f.tag, v));
    }
  }

  /** pb_decode_delimited_noinit and pb_decode_delimited */
  method DecodeDelimitedFrame(s: IStream, fields: seq<Field>, dest: Struct, init: bool) returns (ok: bool)
    requires s.Valid() && WellFormed(fields)
    modifies s, dest
    ensures s.Valid() && s.state + s.bytesLeft <= old(s.state + s.bytesLeft)
    ensures var r := DecDelimited(fields, old(s.Window()), old(dest.cells), init);
      && ok == r.Ok?
      && (ok ==> dest.cells == r.val && s.Window() == r.rest && s.state + s.bytesLeft == old(s.state + s.bytesLeft))
  {
    hide DecString, DecMessage, WellFormed, SetDefaults;
    var sub;
    ok, sub := s.MakeSubstream();
    if !ok {
      return;
    }
    var status;
    if init {
      status := Decode(sub, fields, dest);
    } else {
      status := DecodeNoinit(sub, fields, dest);
    }
    ok := s.CloseSubstream(sub);
    ok := ok && status;
  }
}
