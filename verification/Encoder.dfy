/**
  pb_encode.c: the encoder, writing to a stream step by step. Each method emits what the functions
  of EncoderSpec say, or fails; see OutputStream.Wrote.
 */
module Encoder {
  import opened Words
  import opened Wire
  import opened WireProperties
  import opened Descriptors
  import opened EncoderSpec
  import opened OutputStream
  import opened FieldIterator

  /** After the bytes p of a whole, the next part r was encoded, and rest is still to come. */
  lemma Proceed(a: Snapshot, b: Snapshot, c: Snapshot, ok: bool,
                p: seq<byte>, r: Option<seq<byte>>, rest: Option<seq<byte>>, whole: Option<seq<byte>>)
    requires !a.sizing ==> a.written <= a.max && Limit(a) <= |a.mem|
    requires Wrote(a, b, true, Some(p)) && Wrote(b, c, ok, r)
    requires whole == Cat(Some(p), Cat(r, rest))
    ensures ok ==> r.Some? && Wrote(a, c, true, Some(p + r.value)) && whole == Cat(Some(p + r.value), rest)
    ensures !ok ==> Wrote(a, c, false, whole)
  {
    hide Wrote;
    WroteThen(a, b, c, ok, p, r);
    if !ok {
      WroteNot(a, c, if r.Some? then Some(p + r.value) else None, whole);
    } else {
      assert r.Some? by { WroteSome(b, c, r); }
      if rest.Some? {
        assert p + (r.value + rest.value) == p + r.value + rest.value;
      }
    }
  }

  lemma WroteSome(a: Snapshot, b: Snapshot, r: Option<seq<byte>>)
    requires Wrote(a, b, true, r)
    ensures r.Some?
  {
  }

  /** The first part of a whole */
  lemma Begin(a: Snapshot, c: Snapshot, ok: bool, r: Option<seq<byte>>, rest: Option<seq<byte>>)
    requires Wrote(a, c, ok, r)
    ensures if ok then r.Some? && Wrote(a, c, true, Some(r.value)) && Cat(r, rest) == Cat(Some(r.value), rest)
      else Wrote(a, c, false, Cat(r, rest))
  {
    hide Wrote;
    if ok {
      WroteSome(a, c, r);
    } else {
      WroteNot(a, c, r, Cat(r, rest));
    }
  }

  /** The last part of a whole */
  lemma Finish(a: Snapshot, b: Snapshot, c: Snapshot, ok: bool, p: seq<byte>, r: Option<seq<byte>>)
    requires !a.sizing ==> a.written <= a.max && Limit(a) <= |a.mem|
    requires Wrote(a, b, true, Some(p)) && Wrote(b, c, ok, r)
    ensures Wrote(a, c, ok, Cat(Some(p), r))
  {
    hide Wrote;
    WroteThen(a, b, c, ok, p, r);
  }

  // ---- Wire primitives ----

  lemma VarintStep(v: nat)
    ensures v < 128 ==> EncVarint(v) == [v] && v / 128 == 0
    ensures v >= 128 ==> EncVarint(v) == [v % 128 + 128] + EncVarint(v / 128) && v / 128 > 0
    ensures v < U64 ==> |EncVarint(v)| <= 10
  {
    EncVarintLength(v);
  }

  /** Round i of the loop has put seven more bits behind the bytes head. */
  lemma VarintRound(whole: seq<byte>, head: seq<byte>, v: nat, next: seq<byte>)
    requires v > 0 && whole == head + EncVarint(v) && next == head + [v % 128 + 128]
    ensures v >= 128 ==> whole == next + EncVarint(v / 128)
    ensures v < 128 ==> whole == head + [next[|head|] - 128]
  {
    VarintStep(v);
  }

  /** The loop of pb_encode_varint, which fills a local buffer */
  method VarintBytes(value: nat) returns (buffer: array<byte>, i: nat)
    requires 128 <= value < U64
    ensures fresh(buffer) && i <= buffer.Length == 10 && buffer[..i] == EncVarint(value)
  {
    hide EncVarint;
    buffer := new byte[10];
    VarintStep(value);
    var v := value;
    i := 0;
    while v != 0
      invariant i <= 10
      invariant v != 0 ==> EncVarint(value) == buffer[..i] + EncVarint(v)
      invariant v == 0 ==> 0 < i && buffer[i - 1] >= 128
      invariant v == 0 ==> EncVarint(value) == buffer[..i - 1] + [buffer[i - 1] - 128]
    {
      ghost var head, w := buffer[..i], v;
      buffer[i] := v % 128 + 128;
      v := v / 128;
      i := i + 1;
      assert buffer[..i] == head + [w % 128 + 128] && buffer[..i - 1] == head;
      VarintStep(w);
      VarintRound(EncVarint(value), head, w, buffer[..i]);
    }
    buffer[i - 1] := buffer[i - 1] % 128;
    assert buffer[..i] == buffer[..i - 1] + [buffer[i - 1]];
  }

  /** pb_encode_varint */
  method EncodeVarint(s: OStream, value: nat) returns (ok: bool)
    requires s.Valid() && value < U64
    modifies s, s.dest
    ensures s.Valid() && s.dest == old(s.dest)
    ensures Wrote(old(s.Snap()), s.Snap(), ok, Some(EncVarint(value)))
  {
    hide Wrote, EncVarint;
    VarintStep(value);
    if value <= 0x7F {
      ok := s.Write([value], 1, [value]);
    } else {
      var buffer, i := VarintBytes(value);
      ok := s.Write(buffer[..i], i, EncVarint(value));
    }
  }

  /** pb_encode_svarint */
  method EncodeSvarint(s: OStream, value: int) returns (ok: bool)
    requires s.Valid() && FitsSigned(value, 8)
    modifies s, s.dest
    ensures s.Valid() && s.dest == old(s.dest)
    ensures Wrote(old(s.Snap()), s.Snap(), ok, Some(EncVarint(Zigzag(value))))
  {
    hide Wrote, EncVarint;
    ZigzagRoundTrip(value, 0);
    var image := value % U64;
    var zigzagged := if value < 0 then U64 - 1 - (2 * image) % U64 else (2 * image) % U64;
    ok := EncodeVarint(s, zigzagged);
  }

  /** pb_encode_fixed32 */
  method EncodeFixed32(s: OStream, val: nat) returns (ok: bool)
    requires s.Valid()
    modifies s, s.dest
    ensures s.Valid() && s.dest == old(s.dest)
    ensures Wrote(old(s.Snap()), s.Snap(), ok, Some(EncFixed32(val)))
  {
    hide Wrote;
    var bytes := new byte[4];
    bytes[0], bytes[1] := val % 256, val / 0x100 % 256;
    bytes[2], bytes[3] := val / 0x1_0000 % 256, val / 0x100_0000 % 256;
    assert bytes[..] == EncFixed32(val);
    ok := s.Write(bytes[..], 4, bytes[..]);
  }

  /** pb_encode_fixed64 */
  method EncodeFixed64(s: OStream, val: nat) returns (ok: bool)
    requires s.Valid()
    modifies s, s.dest
    ensures s.Valid() && s.dest == old(s.dest)
    ensures Wrote(old(s.Snap()), s.Snap(), ok, Some(EncFixed64(val)))
  {
    hide Wrote;
    var bytes := new byte[8];
    var lo, hi := val % U32, val / U32;
    bytes[0], bytes[1] := lo % 256, lo / 0x100 % 256;
    bytes[2], bytes[3] := lo / 0x1_0000 % 256, lo / 0x100_0000 % 256;
    bytes[4], bytes[5] := hi % 256, hi / 0x100 % 256;
    bytes[6], bytes[7] := hi / 0x1_0000 % 256, hi / 0x100_0000 % 256;
    assert bytes[..] == EncFixed64(val);
    ok := s.Write(bytes[..], 8, bytes[..]);
  }

  /** pb_encode_tag */
  method EncodeTag(s: OStream, wt: nat, tag: nat) returns (ok: bool)
    requires s.Valid() && wt < 8 && tag < U32
    modifies s, s.dest
    ensures s.Valid() && s.dest == old(s.dest)
    ensures Wrote(old(s.Snap()), s.Snap(), ok, Some(EncTag(wt, tag)))
  {
    ok := EncodeVarint(s, 8 * tag + wt);
  }

  /** pb_encode_tag_for_field */
  method EncodeTagForField(s: OStream, f: Field) returns (ok: bool)
    requires s.Valid() && f.tag < U32
    modifies s, s.dest
    ensures s.Valid() && s.dest == old(s.dest)
    ensures Wrote(old(s.Snap()), s.Snap(), ok, Some(FieldTag(f)))
  {
    var wt;
    match f.ltype {
      case LBool | LVarint | LUvarint | LSvarint => wt := WT_VARINT;
      case LFixed32 => wt := WT_32BIT;
      case LFixed64 => wt := WT_64BIT;
      case LBytes | LString | LSubmessage | LFixedBytes => wt := WT_STRING;
    }
    ok := EncodeTag(s, wt, f.tag);
  }

  /** pb_encode_string */
  method EncodeString(s: OStream, buffer: seq<byte>, size: nat) returns (ok: bool)
    requires s.Valid() && size <= |buffer|
    modifies s, s.dest
    ensures s.Valid() && s.dest == old(s.dest)
    ensures Wrote(old(s.Snap()), s.Snap(), ok, Some(EncString(buffer[..size])))
  {
    hide Wrote, EncVarint;
    ghost var a, data := s.Snap(), buffer[..size];
    ok := EncodeVarint(s, size % U64);
    ghost var b, prefix := s.Snap(), EncVarint(size % U64);
    Begin(a, b, ok, Some(prefix), Some(data));
    if !ok {
      return;
    }
    ok := s.Write(buffer, size, data);
    Finish(a, b, s.Snap(), ok, prefix, Some(data));
  }

  // ---- pb_check_proto3_default_value ----

  method CheckDefault(f: Field, c: Cell) returns (r: bool)
    requires WellFormedField(f) && CellShape(f, c)
    ensures r == IsDefault(f, c)
    decreases f, 0
  {
    if f.htype.Required? {
      return false;
    } else if f.htype.Repeated? {
      return f.sizeOffset != 0 && c.count == 0;
    } else if f.htype.Oneof? {
      return c.which == 0;
    } else if f.sizeOffset != 0 {
      return !c.has;
    }
    match f.ltype {
      case LBytes => r := c.v.data == [];
      case LString => r := c.v.buf[0] == 0;
      case LFixedBytes => r := f.dataSize == 0;
      case LSubmessage => r := CheckAllDefault(f.ptr.fields, c.v.cells);
      case LBool => r := !c.v.b;
      case LVarint | LUvarint | LSvarint | LFixed32 | LFixed64 => r := c.v.n == 0;
    }
  }

  lemma WellFormedAt(fields: seq<Field>, cells: seq<Cell>, i: nat)
    requires WellFormed(fields) && Shape(fields, cells) && i < |fields|
    ensures WellFormedField(fields[i]) && CellShape(fields[i], CellAt(cells, Slot(fields, i)))
    ensures UniqueTags(fields) && fields[i].tag < U32
  {
  }

  lemma TagsNonZero(fields: seq<Field>)
    requires WellFormed(fields)
    ensures forall i | 0 <= i < |fields| :: fields[i].tag != 0
  {
  }

  /** The loop over the fields of a submessage */
  method CheckAllDefault(fields: seq<Field>, cells: seq<Cell>) returns (r: bool)
    requires WellFormed(fields) && Shape(fields, cells)
    ensures r == AllDefault(fields, cells, 0)
    decreases fields, 1
  {
    hide WellFormed, Shape, WellFormedField, CellShape, IsDefault, Slot;
    TagsNonZero(fields);
    var iter := new FieldIter(fields, 0);
    if fields == [] {
      return true;
    }
    while true
      invariant iter.Valid() && iter.start == fields && fresh(iter)
      invariant AllDefault(fields, cells, 0) == AllDefault(fields, cells, iter.pos)
      decreases |fields| - iter.pos
    {
      WellFormedAt(fields, cells, iter.pos);
      var d := CheckDefault(iter.Current(), CellAt(cells, Slot(fields, iter.pos)));
      if !d {
        return false;
      }
      ghost var last := iter.pos;
      var more := iter.Next();
      if !more {
        assert AllDefault(fields, cells, last + 1);
        return true;
      }
    }
  }

  // ---- Field encoders ----

  /** strnlen, as pb_enc_string computes it */
  method StringLength(p: seq<byte>, maxSize: nat) returns (size: nat)
    requires |p| == maxSize
    ensures size == StrLen(p)
  {
    size := 0;
    while size < maxSize && p[size] != 0
      invariant size <= maxSize && StrLen(p) == size + StrLen(p[size..])
    {
      assert p[size..][1..] == p[size + 1..];
      size := size + 1;
    }
  }

  /** The encoder of field f: one of the pb_enc functions, by its ltype */
  method EncodeValue(s: OStream, f: Field, v: Value) returns (ok: bool)
    requires s.Valid() && WellFormedField(f) && ValueShape(f, v)
    modifies s, s.dest
    ensures s.Valid() && s.dest == old(s.dest)
    ensures Wrote(old(s.Snap()), s.Snap(), ok, EncValue(f, v))
    decreases f, 0
  {
    hide Wrote, EncVarint, EncString, EncFixed32, EncFixed64, Zigzag, WellFormed, Shape;
    match f.ltype {
      case LBool =>
        ok := EncodeVarint(s, if v.b then 1 else 0);
      case LVarint =>
        ok := EncodeVarint(s, v.n % U64);
      case LUvarint =>
        ok := EncodeVarint(s, v.n);
      case LSvarint =>
        ok := EncodeSvarint(s, v.n);
      case LFixed32 =>
        ok := EncodeFixed32(s, v.n);
      case LFixed64 =>
        ok := EncodeFixed64(s, v.n);
      case LBytes =>
        if |v.data| + BYTES_HEADER > f.dataSize {
          WroteNothing(s.Snap());
          return false;
        }
        assert v.data[..|v.data|] == v.data;
        ok := EncodeString(s, v.data, |v.data|);
      case LString =>
        var size := StringLength(v.buf, f.dataSize);
        ok := EncodeString(s, v.buf, size);
      case LFixedBytes =>
        assert v.data[..f.dataSize] == v.data;
        ok := EncodeString(s, v.data, f.dataSize);
      case LSubmessage =>
        ok := EncodeSubmessage(s, f.ptr.fields, v.cells);
    }
  }

  lemma SecondPass(a: Snapshot, b: Snapshot, a1: Snapshot, b1: Snapshot, ok: bool, m: seq<byte>)
    requires !a.sizing && a.written <= a.max && Limit(a) <= |a.mem| && a.written + |m| <= a.max
    requires a1 == Snapshot(false, a.mem, a.state, |m|, 0) && Wrote(a1, b1, ok, Some(m))
    requires b == Snapshot(false, b1.mem, b1.state, a.max, a.written + b1.written)
    ensures ok && b1.written == |m| && Wrote(a, b, true, Some(m))
    ensures b.written <= b.max && Limit(b) <= |b.mem|
  {
  }

  lemma DoesNotFit(a: Snapshot, m: seq<byte>)
    requires !a.sizing && a.written <= a.max < a.written + |m| && Limit(a) <= |a.mem|
    ensures Wrote(a, a, false, Some(m))
  {
  }

  /** pb_encode_submessage: once to measure, once to write */
  method EncodeSubmessage(s: OStream, fields: seq<Field>, cells: seq<Cell>) returns (ok: bool)
    requires s.Valid() && WellFormed(fields) && Shape(fields, cells)
    modifies s, s.dest
    ensures s.Valid() && s.dest == old(s.dest)
    ensures Wrote(old(s.Snap()), s.Snap(), ok, EncDelimited(fields, cells))
    decreases fields, 3
  {
    hide EncMessage, WellFormed, Shape, EncVarint, Wrote;
    ghost var a, r := s.Snap(), EncMessage(fields, cells);
    var substream := new OStream.Sizing();
    ghost var z := substream.Snap();
    ok := Encode(substream, fields, cells);
    Measured(z, substream.Snap(), ok, r);
    assert s.Snap() == a;
    if !ok {
      WroteNothing(a);
      return;
    }
    ghost var m := r.value;
    var size := substream.bytesWritten;
    ok := EncodeVarint(s, size % U64);
    ghost var b, prefix := s.Snap(), EncVarint(size % U64);
    Begin(a, b, ok, Some(prefix), Some(m));
    if !ok {
      return;
    }
    if s.dest == null {
      ok := s.Write([], size, m);
      Finish(a, b, s.Snap(), ok, prefix, Some(m));
      return;
    }
    if s.bytesWritten + size > s.maxSize {
      DoesNotFit(b, m);
      Finish(a, b, b, false, prefix, Some(m));
      return false;
    }
    substream.dest, substream.state := s.dest, s.state;
    substream.maxSize, substream.bytesWritten := size, 0;
    ghost var a1 := substream.Snap();
    var status := Encode(substream, fields, cells);
    s.bytesWritten := s.bytesWritten + substream.bytesWritten;
    s.state := substream.state;
    ghost var b1 := substream.Snap();
    SameStream(a1, b1, status, r);
    SecondPass(b, s.Snap(), a1, b1, status, m);
    Finish(a, b, s.Snap(), true, prefix, Some(m));
    ok := status && substream.bytesWritten == size;
  }

  lemma SameStream(a: Snapshot, b: Snapshot, ok: bool, r: Option<seq<byte>>)
    requires Wrote(a, b, ok, r)
    ensures b.sizing == a.sizing && b.max == a.max
  {
  }

  /** What is left of an encoding that is given up after some bytes */
  lemma Abandon(a: Snapshot, b: Snapshot, p: seq<byte>)
    requires Wrote(a, b, true, Some(p)) && (!a.sizing ==> a.written <= a.max)
    ensures Wrote(a, b, false, None)
  {
  }

  lemma ItemsSplit(f: Field, values: seq<Value>, i: nat)
    requires i < |values|
    ensures EncItems(f, values[i..]) == Cat(EncValue(f, values[i]), EncItems(f, values[i + 1..]))
    ensures EncTagged(f, values[i..]) ==
      Cat(Cat(Some(FieldTag(f)), EncValue(f, values[i])), EncTagged(f, values[i + 1..]))
  {
    hide EncValue, FieldTag;
    assert values[i..][1..] == values[i + 1..];
  }

  lemma ItemsEnd(f: Field, values: seq<Value>)
    ensures values[|values|..] == [] && EncItems(f, []) == Some([]) && EncTagged(f, []) == Some([])
    ensures values[0..] == values
  {
  }

  lemma CatNothing(r: Option<seq<byte>>)
    ensures Cat(Some([]), r) == r && Cat(r, Some([])) == r
  {
    if r.Some? {
      assert [] + r.value == r.value && r.value + [] == r.value;
    }
  }

  /** The loop over the values of a packed array, to measure or to write them */
  method EncodeItems(s: OStream, f: Field, values: seq<Value>) returns (ok: bool)
    requires s.Valid() && WellFormedField(f) && forall k | 0 <= k < |values| :: ValueShape(f, values[k])
    modifies s, s.dest
    ensures s.Valid() && s.dest == old(s.dest)
    ensures Wrote(old(s.Snap()), s.Snap(), ok, EncItems(f, values))
    decreases f, 2
  {
    hide Wrote, WellFormedField, ValueShape, EncItems, EncTagged, EncValue, Cat;
    ghost var a, p := s.Snap(), [];
    WroteNothing(a);
    ItemsEnd(f, values);
    CatNothing(EncItems(f, values));
    for i := 0 to |values|
      invariant s.Valid() && s.dest == old(s.dest)
      invariant Wrote(a, s.Snap(), true, Some(p))
      invariant EncItems(f, values) == Cat(Some(p), EncItems(f, values[i..]))
    {
      ghost var b, r := s.Snap(), EncValue(f, values[i]);
      ok := EncodeValue(s, f, values[i]);
      ItemsSplit(f, values, i);
      Proceed(a, b, s.Snap(), ok, p, r, EncItems(f, values[i + 1..]), EncItems(f, values));
      if !ok {
        return;
      }
      p := p + r.value;
    }
    CatNothing(Some(p));
    ok := true;
  }

  /** The loop over the values of an array that is not packed */
  method EncodeTagged(s: OStream, f: Field, values: seq<Value>) returns (ok: bool)
    requires s.Valid() && f.tag < U32
    requires WellFormedField(f) && forall k | 0 <= k < |values| :: ValueShape(f, values[k])
    modifies s, s.dest
    ensures s.Valid() && s.dest == old(s.dest)
    ensures Wrote(old(s.Snap()), s.Snap(), ok, EncTagged(f, values))
    decreases f, 2
  {
    hide Wrote, WellFormedField, ValueShape, EncItems, EncTagged, EncValue, Cat, FieldTag;
    ghost var a, p := s.Snap(), [];
    WroteNothing(a);
    ItemsEnd(f, values);
    CatNothing(EncTagged(f, values));
    for i := 0 to |values|
      invariant s.Valid() && s.dest == old(s.dest)
      invariant Wrote(a, s.Snap(), true, Some(p))
      invariant EncTagged(f, values) == Cat(Some(p), EncTagged(f, values[i..]))
    {
      ghost var b, r := s.Snap(), Cat(Some(FieldTag(f)), EncValue(f, values[i]));
      ok := EncodeTagAndValue(s, f, values[i]);
      ItemsSplit(f, values, i);
      Proceed(a, b, s.Snap(), ok, p, r, EncTagged(f, values[i + 1..]), EncTagged(f, values));
      if !ok {
        return;
      }
      p := p + r.value;
    }
    CatNothing(Some(p));
    ok := true;
  }

  method EncodeTagAndValue(s: OStream, f: Field, v: Value) returns (ok: bool)
    requires s.Valid() && WellFormedField(f) && ValueShape(f, v) && f.tag < U32
    modifies s, s.dest
    ensures s.Valid() && s.dest == old(s.dest)
    ensures Wrote(old(s.Snap()), s.Snap(), ok, EncSingle(f, v))
    decreases f, 1
  {
    hide Wrote, WellFormedField, ValueShape, EncValue, Cat, FieldTag;
    ghost var a := s.Snap();
    ok := EncodeTagForField(s, f);
    ghost var b := s.Snap();
    Begin(a, b, ok, Some(FieldTag(f)), EncValue(f, v));
    if !ok {
      return;
    }
    ok := EncodeValue(s, f, v);
    Finish(a, b, s.Snap(), ok, FieldTag(f), EncValue(f, v));
  }

  lemma {:induction false} FixedSizes(f: Field, values: seq<Value>)
    requires f.ltype.LFixed32? || f.ltype.LFixed64?
    ensures EncItems(f, values).Some?
    ensures |EncItems(f, values).value| == (if f.ltype.LFixed32? then 4 else 8) * |values|
    decreases |values|
  {
    if values != [] {
      FixedSizes(f, values[1..]);
    }
  }

  /** The packed form: tag, length and values; fixed-size values are not measured one by one. */
  method EncodePacked(s: OStream, f: Field, values: seq<Value>) returns (ok: bool)
    requires s.Valid() && f.tag < U32
    requires WellFormedField(f) && forall k | 0 <= k < |values| :: ValueShape(f, values[k])
    modifies s, s.dest
    ensures s.Valid() && s.dest == old(s.dest)
    ensures Wrote(old(s.Snap()), s.Snap(), ok, EncPacked(f, values))
    decreases f, 3
  {
    hide Wrote, WellFormedField, ValueShape, EncItems, EncVarint, EncTag;
    ghost var a, tag, data := s.Snap(), EncTag(WT_STRING, f.tag), EncItems(f, values);
    ok := EncodeTag(s, WT_STRING, f.tag);
    ghost var b := s.Snap();
    Begin(a, b, ok, Some(tag), Prefixed(data));
    if !ok {
      return;
    }
    var size;
    if f.ltype.LFixed32? {
      size := 4 * |values|;
      FixedSizes(f, values);
    } else if f.ltype.LFixed64? {
      size := 8 * |values|;
      FixedSizes(f, values);
    } else {
      var sizestream := new OStream.Sizing();
      ghost var z := sizestream.Snap();
      ok := EncodeItems(sizestream, f, values);
      Measured(z, sizestream.Snap(), ok, data);
      assert s.Snap() == b;
      if !ok {
        Abandon(a, b, tag);
        return;
      }
      size := sizestream.bytesWritten;
    }
    assert data.Some? && size == |data.value|;
    ok := EncodeVarint(s, size % U64);
    ghost var c, prefix := s.Snap(), EncVarint(size % U64);
    PackedParts(tag, prefix, data.value);
    Proceed(a, b, c, ok, tag, Some(prefix), data, EncPacked(f, values));
    if !ok {
      return;
    }
    if s.dest == null {
      ok := s.Write([], size, data.value);
    } else {
      ok := EncodeItems(s, f, values);
    }
    Finish(a, c, s.Snap(), ok, tag + prefix, data);
  }

  lemma Measured(a: Snapshot, b: Snapshot, ok: bool, r: Option<seq<byte>>)
    requires a.sizing && a.written == 0 && Wrote(a, b, ok, r)
    ensures ok == r.Some? && (ok ==> b.written == |r.value|)
  {
  }

  lemma PackedParts(tag: seq<byte>, prefix: seq<byte>, data: seq<byte>)
    ensures tag + (prefix + data) == tag + prefix + data
  {
  }

  /** encode_array */
  method EncodeArray(s: OStream, f: Field, items: seq<Value>, count: nat) returns (ok: bool)
    requires s.Valid() && f.tag < U32 && |items| == f.arraySize
    requires WellFormedField(f) && forall k | 0 <= k < |items| :: ValueShape(f, items[k])
    modifies s, s.dest
    ensures s.Valid() && s.dest == old(s.dest)
    ensures Wrote(old(s.Snap()), s.Snap(), ok, EncArray(f, items, count))
    decreases f, 4
  {
    hide Wrote, WellFormedField, ValueShape, EncPacked, EncTagged;
    WroteNothing(s.Snap());
    if count == 0 {
      return true;
    }
    if count > f.arraySize {
      return false;
    }
    if f.Packable() {
      ok := EncodePacked(s, f, items[..count]);
    } else {
      ok := EncodeTagged(s, f, items[..count]);
    }
  }

  /** encode_basic_field */
  method EncodeField(s: OStream, f: Field, c: Cell) returns (ok: bool)
    requires s.Valid() && f.tag < U32 && WellFormedField(f) && CellShape(f, c)
    modifies s, s.dest
    ensures s.Valid() && s.dest == old(s.dest)
    ensures Wrote(old(s.Snap()), s.Snap(), ok, EncField(f, c))
    decreases f, 5
  {
    hide Wrote, ValueShape, EncSingle, EncArray, IsDefault;
    WroteNothing(s.Snap());
    match f.htype {
      case Required =>
        ok := EncodeTagAndValue(s, f, c.v);
      case Optional =>
        var has;
        if f.sizeOffset != 0 {
          has := c.has;
        } else {
          var unset := CheckDefault(f, c);
          has := !unset;
        }
        if has {
          ok := EncodeTagAndValue(s, f, c.v);
        } else {
          ok := true;
        }
      case Repeated =>
        var count := if f.sizeOffset != 0 then c.count else f.arraySize;
        ok := EncodeArray(s, f, c.items, count);
      case Oneof =>
        if c.which == f.tag {
          ok := EncodeTagAndValue(s, f, c.v);
        } else {
          ok := true;
        }
    }
  }

  lemma FieldsSplit(fields: seq<Field>, cells: seq<Cell>, i: nat)
    ensures EncFields(fields, cells, i) ==
      if i < |fields| then Cat(EncField(fields[i], CellAt(cells, Slot(fields, i))), EncFields(fields, cells, i + 1))
      else Some([])
  {
    hide EncField, Cat, Slot;
  }

  /** pb_encode */
  method Encode(s: OStream, fields: seq<Field>, cells: seq<Cell>) returns (ok: bool)
    requires s.Valid() && WellFormed(fields) && Shape(fields, cells)
    modifies s, s.dest
    ensures s.Valid() && s.dest == old(s.dest)
    ensures Wrote(old(s.Snap()), s.Snap(), ok, EncMessage(fields, cells))
    decreases fields, 2
  {
    hide Wrote, WellFormed, WellFormedField, Shape, CellShape, EncFields, EncField, Cat, Slot, Lookup;
    ghost var a, p := s.Snap(), [];
    WroteNothing(a);
    TagsNonZero(fields);
    var iter := new FieldIter(fields, 0);
    FieldsSplit(fields, cells, 0);
    CatNothing(EncFields(fields, cells, 0));
    if fields == [] {
      return true;
    }
    while true
      invariant iter.Valid() && iter.start == fields && fresh(iter)
      invariant s.Valid() && s.dest == old(s.dest)
      invariant Wrote(a, s.Snap(), true, Some(p))
      invariant EncFields(fields, cells, 0) == Cat(Some(p), EncFields(fields, cells, iter.pos))
      decreases |fields| - iter.pos
    {
      ghost var i, b := iter.pos, s.Snap();
      WellFormedAt(fields, cells, i);
      var c := CellAt(cells, Slot(fields, iter.pos));
      ok := EncodeField(s, iter.Current(), c);
      FieldsSplit(fields, cells, i);
      ghost var r := EncField(fields[i], c);
      Proceed(a, b, s.Snap(), ok, p, r, EncFields(fields, cells, i + 1), EncFields(fields, cells, 0));
      if !ok {
        return;
      }
      p := p + r.value;
      var more := iter.Next();
      if !more {
        FieldsSplit(fields, cells, i + 1);
        CatNothing(Some(p));
        return true;
      }
    }
  }

  /** pb_encode_delimited */
  method EncodeDelimited(s: OStream, fields: seq<Field>, cells: seq<Cell>) returns (ok: bool)
    requires s.Valid() && WellFormed(fields) && Shape(fields, cells)
    modifies s, s.dest
    ensures s.Valid() && s.dest == old(s.dest)
    ensures Wrote(old(s.Snap()), s.Snap(), ok, EncDelimited(fields, cells))
  {
    ok := EncodeSubmessage(s, fields, cells);
  }

  /** pb_encode_nullterminated */
  method EncodeNullTerminated(s: OStream, fields: seq<Field>, cells: seq<Cell>) returns (ok: bool)
    requires s.Valid() && WellFormed(fields) && Shape(fields, cells)
    modifies s, s.dest
    ensures s.Valid() && s.dest == old(s.dest)
    ensures Wrote(old(s.Snap()), s.Snap(), ok, EncNullTerminated(fields, cells))
  {
    hide Wrote, EncMessage, Cat;
    ghost var a, m := s.Snap(), EncMessage(fields, cells);
    ok := Encode(s, fields, cells);
    ghost var b := s.Snap();
    Begin(a, b, ok, m, Some([0]));
    if !ok {
      return;
    }
    ok := s.Write([0], 1, [0]);
    Finish(a, b, s.Snap(), ok, m.value, Some([0]));
  }

  /** pb_get_encoded_size */
  method GetEncodedSize(fields: seq<Field>, cells: seq<Cell>) returns (ok: bool, size: nat)
    requires WellFormed(fields) && Shape(fields, cells)
    ensures ok == EncMessage(fields, cells).Some?
    ensures ok ==> size == |EncMessage(fields, cells).value|
  {
    hide WellFormed, Shape, EncMessage;
    var stream := new OStream.Sizing();
    ok := Encode(stream, fields, cells);
    size := if ok then stream.bytesWritten else 0;
  }

  /**
    Exact success condition: pb_get_encoded_size, pb_ostream_from_buffer and pb_encode in turn.
    Encoding into n bytes succeeds if and only if sizing succeeds with at most n; then exactly the
    first size bytes are written. No byte at or past n ever changes.
   */
  method EncodeToBuffer(fields: seq<Field>, cells: seq<Cell>, buf: array<byte>, n: nat)
    returns (sized: bool, size: nat, ok: bool, written: nat)
    requires WellFormed(fields) && Shape(fields, cells) && n <= buf.Length
    modifies buf
    ensures sized == EncMessage(fields, cells).Some? && (sized ==> size == |EncMessage(fields, cells).value|)
    ensures ok <==> sized && size <= n
    ensures ok ==> sized && written == size && buf[..] == EncMessage(fields, cells).value + old(buf[size..])
    ensures buf[n..] == old(buf[n..])
  {
    hide WellFormed, Shape, EncMessage;
    sized, size := GetEncodedSize(fields, cells);
    var stream := new OStream.FromBuffer(buf, n);
    ghost var a := stream.Snap();
    ok := Encode(stream, fields, cells);
    written := stream.bytesWritten;
    ghost var b := stream.Snap();
    assert a.mem == old(buf[..]) && b.mem == buf[..];
    FromStart(a, b, ok, EncMessage(fields, cells));
    if ok {
      assert old(buf[..])[size..] == old(buf[size..]);
    }
    assert a.mem[n..] == old(buf[n..]) && b.mem[n..] == buf[n..];
  }

  lemma FromStart(a: Snapshot, b: Snapshot, ok: bool, r: Option<seq<byte>>)
    requires !a.sizing && a.written == 0 && a.state == 0 && a.max <= |a.mem| && Wrote(a, b, ok, r)
    ensures |b.mem| == |a.mem| && b.mem[a.max..] == a.mem[a.max..]
    ensures ok <==> r.Some? && |r.value| <= a.max
    ensures ok ==> b.written == |r.value| && b.mem == r.value + a.mem[b.written..]
  {
    if ok {
      assert b.mem == b.mem[..b.state] + b.mem[b.state..];
      assert b.mem[b.state..] == a.mem[b.state..];
    }
  }
}
