/**
  The wire format in numerals: fixed words, tags, payloads and blocks. Encoder and decoder are both
  held against it, so that they cannot agree on a format of their own.
 */
module WireFormat {
  import opened Words
  import opened Wire
  import opened WireProperties
  import opened Varints
  import opened Descriptors
  import opened EncoderSpec
  import opened DecoderSpec

  // ---- Fixed words ----

  /** The number that bytes stand for, the lowest first */
  function LittleEndian(w: seq<byte>): nat {
    if w == [] then 0 else w[0] + 256 * LittleEndian(w[1..])
  }

  lemma FourBytes(w: seq<byte>)
    requires |w| == 4
    ensures LittleEndian(w) == Word32(w[0], w[1], w[2], w[3])
  {
    var b: nat, c: nat, d: nat := w[1], w[2], w[3];
    assert w[1..][1..] == w[2..] && w[2..][1..] == w[3..] && w[3..][1..] == [];
    assert LittleEndian(w[3..]) == d;
    assert LittleEndian(w[2..]) == c + 256 * d;
    assert LittleEndian(w[1..]) == b + 256 * (c + 256 * d);
  }

  lemma EightBytes(w: seq<byte>)
    requires |w| == 8
    ensures LittleEndian(w) == LittleEndian(w[..4]) + 0x1_0000_0000 * LittleEndian(w[4..])
  {
    FourBytes(w[..4]);
    assert w[1..][1..] == w[2..] && w[2..][1..] == w[3..] && w[3..][1..] == w[4..];
    var h := LittleEndian(w[4..]);
    assert LittleEndian(w[3..]) == w[3] + 256 * h;
    assert LittleEndian(w[2..]) == w[2] + 256 * (w[3] + 256 * h);
    assert LittleEndian(w[1..]) == w[1] + 256 * (w[2] + 256 * (w[3] + 256 * h));
  }

  /** The fixed-size encoders and decoders go by that number. */
  lemma FixedFormat(n: nat, bs: seq<byte>)
    ensures n < 0x1_0000_0000 ==> |EncFixed32(n)| == 4 && LittleEndian(EncFixed32(n)) == n
    ensures n < 0x1_0000_0000_0000_0000 ==> |EncFixed64(n)| == 8 && LittleEndian(EncFixed64(n)) == n
    ensures DecFixed32(bs) == if |bs| >= 4 then Ok(LittleEndian(bs[..4]), bs[4..]) else Bad
    ensures DecFixed64(bs) == if |bs| >= 8 then Ok(LittleEndian(bs[..8]), bs[8..]) else Bad
  {
    hide LittleEndian;
    if n < U32 {
      Bytes32(n);
      FourBytes(EncFixed32(n));
    }
    if n < U64 {
      var low, high := EncFixed32(n % U32), EncFixed32(n / U32);
      Bytes32(n % U32);
      Bytes32(n / U32);
      FourBytes(low);
      FourBytes(high);
      EightBytes(EncFixed64(n));
      assert EncFixed64(n)[..4] == low && EncFixed64(n)[4..] == high;
    }
    if |bs| >= 4 {
      FourBytes(bs[..4]);
    }
    if |bs| >= 8 {
      FourBytes(bs[4..8]);
      EightBytes(bs[..8]);
      assert bs[..8][..4] == bs[..4] && bs[..8][4..] == bs[4..8];
    }
  }

  // ---- Tags and payloads ----

  /** A tag is the varint of 8 times the field number plus 0, 1, 2 or 5, by the type of the field. */
  lemma TagFormat(f: Field)
    ensures var v := VarintValue(FieldTag(f));
      && IsVarint(FieldTag(f))
      && (f.ltype in {LBool, LVarint, LUvarint, LSvarint} ==> v == 8 * f.tag)
      && (f.ltype == LFixed64 ==> v == 8 * f.tag + 1)
      && (f.ltype in {LBytes, LString, LSubmessage, LFixedBytes} ==> v == 8 * f.tag + 2)
      && (f.ltype == LFixed32 ==> v == 8 * f.tag + 5)
  {
    hide EncVarint, IsVarint, VarintValue;
    EncodesVarint(8 * f.tag + WireType(f.ltype));
  }

  /** A length-prefixed block: the varint of the length, and the bytes */
  predicate IsBlock(w: seq<byte>, data: seq<byte>) {
    exists n :: 0 <= n <= |w| && IsVarint(w[..n]) && VarintValue(w[..n]) == |data| && w[n..] == data
  }

  /** The size_t length is cast to 64 bits. */
  lemma BlockFormat(data: seq<byte>)
    ensures |data| < 0x1_0000_0000_0000_0000 ==> IsBlock(EncString(data), data)
  {
    hide EncVarint, IsVarint, VarintValue;
    if |data| < U64 {
      var prefix := EncVarint(|data|);
      EncodesVarint(|data|);
      Remainder64(|data|, 0);
      var w := EncString(data);
      assert w == prefix + data;
      assert w[..|prefix|] == prefix && w[|prefix|..] == data;
    }
  }

  /** The payload is a block of these data. */
  predicate Blocked(payload: Option<seq<byte>>, data: seq<byte>) {
    |data| < 0x1_0000_0000_0000_0000 ==> payload.Some? && IsBlock(payload.value, data)
  }

  /** A number as a varint: negative ones as 64-bit two's complement, or zigzag */
  lemma NumberFormat(f: Field, n: int)
    requires f.dataSize in {1, 2, 4, 8} && -0x8000_0000_0000_0000 <= n < 0x1_0000_0000_0000_0000
    ensures f.ltype == LVarint ==>
      var r := EncValue(f, VNum(n));
      r.Some? && IsVarint(r.value) && VarintValue(r.value) == if n < 0 then n + 0x1_0000_0000_0000_0000 else n
    ensures f.ltype == LUvarint && n >= 0 ==>
      var r := EncValue(f, VNum(n)); r.Some? && IsVarint(r.value) && VarintValue(r.value) == n
    ensures f.ltype == LSvarint && n < 0x8000_0000_0000_0000 ==>
      var r := EncValue(f, VNum(n));
      r.Some? && IsVarint(r.value) && VarintValue(r.value) == if n < 0 then -2 * n - 1 else 2 * n
  {
    hide EncVarint, IsVarint, VarintValue, Zigzag;
    if f.ltype == LVarint {
      EncodesVarint(n % U64);
      TwosComplement(n);
    } else if f.ltype == LUvarint && n >= 0 {
      EncodesVarint(n);
    } else if f.ltype == LSvarint && n < 0x8000_0000_0000_0000 {
      ZigzagValue(n, 0);
      EncodesVarint(Zigzag(n));
    }
  }

  lemma TwosComplement(n: int)
    requires -0x8000_0000_0000_0000 <= n < 0x1_0000_0000_0000_0000
    ensures n % U64 == if n < 0 then n + 0x1_0000_0000_0000_0000 else n
  {
    if n < 0 {
      assert (n + U64) % U64 == n + U64;
    }
  }

  /** The payloads of the other types */
  lemma PayloadFormat(f: Field, v: Value)
    ensures f.ltype == LBool && v.VBool? ==> EncValue(f, v) == Some([if v.b then 1 else 0])
    ensures f.ltype == LFixed32 && v.VNum? && 0 <= v.n < 0x1_0000_0000 ==>
      var r := EncValue(f, v); r.Some? && |r.value| == 4 && LittleEndian(r.value) == v.n
    ensures f.ltype == LFixed64 && v.VNum? && 0 <= v.n < 0x1_0000_0000_0000_0000 ==>
      var r := EncValue(f, v); r.Some? && |r.value| == 8 && LittleEndian(r.value) == v.n
    ensures f.ltype == LBytes && v.VBytes? && EncValue(f, v).Some? ==> Blocked(EncValue(f, v), v.data)
    ensures f.ltype == LFixedBytes && v.VFixed? ==> Blocked(EncValue(f, v), v.data)
    ensures f.ltype == LString && v.VString? ==> Blocked(EncValue(f, v), v.buf[..StrLen(v.buf)])
    ensures f.ltype == LSubmessage && v.VMsg? && f.ptr.Sub? ==>
      var m := EncMessage(f.ptr.fields, v.cells);
      if m.Some? then Blocked(EncValue(f, v), m.value) else EncValue(f, v).None?
  {
    hide IsBlock, EncString, LittleEndian, EncFixed32, EncFixed64, EncFields;
    FixedFormat(NatOf(v), []);
    BlockFormat(BytesOf(v));
    BlockFormat(BytesOf(v)[..StrLen(BytesOf(v))]);
    if f.ptr.Sub? && EncMessage(f.ptr.fields, CellsOf(v)).Some? {
      BlockFormat(EncMessage(f.ptr.fields, CellsOf(v)).value);
    }
  }

  /** The first n bytes are the tag with 2 in its low bits; the others are a block. */
  predicate IsTaggedBlock(w: seq<byte>, n: nat, tag: nat, data: seq<byte>) {
    n <= |w| && IsVarint(w[..n]) && VarintValue(w[..n]) == 8 * tag + 2 && IsBlock(w[n..], data)
  }

  predicate TaggedBlock(payload: Option<seq<byte>>, tag: nat, data: seq<byte>) {
    |data| < 0x1_0000_0000_0000_0000 ==>
      payload.Some? && exists n | 0 <= n <= |payload.value| :: IsTaggedBlock(payload.value, n, tag, data)
  }

  /**
    Arrays of numbers and bools are one block, under the tag with 2; all others have one tag for
    each element.
   */
  lemma ArrayFormat(f: Field, items: seq<Value>, count: nat)
    requires 0 < count <= f.arraySize && count <= |items|
    ensures f.ltype in {LBool, LVarint, LUvarint, LSvarint, LFixed32, LFixed64} ==>
      var data := EncItems(f, items[..count]);
      if data.Some? then TaggedBlock(EncArray(f, items, count), f.tag, data.value)
      else EncArray(f, items, count).None?
    ensures f.ltype in {LBytes, LString, LSubmessage, LFixedBytes} ==>
      EncArray(f, items, count) == EncTagged(f, items[..count])
  {
    hide EncItems, EncTagged, IsBlock, EncString, EncVarint, IsVarint, VarintValue;
    var tag := EncVarint(8 * f.tag + WT_STRING);
    EncodesVarint(8 * f.tag + WT_STRING);
    if f.Packable() && EncItems(f, items[..count]).Some? {
      var data := EncItems(f, items[..count]).value;
      BlockFormat(data);
      assert EncPacked(f, items[..count]) == Some(tag + EncString(data));
      var w := tag + EncString(data);
      assert w[..|tag|] == tag && w[|tag|..] == EncString(data);
      if |data| < U64 {
        assert IsTaggedBlock(w, |tag|, f.tag, data);
      }
    }
  }

  /** Skipping by number: 0 drops a varint, 1 eight bytes, 2 a block, 5 four bytes; others are refused. */
  lemma SkipFormat(w: seq<byte>, bs: seq<byte>, wt: nat)
    requires IsVarint(w)
    ensures SkipField(0, w + bs) == Ok((), bs)
    ensures SkipField(1, bs) == if |bs| >= 8 then Ok((), bs[8..]) else Bad
    ensures SkipField(2, bs) == (var r := DecString(bs); if r.Ok? then Ok((), r.rest) else Bad)
    ensures SkipField(5, bs) == if |bs| >= 4 then Ok((), bs[4..]) else Bad
    ensures wt !in {0, 1, 2, 5} ==> SkipField(wt, bs).Bad?
  {
    hide DecString, SkipVarint, IsVarint;
    SkipsVarint(w, bs);
  }

  lemma {:induction false} SkipsVarint(w: seq<byte>, y: seq<byte>)
    requires IsVarint(w)
    ensures SkipVarint(w + y) == Ok((), y)
    decreases |w|
  {
    hide IsVarint;
    VarintTail(w, y);
    if |w| > 1 {
      SkipsVarint(w[1..], y);
    } else {
      assert [] + y == y;
    }
  }

  /** pb_decode_tag takes a varint apart: the lowest three bits are the wire type. */
  lemma TagDecoded(w: seq<byte>, y: seq<byte>)
    requires IsVarint(w) && |w| <= 10
    ensures var v := VarintValue(w) % 0x1_0000_0000;
      DecTag(w + y) ==
        if !Accepted32(w, 4) then TagError else if v == 0 then End(y) else Tag(v % 8, v / 8, y)
  {
    hide IsVarint, DecVarint32, VarintValue, Accepted32;
    VarintTail(w, y);
    DecodesVarint32(w, y);
  }

  /** A length the decoder understands: it takes the low 32 bits of the varint. */
  predicate IsLength(w: seq<byte>, n: nat) {
    IsVarint(w) && |w| <= 10 && Accepted32(w, 4) && VarintValue(w) % 0x1_0000_0000 == n
  }

  /** A block is read by its length; a bool is true for every number but zero. */
  lemma BlockDecoded(w: seq<byte>, data: seq<byte>, y: seq<byte>)
    requires IsLength(w, |data|)
    ensures DecString(w + (data + y)) == Ok(data, y)
  {
    hide IsVarint, DecVarint32, VarintValue;
    DecodesVarint32(w, data + y);
    assert (data + y)[..|data|] == data && (data + y)[|data|..] == y;
  }

  lemma BoolDecoded(f: Field, w: seq<byte>, y: seq<byte>, prior: Value)
    requires f.ltype == LBool && IsVarint(w) && |w| <= 10 && Accepted32(w, 4)
    ensures DecValue(f, w + y, prior) == Ok(VBool(VarintValue(w) % 0x1_0000_0000 != 0), y)
  {
    hide IsVarint, DecVarint32, VarintValue, Accepted32;
    DecodesVarint32(w, y);
  }
}
