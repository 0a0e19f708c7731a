/**
  Which values fields of each size accept, in numerals: integers of 1, 2, 4 and 8 bytes, byte arrays
  and char arrays.
 */
module FieldRanges {
  import opened Words
  import opened Wire
  import opened WireProperties
  import opened Varints
  import opened WireFormat
  import opened Descriptors
  import opened EncoderSpec
  import opened DecoderSpec

  // ---- Integer fields by width ----

  /** Unsigned fields of 1, 2, 4 and 8 bytes accept exactly the values below 2^8, 2^16, 2^32 and 2^64. */
  lemma UnsignedWidths(bs: seq<byte>)
    requires DecVarint(bs).Ok?
    ensures var Ok(v, rest) := DecVarint(bs);
      && DecUnsignedField(1, bs) == (if v < 0x100 then Ok(v, rest) else Bad)
      && DecUnsignedField(2, bs) == (if v < 0x1_0000 then Ok(v, rest) else Bad)
      && DecUnsignedField(4, bs) == (if v < 0x1_0000_0000 then Ok(v, rest) else Bad)
      && DecUnsignedField(8, bs) == Ok(v, rest) && v < 0x1_0000_0000_0000_0000
  {
    hide DecVarint;
    DecodedBelow(bs);
    IntegerFieldsExact(1, bs);
    IntegerFieldsExact(2, bs);
    IntegerFieldsExact(4, bs);
    IntegerFieldsExact(8, bs);
  }

  lemma DecodedBelow(bs: seq<byte>)
    requires DecVarint(bs).Ok?
    ensures DecVarint(bs).val < 0x1_0000_0000_0000_0000
  {
    DecVarintBound(bs, 0, 0);
  }

  /** Zigzag fields: the value is judged by the range of the field. */
  lemma ZigzagWidths(bs: seq<byte>)
    requires DecVarint(bs).Ok?
    ensures var Ok(v, rest) := DecVarint(bs);
      var i := if v % 2 == 1 then -(v / 2) - 1 else v / 2;
      && DecZigzagField(1, bs) == (if -0x80 <= i <= 0x7F then Ok(i, rest) else Bad)
      && DecZigzagField(2, bs) == (if -0x8000 <= i <= 0x7FFF then Ok(i, rest) else Bad)
      && DecZigzagField(4, bs) == (if -0x8000_0000 <= i <= 0x7FFF_FFFF then Ok(i, rest) else Bad)
      && DecZigzagField(8, bs) == Ok(i, rest) && -0x8000_0000_0000_0000 <= i <= 0x7FFF_FFFF_FFFF_FFFF
  {
    hide DecVarint, Unzigzag;
    DecodedBelow(bs);
    ZigzagValue(0, DecVarint(bs).val);
    IntegerFieldsExact(1, bs);
    IntegerFieldsExact(2, bs);
    IntegerFieldsExact(4, bs);
    IntegerFieldsExact(8, bs);
  }

  /** Signed fields up to 32 bits judge the low 32 bits, as two's complement. */
  lemma SignedWidths(bs: seq<byte>)
    requires DecVarint(bs).Ok?
    ensures var Ok(v, rest) := DecVarint(bs);
      var low := v % 0x1_0000_0000;
      var i := if low < 0x8000_0000 then low else low - 0x1_0000_0000;
      var l := if v < 0x8000_0000_0000_0000 then v else v - 0x1_0000_0000_0000_0000;
      && DecSignedField(1, bs) == (if -0x80 <= i <= 0x7F then Ok(i, rest) else Bad)
      && DecSignedField(2, bs) == (if -0x8000 <= i <= 0x7FFF then Ok(i, rest) else Bad)
      && DecSignedField(4, bs) == Ok(i, rest)
      && DecSignedField(8, bs) == Ok(l, rest)
  {
    hide DecVarint;
    DecodedBelow(bs);
    var v := DecVarint(bs).val;
    Remainder64(v, 0);
    IntegerFieldsExact(1, bs);
    IntegerFieldsExact(2, bs);
    IntegerFieldsExact(4, bs);
    IntegerFieldsExact(8, bs);
  }

  /** Integers of any other width are invalid, for the decoder and for the encoder. */
  lemma OtherWidths(f: Field, bs: seq<byte>, v: Value)
    requires f.dataSize !in {1, 2, 4, 8}
    ensures DecSignedField(f.dataSize, bs).Bad?
    ensures DecUnsignedField(f.dataSize, bs).Bad?
    ensures DecZigzagField(f.dataSize, bs).Bad?
    ensures f.ltype in {LVarint, LUvarint, LSvarint} ==> EncValue(f, v).None?
  {
  }

  /** Every value of each width comes back from what the encoder sends for it. */
  lemma WidthsRoundTrip(i: int, y: seq<byte>)
    ensures 0 <= i < 0x100 ==> DecUnsignedField(1, EncVarint(i) + y) == Ok(i, y)
    ensures 0 <= i < 0x1_0000 ==> DecUnsignedField(2, EncVarint(i) + y) == Ok(i, y)
    ensures 0 <= i < 0x1_0000_0000 ==> DecUnsignedField(4, EncVarint(i) + y) == Ok(i, y)
    ensures 0 <= i < 0x1_0000_0000_0000_0000 ==> DecUnsignedField(8, EncVarint(i) + y) == Ok(i, y)
    ensures -0x80 <= i <= 0x7F ==> BothSigned(1, i, y)
    ensures -0x8000 <= i <= 0x7FFF ==> BothSigned(2, i, y)
    ensures -0x8000_0000 <= i <= 0x7FFF_FFFF ==> BothSigned(4, i, y)
    ensures -0x8000_0000_0000_0000 <= i <= 0x7FFF_FFFF_FFFF_FFFF ==> BothSigned(8, i, y)
  {
    hide EncVarint, DecUnsignedField, DecSignedField, DecZigzagField, Zigzag;
    IntegerFieldsRoundTrip(1, i, y);
    IntegerFieldsRoundTrip(2, i, y);
    IntegerFieldsRoundTrip(4, i, y);
    IntegerFieldsRoundTrip(8, i, y);
  }

  /** A signed value comes back from its varint and from its zigzag form. */
  predicate BothSigned(size: nat, i: int, y: seq<byte>) {
    && DecSignedField(size, EncVarint(i % U64) + y) == Ok(i, y)
    && DecZigzagField(size, EncVarint(Zigzag(i)) + y) == Ok(i, y)
  }

  // ---- Byte arrays ----

  /** The size member takes 1, 2 or 4 bytes of the storage of a byte array; the data must fit the rest. */
  lemma BytesFit(f: Field, data: seq<byte>, w: seq<byte>, y: seq<byte>)
    requires f.ltype == LBytes && IsLength(w, |data|)
    requires f.dataSize <= PB_SIZE_MAX
    ensures var header := if PB_SIZE_MAX == 0xFF then 1 else if PB_SIZE_MAX == 0xFFFF then 2 else 4;
      && DecBytes(f, w + (data + y)) == (if |data| + header <= f.dataSize then Ok(VBytes(data), y) else Bad)
      && (EncValue(f, VBytes(data)).Some? <==> |data| + header <= f.dataSize)
  {
    hide IsVarint, DecVarint32, VarintValue, EncString;
    DecodesVarint32(w, data + y);
    assert (data + y)[..|data|] == data && (data + y)[|data|..] == y;
  }

  /**
    A char array takes the characters and a terminator if they fit; the old bytes behind the
    terminator stay.
   */
  lemma CharsWritten(f: Field, data: seq<byte>, w: seq<byte>, y: seq<byte>, before: seq<byte>)
    requires f.ltype == LString && IsLength(w, |data|) && |before| == f.dataSize <= PB_SIZE_MAX
    ensures DecChars(f, w + (data + y), VString(before)) ==
      if |data| < f.dataSize then Ok(VString(data + [0] + before[|data| + 1..]), y) else Bad
  {
    hide IsVarint, DecVarint32, VarintValue;
    DecodesVarint32(w, data + y);
    assert (data + y)[..|data|] == data && (data + y)[|data|..] == y;
  }

  predicate AllZero(v: Value, n: nat) {
    v.VFixed? && |v.data| == n && forall k | 0 <= k < n :: v.data[k] == 0
  }

  /** Bytes of fixed length: data of that length, or an empty block for all zeros */
  lemma FixedBytesDecoded(f: Field, data: seq<byte>, w: seq<byte>, y: seq<byte>)
    requires f.ltype == LFixedBytes && IsLength(w, |data|)
    requires f.dataSize <= PB_SIZE_MAX
    ensures var r := DecFixedBytes(f, w + (data + y));
      && (|data| == f.dataSize && data != [] ==> r == Ok(VFixed(data), y))
      && (data == [] ==> r.Ok? && r.rest == y && AllZero(r.val, f.dataSize))
      && (|data| != f.dataSize && data != [] ==> r.Bad?)
  {
    hide IsVarint, DecVarint32, VarintValue;
    DecodesVarint32(w, data + y);
    assert (data + y)[..|data|] == data && (data + y)[|data|..] == y;
  }
}
