/**
  Wire primitives of pb_encode.c and pb_decode.c as functions on byte strings: varints,
  zigzag integers, little-endian fixed words, tags and payload skipping.
  A reader takes the bytes of its window and returns a value with the bytes it left unread.
 */
module Wire {
  import opened Words

  type byte = b: int | 0 <= b < 256

  datatype Option<+T> = None | Some(value: T)

  datatype Parsed<+T> = Bad | Ok(val: T, rest: seq<byte>)

  /** uint_fast8_t, the type of both varint shift counters, holds 8 bits or more. */
  type Fast8Modulus = n: int | n >= 256 witness 256
  const FAST8_MOD: Fast8Modulus

  const WT_VARINT: nat := 0
  const WT_64BIT: nat := 1
  const WT_STRING: nat := 2
  const WT_32BIT: nat := 5

  // ---- Writing ----

  function EncVarint(v: nat): (r: seq<byte>)
    ensures |r| >= 1
  {
    if v < 128 then [v] else [128 + v % 128] + EncVarint(v / 128)
  }

  /** pb_encode_svarint: the unsigned image of a signed 64-bit value. */
  function Zigzag(i: int): nat {
    if i < 0 then U64 - 1 - (2 * (i % U64)) % U64 else (2 * (i % U64)) % U64
  }

  function EncFixed32(n: nat): (r: seq<byte>)
    ensures |r| == 4
  {
    [n % 256, n / 0x100 % 256, n / 0x1_0000 % 256, n / 0x100_0000 % 256]
  }

  function EncFixed64(n: nat): seq<byte> {
    EncFixed32(n % U32) + EncFixed32(n / U32)
  }

  function EncTag(wt: nat, tag: nat): seq<byte> {
    EncVarint(8 * tag + wt)
  }

  /** A length prefix, cast to 64 bits, and the bytes it announces */
  function EncString(data: seq<byte>): seq<byte> {
    EncVarint(|data| % U64) + data
  }

  // ---- Reading ----

  function DecVarintFrom(bs: seq<byte>, bitpos: nat, acc: nat): (r: Parsed<nat>)
    ensures r.Ok? ==> |r.rest| < |bs|
  {
    if bitpos >= 64 || bs == [] then Bad
    else
      var acc' := BitOr(acc, Shl(bs[0] % 128, bitpos) % U64);
      if bs[0] < 128 then Ok(acc', bs[1..]) else DecVarintFrom(bs[1..], bitpos + 7, acc')
  }

  /** pb_decode_varint */
  function DecVarint(bs: seq<byte>): (r: Parsed<nat>)
    ensures r.Ok? ==> |r.rest| < |bs|
  {
    DecVarintFrom(bs, 0, 0)
  }

  /** The shift counter after one more byte; it wraps around. */
  function NextBitpos(bitpos: nat): (r: nat)
    ensures bitpos + 7 < 256 ==> r == bitpos + 7
  {
    (bitpos + 7) % FAST8_MOD
  }

  /** The byte at a bit position of 32 or more is dropped, if it is padding or sign extension. */
  predicate Overflows32(b: byte, bitpos: nat, result: nat) {
    var signExtension := if bitpos < 63 then 0xFF else 0x01;
    b % 128 != 0 && (result < 0x8000_0000 || b != signExtension)
  }

  /** The multi-byte case of pb_decode_varint32_eof, from its second byte on. */
  function DecVarint32From(bs: seq<byte>, bitpos: nat, result: nat): (r: Parsed<nat>)
    ensures r.Ok? ==> |r.rest| < |bs|
  {
    if bs == [] then Bad
    else if bitpos >= 32 && Overflows32(bs[0], bitpos, result) then Bad
    else
      var result' := if bitpos >= 32 then result else BitOr(result, Shl(bs[0] % 128, bitpos) % U32);
      var bitpos' := NextBitpos(bitpos);
      if bs[0] >= 128 then DecVarint32From(bs[1..], bitpos', result')
      else if bitpos' == 35 && bs[0] / 16 % 8 != 0 then Bad
      else Ok(result', bs[1..])
  }

  /** pb_decode_varint32 */
  function DecVarint32(bs: seq<byte>): (r: Parsed<nat>)
    ensures r.Ok? ==> |r.rest| < |bs|
  {
    if bs == [] then Bad
    else if bs[0] < 128 then Ok(bs[0], bs[1..])
    else DecVarint32From(bs[1..], 7, bs[0] % 128)
  }

  function Unzigzag(v: nat): int {
    if v % 2 == 1 then Signed(U64 - 1 - v / 2, U64) else Signed(v / 2, U64)
  }

  function Word32(b0: nat, b1: nat, b2: nat, b3: nat): nat {
    b0 + 0x100 * b1 + 0x1_0000 * b2 + 0x100_0000 * b3
  }

  function DecFixed32(bs: seq<byte>): (r: Parsed<nat>)
    ensures if |bs| < 4 then r.Bad? else r.Ok? && |r.rest| == |bs| - 4
  {
    if |bs| < 4 then Bad
    else Ok(Word32(bs[0], bs[1], bs[2], bs[3]), bs[4..])
  }

  function DecFixed64(bs: seq<byte>): (r: Parsed<nat>)
    ensures r.Ok? ==> |r.rest| < |bs|
  {
    if |bs| < 8 then Bad
    else Ok(DecFixed32(bs).val + U32 * DecFixed32(bs[4..]).val, bs[8..])
  }

  /** The three outcomes of pb_decode_tag: a field, the end of the message, an error. */
  datatype TagResult = Tag(wt: nat, tag: nat, rest: seq<byte>) | End(rest: seq<byte>) | TagError

  function DecTag(bs: seq<byte>): (r: TagResult)
    ensures r.Tag? ==> |r.rest| < |bs|
    ensures r.End? && bs != [] ==> |r.rest| < |bs|
  {
    match DecVarint32(bs)
    case Bad => if bs == [] then End(bs) else TagError
    case Ok(t, rest) => if t == 0 then End(rest) else Tag(t % 8, t / 8, rest)
  }

  function Take(bs: seq<byte>, n: nat): (r: Parsed<seq<byte>>)
    ensures r.Ok? ==> |r.val| + |r.rest| == |bs|
  {
    if |bs| < n then Bad else Ok(bs[..n], bs[n..])
  }

  /** A varint32 length followed by that many bytes: the window of a string substream. */
  function DecString(bs: seq<byte>): (r: Parsed<seq<byte>>)
    ensures r.Ok? ==> |r.val| + |r.rest| < |bs|
  {
    match DecVarint32(bs)
    case Bad => Bad
    case Ok(n, rest) => Take(rest, n)
  }

  function SkipVarint(bs: seq<byte>): (r: Parsed<()>)
    ensures r.Ok? ==> |r.rest| < |bs|
  {
    if bs == [] then Bad
    else if bs[0] < 128 then Ok((), bs[1..])
    else SkipVarint(bs[1..])
  }

  function Skipped<T>(p: Parsed<T>): Parsed<()> {
    if p.Ok? then Ok((), p.rest) else Bad
  }

  /** pb_skip_field */
  function SkipField(wt: nat, bs: seq<byte>): (r: Parsed<()>)
    ensures r.Ok? ==> |r.rest| < |bs|
  {
    if wt == WT_VARINT then SkipVarint(bs)
    else if wt == WT_64BIT then Skipped(Take(bs, 8))
    else if wt == WT_STRING then Skipped(DecString(bs))
    else if wt == WT_32BIT then Skipped(Take(bs, 4))
    else Bad
  }

  // ---- Integer fields of 1, 2, 4 or 8 bytes ----

  predicate IntSize(size: nat) {
    size in {1, 2, 4, 8}
  }

  /** 2 to the number of bits of an integer field */
  function IntModulus(size: nat): (m: int)
    ensures m > 0
  {
    if size == 1 then 0x100 else if size == 2 then 0x1_0000 else if size == 4 then U32 else U64
  }

  predicate FitsSigned(i: int, size: nat) {
    -IntModulus(size) <= 2 * i < IntModulus(size)
  }

  predicate FitsUnsigned(i: int, size: nat) {
    0 <= i < IntModulus(size)
  }

  /** pb_dec_varint: fields of up to 32 bits keep the low 32 bits of what was sent. */
  function DecSignedField(size: nat, bs: seq<byte>): (r: Parsed<int>)
    ensures r.Ok? ==> |r.rest| < |bs|
  {
    match DecVarint(bs)
    case Bad => Bad
    case Ok(value, rest) =>
      if !IntSize(size) then Bad
      else
        var svalue := if size == 8 then Signed(value, U64) else Signed(value, U32);
        var clamped := Signed(svalue, IntModulus(size));
        if clamped != svalue then Bad else Ok(clamped, rest)
  }

  /** pb_dec_uvarint */
  function DecUnsignedField(size: nat, bs: seq<byte>): (r: Parsed<int>)
    ensures r.Ok? ==> |r.rest| < |bs|
  {
    match DecVarint(bs)
    case Bad => Bad
    case Ok(value, rest) =>
      if !IntSize(size) then Bad
      else
        var clamped := value % IntModulus(size);
        if clamped != value then Bad else Ok(clamped, rest)
  }

  /** pb_dec_svarint */
  function DecZigzagField(size: nat, bs: seq<byte>): (r: Parsed<int>)
    ensures r.Ok? ==> |r.rest| < |bs|
  {
    match DecVarint(bs)
    case Bad => Bad
    case Ok(value, rest) =>
      if !IntSize(size) then Bad
      else
        var clamped := Signed(Unzigzag(value), IntModulus(size));
        if clamped != Unzigzag(value) then Bad else Ok(clamped, rest)
  }
}
