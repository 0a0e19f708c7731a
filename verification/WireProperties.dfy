/**
  Properties of the wire primitives: round trips, shortest form, agreement of the two varint
  decoders, exactness of integer fields, and independence of a reader from what follows its input.
 */
module WireProperties {
  import opened Words
  import opened Wire

  // ---- Varints ----

  /** One round of the decoding loop adds seven bits above the ones already there. */
  lemma AddSevenBits(d: nat, p: nat, acc: nat)
    requires d < 128 && acc < Shl(1, p)
    ensures BitOr(acc, Shl(d, p)) == acc + Shl(d, p) < Shl(1, p + 7)
  {
    OrDisjoint(acc, d, p);
    ShlLinear(d, 127, 2, p);
    ShlLinear(1, 127, 2, p);
    Shl7(1, p);
  }

  lemma SplitSevenBits(v: nat, p: nat)
    ensures Shl(v, p) == Shl(v % 128, p) + Shl(v / 128, p + 7)
  {
    ShlLinear(v % 128, 128 * (v / 128), 2, p);
    Shl7(v / 128, p);
  }

  lemma NotPast63(v: nat, p: nat)
    requires p % 7 == 0 && 1 <= v && Shl(v, p) < U64
    ensures p <= 63
  {
    if p > 63 {
      ShlLinear(1, v, 2, p);
      ShlTable(1);
      Shl7(1, 63);
      ShlSplit(1, 70, p - 70);
      ShlLinear(Shl(1, 70), 0, 2, p - 70);
    }
  }

  lemma {:induction false} DecVarintFromEncoded(v: nat, y: seq<byte>, p: nat, acc: nat)
    requires p % 7 == 0 && acc < Shl(1, p) && 1 <= v && Shl(v, p) < U64
    ensures DecVarintFrom(EncVarint(v) + y, p, acc) == Ok(acc + Shl(v, p), y)
  {
    hide Shl, BitOr, EncVarint;
    var d, q := v % 128, v / 128;
    EncVarintParts(v, y);
    NotPast63(v, p);
    SplitSevenBits(v, p);
    Remainder64(Shl(d, p), 0);
    AddSevenBits(d, p, acc);
    if v < 128 {
      ShlZero(p + 7);
    } else {
      DecVarintFromEncoded(q, y, p + 7, acc + Shl(d, p));
    }
  }

  lemma {:induction false} ShlZero(n: nat)
    ensures Shl(0, n) == 0
  {
    if n > 0 {
      ShlZero(n - 1);
    }
  }

  lemma EncVarintParts(v: nat, y: seq<byte>)
    ensures var bs := EncVarint(v) + y;
      && bs != [] && bs[0] == (if v < 128 then v else 128 + v % 128)
      && bs[1..] == if v < 128 then y else EncVarint(v / 128) + y
  {
  }

  /** pb_decode_varint returns what pb_encode_varint wrote and consumes exactly those bytes. */
  lemma VarintRoundTrip(v: nat, y: seq<byte>)
    requires v < U64
    ensures DecVarint(EncVarint(v) + y) == Ok(v, y)
  {
    if v == 0 {
      assert (EncVarint(v) + y)[1..] == y;
    } else {
      DecVarintFromEncoded(v, y, 0, 0);
    }
  }

  lemma ShlOneMonotone(n: nat, k: nat)
    ensures Shl(1, n) <= Shl(1, n + k)
    ensures Shl(1, 64) == U64
  {
    ShlSplit(1, n, k);
    ShlLinear(Shl(1, n), 0, 2, k);
    ShlTable(1);
  }

  /** What a successful pb_decode_varint can return after reading n bytes. */
  lemma {:induction false} DecVarintBound(bs: seq<byte>, p: nat, acc: nat)
    requires acc < Shl(1, p) && acc < U64
    requires DecVarintFrom(bs, p, acc).Ok?
    ensures var Ok(v, rest) := DecVarintFrom(bs, p, acc);
      v < U64 && v < Shl(1, p + 7 * (|bs| - |rest|))
  {
    var d := bs[0] % 128;
    var x := Shl(d, p) % U64;
    AddSevenBits(d, p, acc);
    assert x <= Shl(d, p);
    ShlOneMonotone(p, 7);
    OrBound(acc, x, p + 7);
    OrBound(acc, x, 64);
    if bs[0] >= 128 {
      DecVarintBound(bs[1..], p + 7, BitOr(acc, x));
    }
  }

  lemma {:induction false} EncVarintLength(v: nat)
    ensures var k := |EncVarint(v)|;
      v < Shl(1, 7 * k) && (k > 1 ==> v >= Shl(1, 7 * (k - 1)))
    ensures v < U64 ==> |EncVarint(v)| <= 10
  {
    if v < 128 {
      Shl7(1, 0);
    } else {
      EncVarintLength(v / 128);
      var k := |EncVarint(v / 128)|;
      Shl7(1, 7 * k);
      if k > 1 {
        Shl7(1, 7 * (k - 1));
      }
      LengthStep(v, k);
    }
  }

  lemma LengthStep(v: nat, k: nat)
    requires v >= 128 && k == |EncVarint(v / 128)|
    requires k > 1 ==> v / 128 >= Shl(1, 7 * (k - 1))
    ensures v < U64 ==> k <= 9
  {
    ShlTable(1);
    if k > 9 {
      ShlOneMonotone(63, 7 * (k - 1) - 63);
    }
  }

  /** The encoder's form is the shortest one: no other bytes that decode to v are fewer. */
  lemma VarintShortest(bs: seq<byte>)
    requires DecVarint(bs).Ok?
    ensures |EncVarint(DecVarint(bs).val)| <= |bs| - |DecVarint(bs).rest|
  {
    DecVarintBound(bs, 0, 0);
    var v, n := DecVarint(bs).val, |bs| - |DecVarint(bs).rest|;
    EncVarintLength(v);
    var k := |EncVarint(v)|;
    if n < k {
      ShlOneMonotone(7 * n, 7 * (k - 1) - 7 * n);
    }
  }

  // ---- The 32-bit varint decoder ----

  lemma Truncate28(d: nat, acc: nat)
    requires d < 128 && acc < 0x1000_0000
    ensures 0x1000_0000 * d % U32 == 0x1000_0000 * (d % 16)
    ensures (acc + 0x1000_0000 * d) % U32 == acc + 0x1000_0000 * (d % 16)
  {
    var q, r := d / 16, d % 16;
    assert 0x1000_0000 * d == U32 * q + 0x1000_0000 * r;
    Remainder32(acc + 0x1000_0000 * r, q);
    Remainder32(0x1000_0000 * r, q);
  }

  lemma SmallShift(d: nat, p: nat, acc: nat)
    requires d < 128 && p <= 21 && acc < Shl(1, p)
    ensures acc + Shl(d, p) < U32
  {
    AddSevenBits(d, p, acc);
    ShlOneMonotone(p + 7, 28 - (p + 7));
    ShlWord(1);
  }

  lemma LastBits32(d: nat, acc: nat)
    requires d < 128 && acc < Shl(1, 28)
    ensures BitOr(acc, Shl(d, 28) % U32) == (acc + Shl(d, 28)) % U32
  {
    ShlWord(1);
    ShlWord(d);
    ShlWord(d % 16);
    Truncate28(d, acc);
    OrDisjoint(acc, d % 16, 28);
  }

  lemma AddSevenBits32(d: nat, p: nat, acc: nat)
    requires d < 128 && p in {7, 14, 21, 28} && acc < Shl(1, p)
    ensures BitOr(acc, Shl(d, p) % U64) == acc + Shl(d, p)
    ensures BitOr(acc, Shl(d, p) % U32) == (acc + Shl(d, p)) % U32
  {
    hide BitOr, Shl;
    AddSevenBits(d, p, acc);
    ShlOneMonotone(p + 7, 64 - (p + 7));
    if p == 28 {
      LastBits32(d, acc);
    } else {
      SmallShift(d, p, acc);
    }
  }

  lemma HighBits(d: nat, p: nat, acc: nat)
    requires p >= 32
    ensures (acc + Shl(d, p)) % U32 == acc % U32
  {
    ShlSplit(d, p - 32, 32);
    ShlWord(Shl(d, p - 32));
    Remainder32(acc, Shl(d, p - 32));
  }

  lemma HighBitsTruncated(d: nat, p: nat) returns (e: nat)
    requires d < 128 && p in {35, 42, 49, 56, 63}
    ensures Shl(d, p) % U64 == Shl(e, p)
  {
    hide Shl;
    e := if p == 63 then d % 2 else d;
    if p == 63 {
      ShlWord(d);
      ShlWord(e);
      Remainder64(Shl(e, p), d / 2);
    } else {
      ShlLinear(1, 0, 2, p);
      AddSevenBits(d, p, 0);
      ShlOneMonotone(p + 7, 57 - p);
    }
  }

  lemma HighBitsVanish(d: nat, p: nat, acc: nat)
    requires d < 128 && p in {35, 42, 49, 56, 63} && acc < Shl(1, p)
    ensures BitOr(acc, Shl(d, p) % U64) % U32 == acc % U32
  {
    var e := HighBitsTruncated(d, p);
    OrDisjoint(acc, e, p);
    HighBits(e, p, acc);
  }

  /** Both decoders, run in step from the same byte, agree modulo 2^32. */
  lemma {:induction false} LockStep(bs: seq<byte>, p: nat, result: nat, acc: nat)
    requires p in {7, 14, 21, 28, 35, 42, 49, 56, 63, 70}
    requires acc < Shl(1, p) && result == acc % U32
    requires DecVarint32From(bs, p, result).Ok? && DecVarintFrom(bs, p, acc).Ok?
    ensures DecVarint32From(bs, p, result).val == DecVarintFrom(bs, p, acc).val % U32
    ensures DecVarint32From(bs, p, result).rest == DecVarintFrom(bs, p, acc).rest
  {
    hide BitOr, Shl, NextBitpos;
    var d := bs[0] % 128;
    var acc' := BitOr(acc, Shl(d, p) % U64);
    var result' := if p >= 32 then result else BitOr(result, Shl(d, p) % U32);
    assert p < 70;
    StepBound(d, p, acc);
    assert result' == acc' % U32 by {
      if p <= 28 {
        SmallerThan32(p, acc);
        AddSevenBits32(d, p, acc);
      } else {
        HighBitsVanish(d, p, acc);
      }
    }
    if bs[0] >= 128 {
      LockStep(bs[1..], p + 7, result', acc');
    }
  }

  lemma SmallerThan32(p: nat, acc: nat)
    requires p <= 28 && acc < Shl(1, p)
    ensures acc % U32 == acc
  {
    ShlOneMonotone(p, 28 - p);
    ShlWord(1);
  }

  lemma StepBound(d: nat, p: nat, acc: nat)
    requires d < 128 && acc < Shl(1, p)
    ensures BitOr(acc, Shl(d, p) % U64) < Shl(1, p + 7)
  {
    AddSevenBits(d, p, acc);
    ShlOneMonotone(p, 7);
    OrBound(acc, Shl(d, p) % U64, p + 7);
  }

  /** When both decoders succeed they consume the same bytes and agree modulo 2^32. */
  lemma Varint32RefinesVarint64(bs: seq<byte>)
    requires DecVarint32(bs).Ok? && DecVarint(bs).Ok?
    ensures DecVarint32(bs).val == DecVarint(bs).val % U32
    ensures DecVarint32(bs).rest == DecVarint(bs).rest
  {
    var d := bs[0] % 128;
    assert Shl(d, 0) % U64 == d;
    if bs[0] >= 128 {
      ShlTable(1);
      LockStep(bs[1..], 7, d, d);
    }
  }

  /** The bits w, shifted to bit position p, do not fit 32 bits. */
  predicate ExceedsAt(w: nat, p: nat) {
    || (p == 7 && 0x200_0000 <= w) || (p == 14 && 0x4_0000 <= w) || (p == 21 && 0x800 <= w)
    || (p == 28 && 16 <= w) || (p > 28 && 1 <= w)
  }

  /** One round of the 32-bit decoder on an encoded value */
  lemma DecVarint32Step(w: nat, y: seq<byte>, p: nat, result: nat)
    requires p < 70
    ensures var bs := EncVarint(w) + y;
      var result' := if p >= 32 then result else BitOr(result, Shl(w % 128, p) % U32);
      if p >= 32 && Overflows32(bs[0], p, result) then DecVarint32From(bs, p, result).Bad?
      else if w >= 128 then DecVarint32From(bs, p, result) == DecVarint32From(EncVarint(w / 128) + y, p + 7, result')
      else if p == 28 && w >= 16 then DecVarint32From(bs, p, result).Bad?
      else DecVarint32From(bs, p, result) == Ok(result', y)
    ensures (EncVarint(w) + y)[0] == if w < 128 then w else 128 + w % 128
  {
    hide BitOr, Shl, NextBitpos, Overflows32;
    var bs := EncVarint(w) + y;
    assert bs[1..] == if w < 128 then y else EncVarint(w / 128) + y;
  }

  lemma {:induction false} Small32Succeeds(w: nat, y: seq<byte>, p: nat, result: nat)
    requires p in {7, 14, 21, 28} && !ExceedsAt(w, p)
    ensures DecVarint32From(EncVarint(w) + y, p, result).Ok?
  {
    hide BitOr, Shl, NextBitpos, DecVarint32From, EncVarint, Overflows32;
    DecVarint32Step(w, y, p, result);
    if w >= 128 {
      Small32Succeeds(w / 128, y, p + 7, BitOr(result, Shl(w % 128, p) % U32));
    }
  }

  lemma {:induction false} Large32Fails(w: nat, y: seq<byte>, p: nat, result: nat)
    requires p in {7, 14, 21, 28, 35, 42, 49, 56} && ExceedsAt(w, p)
    requires |EncVarint(w)| <= (63 - p) / 7
    ensures DecVarint32From(EncVarint(w) + y, p, result).Bad?
  {
    hide BitOr, Shl, NextBitpos, DecVarint32From;
    DecVarint32Step(w, y, p, result);
    if w >= 128 {
      Large32Fails(w / 128, y, p + 7,
        if p >= 32 then result else BitOr(result, Shl(w % 128, p) % U32));
    }
  }

  /** Bit 63 is the highest bit of w, when w is shifted to bit position p. */
  predicate Reaches63(w: nat, p: nat) {
    || (p == 7 && 0x100_0000_0000_0000 <= w < 0x200_0000_0000_0000)
    || (p == 14 && 0x2_0000_0000_0000 <= w < 0x4_0000_0000_0000)
    || (p == 21 && 0x400_0000_0000 <= w < 0x800_0000_0000)
    || (p == 28 && 0x8_0000_0000 <= w < 0x10_0000_0000)
    || (p == 35 && 0x1000_0000 <= w < 0x2000_0000) || (p == 42 && 0x20_0000 <= w < 0x40_0000)
    || (p == 49 && 0x4000 <= w < 0x8000) || (p == 56 && 0x80 <= w < 0x100) || (p == 63 && w == 1)
  }

  /**
    What the 32-bit decoder takes for the sign extension of an int32, in w at bit position p: bit 31
    is set, and each group of seven bits from bit 35 on is all ones or, as padding, all zeros.
   */
  predicate SignExtended(w: nat, p: nat)
    decreases 63 - p
  {
    p >= 63 || (
      && (p == 28 ==> w % 16 >= 8)
      && (p > 28 ==> w % 128 == 0 || w % 128 == 127)
      && SignExtended(w / 128, p + 7))
  }

  lemma SignBit32(d: nat, result: nat)
    requires d < 128 && result < Shl(1, 28)
    ensures 0x8000_0000 <= BitOr(result, Shl(d, 28) % U32) <==> d % 16 >= 8
  {
    LastBits32(d, result);
    ShlWord(d);
    ShlWord(1);
    Truncate28(d, result);
  }

  lemma HighByte(b: byte, p: nat, result: nat)
    requires p in {35, 42, 49, 56, 63} && (if p < 63 then b >= 128 else b == 1)
    ensures !Overflows32(b, p, result) <==> b % 128 == 0 || (result >= 0x8000_0000 && (p < 63 ==> b % 128 == 127))
  {
  }

  lemma {:induction false} High32Exact(w: nat, y: seq<byte>, p: nat, result: nat)
    requires Reaches63(w, p) && (p <= 28 ==> result < Shl(1, p))
    ensures DecVarint32From(EncVarint(w) + y, p, result).Ok? <==>
      SignExtended(w, p) && (p > 28 ==> result >= 0x8000_0000)
    decreases 63 - p
  {
    hide BitOr, Shl, NextBitpos, DecVarint32From, EncVarint, Reaches63, SignExtended, Overflows32;
    var d := w % 128;
    Reaches63Next(w, p);
    SignExtendedStep(w, p);
    DecVarint32Step(w, y, p, result);
    if p > 28 {
      HighByte((EncVarint(w) + y)[0], p, result);
    } else {
      Low32Step(d, p, result);
    }
    if p < 63 {
      var result' := if p >= 32 then result else BitOr(result, Shl(d, p) % U32);
      High32Exact(w / 128, y, p + 7, result');
    }
  }

  lemma Reaches63Next(w: nat, p: nat)
    requires Reaches63(w, p)
    ensures p in {7, 14, 21, 28, 35, 42, 49, 56, 63}
    ensures if p < 63 then w >= 128 && Reaches63(w / 128, p + 7) else w == 1
  {
  }

  lemma SignExtendedStep(w: nat, p: nat)
    ensures p >= 63 ==> SignExtended(w, p)
    ensures p < 28 ==> SignExtended(w, p) == SignExtended(w / 128, p + 7)
    ensures p == 28 ==> SignExtended(w, p) == (w % 128 % 16 >= 8 && SignExtended(w / 128, p + 7))
    ensures 28 < p < 63 ==> SignExtended(w, p) == (w % 128 in {0, 127} && SignExtended(w / 128, p + 7))
  {
  }

  lemma Low32Step(d: nat, p: nat, result: nat)
    requires p in {7, 14, 21, 28} && d < 128 && result < Shl(1, p)
    ensures var r := BitOr(result, Shl(d, p) % U32);
      if p == 28 then 0x8000_0000 <= r <==> d % 16 >= 8 else r < Shl(1, p + 7)
  {
    hide BitOr, Shl;
    if p == 28 {
      SignBit32(d, result);
    } else {
      SmallShift(d, p, result);
      AddSevenBits(d, p, result);
    }
  }

  /** The low bits, then ones up to bit 63: what is left of a sign-extended int32 at bit p. */
  predicate Negative32At(w: nat, p: nat) {
    || (p == 0 && 0xFFFF_FFFF_8000_0000 <= w < U64)
    || (p == 7 && 0x1FF_FFFF_FF00_0000 <= w < 0x200_0000_0000_0000)
    || (p == 14 && 0x3_FFFF_FFFE_0000 <= w < 0x4_0000_0000_0000)
    || (p == 21 && 0x7FF_FFFF_FC00 <= w < 0x800_0000_0000)
    || (p == 28 && 0xF_FFFF_FFF8 <= w < 0x10_0000_0000)
    || (p == 35 && w == 0x1FFF_FFFF) || (p == 42 && w == 0x3F_FFFF)
    || (p == 49 && w == 0x7FFF) || (p == 56 && w == 0xFF) || (p == 63 && w == 1)
  }

  /** The 64-bit image of a negative int32 is sign-extended in this sense. */
  lemma {:induction false} NegativeIsSignExtended(w: nat, p: nat)
    requires Negative32At(w, p)
    ensures SignExtended(w, p)
    decreases 63 - p
  {
    hide SignExtended;
    SignExtendedStep(w, p);
    if p < 63 {
      NegativeIsSignExtended(w / 128, p + 7);
    }
  }

  lemma SevenBits(d: nat)
    requires d < 128
    ensures d < Shl(1, 7)
  {
    Shl7(1, 0);
  }

  /**
    What pb_decode_varint32 does with the encoding of v: it returns v below 2^32, rejects v from
    2^32 up to 2^63, and from there on returns v modulo 2^32 if v looks sign-extended, as the
    64-bit image of a negative int32 does.
   */
  lemma Varint32OfEncoded(v: nat, y: seq<byte>)
    requires v < U64
    ensures v < U32 ==> DecVarint32(EncVarint(v) + y) == Ok(v, y)
    ensures U32 <= v < 0x8000_0000_0000_0000 ==> DecVarint32(EncVarint(v) + y).Bad?
    ensures 0x8000_0000_0000_0000 <= v ==>
      DecVarint32(EncVarint(v) + y) == if SignExtended(v, 0) then Ok(v % U32, y) else Bad
    ensures U64 - 0x8000_0000 <= v ==> DecVarint32(EncVarint(v) + y) == Ok(v % U32, y)
  {
    hide EncVarint, DecVarint, DecVarint32, DecVarint32From, Shl, ExceedsAt, SignExtended;
    if v < 128 {
      OneByteVarint(v, y);
    } else {
      var d, w := v % 128, v / 128;
      DecVarint32Starts(v, y);
      if v < U32 {
        Small32Succeeds(w, y, 7, d);
      } else if v < 0x8000_0000_0000_0000 {
        EncVarintBelow63(v);
        Large32Fails(w, y, 7, d);
      } else {
        SevenBits(d);
        High32Exact(w, y, 7, d);
        SignExtendedStep(v, 0);
        if U64 - 0x8000_0000 <= v {
          NegativeIsSignExtended(v, 0);
        }
      }
      if DecVarint32(EncVarint(v) + y).Ok? {
        VarintRoundTrip(v, y);
        Varint32RefinesVarint64(EncVarint(v) + y);
      }
    }
  }

  lemma OneByteVarint(v: nat, y: seq<byte>)
    requires v < 128
    ensures DecVarint32(EncVarint(v) + y) == Ok(v, y)
  {
    assert (EncVarint(v) + y)[1..] == y;
  }

  lemma DecVarint32Starts(v: nat, y: seq<byte>)
    requires 128 <= v < U64
    ensures var d, w := v % 128, v / 128;
      && DecVarint32(EncVarint(v) + y) == DecVarint32From(EncVarint(w) + y, 7, d)
      && (if v < U32 then !ExceedsAt(w, 7) else ExceedsAt(w, 7))
      && 7 in {7, 14, 21, 28} && 7 in {7, 14, 21, 28, 35, 42, 49, 56}
      && |EncVarint(v)| == 1 + |EncVarint(w)|
      && (0x8000_0000_0000_0000 <= v ==> Reaches63(w, 7))
  {
    hide Shl, DecVarint32From;
    assert (EncVarint(v) + y)[1..] == EncVarint(v / 128) + y;
  }

  lemma EncVarintBelow63(v: nat)
    requires v < 0x8000_0000_0000_0000
    ensures |EncVarint(v)| <= 9
  {
    EncVarintLength(v);
    ShlWord(1);
  }

  // ---- Integer fields ----

  lemma SignedIdentity(i: int, size: nat)
    requires IntSize(size)
    ensures FitsSigned(i, size) <==> Signed(i, IntModulus(size)) == i
  {
    if size == 1 {
    } else if size == 2 {
    } else if size == 4 {
    } else {
    }
  }

  lemma SignedImage(i: int, size: nat)
    requires IntSize(size) && FitsSigned(i, size)
    ensures Signed(i % U64, U64) == i
    ensures size < 8 ==> Signed(i % U64, U32) == i
  {
    assert i % U64 == if i < 0 then i + U64 else i;
    if size < 8 && i < 0 {
      assert i + U64 == U32 * (U32 - 1) + (i + U32);
      Remainder32(i + U32, U32 - 1);
    }
  }

  lemma SignedCongruent(v: nat, size: nat)
    requires size == 4 || size == 8
    ensures (Signed(v, IntModulus(size)) - v) % IntModulus(size) == 0
  {
    var m := IntModulus(size);
    var q := v / m;
    Multiples(-q);
    Multiples(-q - 1);
    if size == 4 {
      assert v == U32 * q + v % U32;
      assert Signed(v, U32) - v == U32 * -q || Signed(v, U32) - v == U32 * (-q - 1);
    } else {
      assert v == U64 * q + v % U64;
      assert Signed(v, U64) - v == U64 * -q || Signed(v, U64) - v == U64 * (-q - 1);
    }
  }

  lemma Multiples(q: int)
    ensures U32 * q % U32 == 0 && U64 * q % U64 == 0
  {
  }

  lemma ZigzagValue(i: int, v: nat)
    requires FitsSigned(i, 8) && v < U64
    ensures Zigzag(i) == if i < 0 then -2 * i - 1 else 2 * i
    ensures Unzigzag(v) == if v % 2 == 1 then -(v / 2) - 1 else v / 2
  {
    if i < 0 {
      Remainder64(i + U64, 0);
      assert i % U64 == i + U64;
      Remainder64(2 * i + U64, 1);
    } else {
      Remainder64(i, 0);
      Remainder64(2 * i, 0);
    }
    SignedHalf(v);
  }

  lemma SignedHalf(v: nat)
    requires v < U64
    ensures Signed(v / 2, U64) == v / 2 && Signed(U64 - 1 - v / 2, U64) == -(v / 2) - 1
  {
    Remainder64(v / 2, 0);
    Remainder64(U64 - 1 - v / 2, 0);
  }

  /** pb_encode_svarint and pb_decode_svarint are inverse on all 64-bit values, both ways. */
  lemma ZigzagRoundTrip(i: int, v: nat)
    requires FitsSigned(i, 8) && v < U64
    ensures Zigzag(i) < U64 && Unzigzag(Zigzag(i)) == i
    ensures FitsSigned(Unzigzag(v), 8) && Zigzag(Unzigzag(v)) == v
  {
    hide Zigzag, Unzigzag;
    ZigzagValue(i, v);
    ZigzagValue(Unzigzag(v), Zigzag(i));
  }

  /** Integers of every width come back exactly, over their whole range. */
  lemma IntegerFieldsRoundTrip(size: nat, i: int, y: seq<byte>)
    requires IntSize(size)
    ensures FitsSigned(i, size) ==> DecSignedField(size, EncVarint(i % U64) + y) == Ok(i, y)
    ensures FitsUnsigned(i, size) ==> DecUnsignedField(size, EncVarint(i) + y) == Ok(i, y)
    ensures FitsSigned(i, size) ==> DecZigzagField(size, EncVarint(Zigzag(i)) + y) == Ok(i, y)
  {
    hide DecVarint, EncVarint;
    if FitsSigned(i, size) {
      hide Signed, Zigzag, Unzigzag;
      SignedIdentity(i, size);
      SignedImage(i, size);
      VarintRoundTrip(i % U64, y);
      ZigzagRoundTrip(i, 0);
      VarintRoundTrip(Zigzag(i), y);
    }
    if FitsUnsigned(i, size) {
      VarintRoundTrip(i, y);
    }
  }

  /**
    On a complete varint the unsigned and zigzag fields succeed exactly when the 64-bit value
    fits; the plain signed field never fails at 4 or 8 bytes, and keeps the low bits there.
   */
  lemma IntegerFieldsExact(size: nat, bs: seq<byte>)
    requires IntSize(size) && DecVarint(bs).Ok?
    ensures var Ok(v, rest) := DecVarint(bs);
      && DecUnsignedField(size, bs) == (if FitsUnsigned(v, size) then Ok(v, rest) else Bad)
      && DecZigzagField(size, bs) == (if FitsSigned(Unzigzag(v), size) then Ok(Unzigzag(v), rest) else Bad)
      && DecSignedField(size, bs) ==
         (var i := Signed(v, if size == 8 then U64 else U32);
          if FitsSigned(i, size) then Ok(i, rest) else Bad)
      && (size >= 4 ==> DecSignedField(size, bs).Ok? && (DecSignedField(size, bs).val - v) % IntModulus(size) == 0)
  {
    hide DecVarint, Unzigzag;
    var v := DecVarint(bs).val;
    SignedIdentity(Unzigzag(v), size);
    SignedIdentity(Signed(v, if size == 8 then U64 else U32), size);
    UnsignedIdentity(v, size);
    if size >= 4 {
      SignedCongruent(v, size);
      assert FitsSigned(Signed(v, IntModulus(size)), size);
    }
    hide Signed, IntModulus;
  }

  lemma UnsignedIdentity(v: nat, size: nat)
    requires IntSize(size)
    ensures FitsUnsigned(v, size) <==> v % IntModulus(size) == v
  {
  }

  // ---- Fixed words ----

  lemma Fixed32RoundTrip(n: nat, y: seq<byte>)
    requires n < U32
    ensures DecFixed32(EncFixed32(n) + y) == Ok(n, y)
  {
    hide Word32;
    Bytes32(n);
    assert (EncFixed32(n) + y)[4..] == y;
  }

  lemma Bytes32(n: nat)
    requires n < U32
    ensures Word32(n % 256, n / 0x100 % 256, n / 0x1_0000 % 256, n / 0x100_0000 % 256) == n
  {
    var a, b, c := n / 256, n / 256 / 256, n / 256 / 256 / 256;
    assert n == 256 * a + n % 256 && a == 256 * b + a % 256 && b == 256 * c + b % 256;
    Quotients(n, b, 256 * (a % 256) + n % 256, c, 0x1_0000 * (b % 256) + 256 * (a % 256) + n % 256);
    assert c % 256 == c;
  }

  lemma Quotients(n: nat, b: nat, r: nat, c: nat, s: nat)
    ensures n == 0x1_0000 * b + r && r < 0x1_0000 ==> n / 0x1_0000 == b
    ensures n == 0x100_0000 * c + s && s < 0x100_0000 ==> n / 0x100_0000 == c
  {
  }

  lemma Fixed64RoundTrip(n: nat, y: seq<byte>)
    requires n < U64
    ensures DecFixed64(EncFixed64(n) + y) == Ok(n, y)
  {
    hide EncFixed32, DecFixed32;
    var lo, hi := EncFixed32(n % U32), EncFixed32(n / U32);
    var bs := EncFixed64(n) + y;
    assert bs == lo + (hi + y);
    assert bs[4..] == hi + y;
    assert bs[8..] == y;
    Fixed32RoundTrip(n % U32, hi + y);
    Fixed32RoundTrip(n / U32, y);
  }

  // ---- Readers look only at what they consume ----

  ghost predicate Extends<T(!new)>(p: Parsed<T>, q: Parsed<T>, y: seq<byte>) {
    p.Ok? ==> q == Ok(p.val, p.rest + y)
  }

  lemma {:induction false} DecVarintLocal(bs: seq<byte>, y: seq<byte>, p: nat, acc: nat)
    ensures Extends(DecVarintFrom(bs, p, acc), DecVarintFrom(bs + y, p, acc), y)
  {
    hide BitOr, Shl;
    if DecVarintFrom(bs, p, acc).Ok? {
      assert (bs + y)[1..] == bs[1..] + y;
      if bs[0] >= 128 {
        DecVarintLocal(bs[1..], y, p + 7, BitOr(acc, Shl(bs[0] % 128, p) % U64));
      }
    }
  }

  lemma {:induction false} DecVarint32FromLocal(bs: seq<byte>, y: seq<byte>, p: nat, result: nat)
    ensures Extends(DecVarint32From(bs, p, result), DecVarint32From(bs + y, p, result), y)
  {
    hide BitOr, Shl, NextBitpos, Overflows32;
    if DecVarint32From(bs, p, result).Ok? {
      assert (bs + y)[1..] == bs[1..] + y;
      if bs[0] >= 128 {
        DecVarint32FromLocal(bs[1..], y, NextBitpos(p),
          if p >= 32 then result else BitOr(result, Shl(bs[0] % 128, p) % U32));
      }
    }
  }

  lemma DecVarint32Local(bs: seq<byte>, y: seq<byte>)
    ensures Extends(DecVarint32(bs), DecVarint32(bs + y), y)
  {
    if bs != [] {
      assert (bs + y)[1..] == bs[1..] + y;
      DecVarint32FromLocal(bs[1..], y, 7, bs[0] % 128);
    }
  }

  lemma TakeLocal(bs: seq<byte>, y: seq<byte>, n: nat)
    ensures Extends(Take(bs, n), Take(bs + y, n), y)
  {
    if n <= |bs| {
      assert (bs + y)[..n] == bs[..n] && (bs + y)[n..] == bs[n..] + y;
    }
  }

  lemma DecStringLocal(bs: seq<byte>, y: seq<byte>)
    ensures Extends(DecString(bs), DecString(bs + y), y)
  {
    hide DecVarint32;
    DecVarint32Local(bs, y);
    if DecString(bs).Ok? {
      TakeLocal(DecVarint32(bs).rest, y, DecVarint32(bs).val);
    }
  }

  lemma {:induction false} SkipVarintLocal(bs: seq<byte>, y: seq<byte>)
    ensures Extends(SkipVarint(bs), SkipVarint(bs + y), y)
  {
    if bs != [] {
      assert (bs + y)[1..] == bs[1..] + y;
      if bs[0] >= 128 {
        SkipVarintLocal(bs[1..], y);
      }
    }
  }

  lemma SkipFieldLocal(wt: nat, bs: seq<byte>, y: seq<byte>)
    ensures Extends(SkipField(wt, bs), SkipField(wt, bs + y), y)
  {
    hide DecString, SkipVarint;
    SkipVarintLocal(bs, y);
    DecStringLocal(bs, y);
    TakeLocal(bs, y, 8);
    TakeLocal(bs, y, 4);
  }

  lemma DecTagLocal(bs: seq<byte>, y: seq<byte>)
    ensures DecTag(bs).Tag? ==> DecTag(bs + y) == DecTag(bs).(rest := DecTag(bs).rest + y)
    ensures DecTag(bs).End? && bs != [] ==>
      DecTag(bs + y) == End(DecTag(bs).rest + y)
  {
    hide DecVarint32From;
    DecVarint32Local(bs, y);
  }

  // ---- What the encoder writes, read back ----

  lemma TagRoundTrip(wt: nat, tag: nat, y: seq<byte>)
    requires wt < 8 && 1 <= tag < 0x2000_0000
    ensures DecTag(EncTag(wt, tag) + y) == Tag(wt, tag, y)
  {
    hide EncVarint, DecVarint32;
    Varint32OfEncoded(8 * tag + wt, y);
  }

  lemma StringRoundTrip(data: seq<byte>, y: seq<byte>)
    requires |data| < U32
    ensures DecString(EncString(data) + y) == Ok(data, y)
  {
    hide EncVarint, DecVarint32;
    Varint32OfEncoded(|data|, data + y);
    assert EncString(data) + y == EncVarint(|data|) + (data + y);
    assert (data + y)[..|data|] == data && (data + y)[|data|..] == y;
  }

  lemma {:induction false} SkipEncodedVarint(v: nat, y: seq<byte>)
    ensures SkipVarint(EncVarint(v) + y) == Ok((), y)
  {
    var bs := EncVarint(v) + y;
    if v < 128 {
      assert bs[1..] == y;
    } else {
      assert bs[1..] == EncVarint(v / 128) + y;
      SkipEncodedVarint(v / 128, y);
    }
  }
}
