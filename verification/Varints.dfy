/**
  Varints written out, as numbers to the base 128: what the encoder emits, and what each of the two
  decoders accepts and returns.
 */
module Varints {
  import opened Words
  import opened Wire
  import opened WireProperties

  // ---- Varints ----

  /** Bytes with the top bit set, and a last one without */
  predicate IsVarint(w: seq<byte>) {
    w != [] && w[|w| - 1] < 128 && forall k | 0 <= k < |w| - 1 :: w[k] >= 128
  }

  /** The number they stand for: seven bits each, the lowest first */
  function VarintValue(w: seq<byte>): nat {
    if w == [] then 0 else w[0] % 128 + 128 * VarintValue(w[1..])
  }

  lemma VarintTail(w: seq<byte>, y: seq<byte>)
    requires IsVarint(w)
    ensures w != [] && (w[0] >= 128 <==> |w| > 1)
    ensures if |w| > 1 then IsVarint(w[1..]) else w[1..] == []
    ensures (w + y)[0] == w[0] && (w + y)[1..] == w[1..] + y
  {
  }

  /** The encoder's bytes are the varint of the value, without padding. */
  lemma {:induction false} EncodesVarint(v: nat)
    ensures var w := EncVarint(v);
      && IsVarint(w) && VarintValue(w) == v
      && (|w| > 1 ==> w[|w| - 1] != 0)
  {
    var w := EncVarint(v);
    if v < 128 {
      assert w == [v] && w[1..] == [];
      assert VarintValue([]) == 0;
    } else {
      EncodesVarint(v / 128);
      assert w[1..] == EncVarint(v / 128);
      assert forall k | 0 <= k < |w| - 1 :: w[k] == if k == 0 then 128 + v % 128 else w[1..][k - 1];
      assert w[|w| - 1] == w[1..][|w| - 2];
    }
  }

  lemma LastShift(d: nat, acc: nat)
    requires d < 128 && acc < Shl(1, 63)
    ensures BitOr(acc, Shl(d, 63) % U64) == (acc + Shl(d, 63)) % U64
  {
    hide BitOr, Shl;
    ShlWord(d);
    ShlWord(1);
    var e := HighBitsTruncated(d, 63);
    OrDisjoint(acc, e, 63);
    ShlWord(e);
    SumTruncated(acc, Shl(d, 63));
  }

  lemma SumTruncated(acc: nat, x: nat)
    requires acc < 0x8000_0000_0000_0000 && x % 0x8000_0000_0000_0000 == 0
    ensures (acc + x) % U64 == acc + x % U64
  {
    var q := x / 0x8000_0000_0000_0000;
    assert x == 0x8000_0000_0000_0000 * q;
    if q % 2 == 0 {
      assert x == U64 * (q / 2);
      Remainder64(acc, q / 2);
      Remainder64(0, q / 2);
    } else {
      assert x == U64 * (q / 2) + 0x8000_0000_0000_0000;
      Remainder64(acc + 0x8000_0000_0000_0000, q / 2);
      Remainder64(0x8000_0000_0000_0000, q / 2);
    }
  }

  /** One round of the decoding loop, with the truncation to 64 bits */
  lemma Round(d: nat, p: nat, acc: nat)
    requires d < 128 && p in {0, 7, 14, 21, 28, 35, 42, 49, 56, 63} && acc < Shl(1, p)
    ensures BitOr(acc, Shl(d, p) % U64) == (acc + Shl(d, p)) % U64
    ensures p < 63 ==> BitOr(acc, Shl(d, p) % U64) == acc + Shl(d, p) < Shl(1, p + 7)
  {
    hide BitOr, Shl;
    if p == 63 {
      ShlWord(1);
      LastShift(d, acc);
    } else {
      AddSevenBits(d, p, acc);
      ShlOneMonotone(p + 7, 64 - (p + 7));
      Remainder64(Shl(d, p), 0);
      Remainder64(acc + Shl(d, p), 0);
    }
  }

  lemma DigitSplit(w: seq<byte>, p: nat)
    requires w != []
    ensures Shl(VarintValue(w), p) == Shl(w[0] % 128, p) + Shl(VarintValue(w[1..]), p + 7)
    ensures |w| == 1 ==> Shl(VarintValue(w), p) == Shl(w[0] % 128, p)
  {
    hide Shl;
    SplitSevenBits(VarintValue(w), p);
    assert VarintValue(w) == w[0] % 128 + 128 * VarintValue(w[1..]);
  }

  /** One byte of a varint, decoded */
  lemma OneByte(w: seq<byte>, y: seq<byte>, p: nat, acc: nat)
    requires IsVarint(w) && p < 64
    ensures w != []
    ensures var acc' := BitOr(acc, Shl(w[0] % 128, p) % U64);
      DecVarintFrom(w + y, p, acc) == if |w| > 1 then DecVarintFrom(w[1..] + y, p + 7, acc') else Ok(acc', y)
  {
    hide BitOr, Shl, IsVarint;
    VarintTail(w, y);
    assert |w| == 1 ==> w[1..] + y == y;
  }

  lemma {:induction false} DecodesFrom(w: seq<byte>, y: seq<byte>, p: nat, acc: nat)
    requires IsVarint(w) && p in {0, 7, 14, 21, 28, 35, 42, 49, 56, 63} && p + 7 * |w| <= 70 && acc < Shl(1, p)
    ensures DecVarintFrom(w + y, p, acc) == Ok((acc + Shl(VarintValue(w), p)) % U64, y)
    decreases |w|
  {
    hide BitOr, Shl, IsVarint, VarintValue, DecVarintFrom;
    OneByte(w, y, p, acc);
    var d := w[0] % 128;
    Round(d, p, acc);
    DigitSplit(w, p);
    if |w| > 1 {
      VarintTail(w, y);
      DecodesFrom(w[1..], y, p + 7, acc + Shl(d, p));
    }
  }

  /**
    pb_decode_varint accepts every varint of at most ten bytes, padded ones too, and returns its
    value modulo 2^64.
   */
  lemma DecodesVarint(w: seq<byte>, y: seq<byte>)
    requires IsVarint(w) && |w| <= 10
    ensures DecVarint(w + y) == Ok(VarintValue(w) % 0x1_0000_0000_0000_0000, y)
  {
    hide BitOr, IsVarint;
    DecodesFrom(w, y, 0, 0);
  }

  lemma {:induction false} AcceptsFrom(bs: seq<byte>, p: nat, acc: nat)
    requires p % 7 == 0 && DecVarintFrom(bs, p, acc).Ok?
    ensures var rest := DecVarintFrom(bs, p, acc).rest;
      var n := |bs| - |rest|;
      0 < n && p + 7 * n <= 70 && IsVarint(bs[..n]) && rest == bs[n..]
  {
    hide BitOr, Shl;
    if bs[0] >= 128 {
      AcceptsFrom(bs[1..], p + 7, BitOr(acc, Shl(bs[0] % 128, p) % U64));
      var rest := DecVarintFrom(bs, p, acc).rest;
      var n := |bs| - |rest|;
      assert bs[..n][1..] == bs[1..][..n - 1] && bs[n..] == bs[1..][n - 1..];
      assert forall k | 0 <= k < n - 1 :: bs[..n][k] == if k == 0 then bs[0] else bs[1..][..n - 1][k - 1];
      assert bs[..n][n - 1] == bs[1..][..n - 1][n - 2];
    } else {
      assert bs[..1] == [bs[0]];
    }
  }

  /** It accepts nothing else. */
  lemma AcceptsVarintsOnly(bs: seq<byte>)
    requires DecVarint(bs).Ok?
    ensures var n := |bs| - |DecVarint(bs).rest|;
      0 < n <= 10 && IsVarint(bs[..n]) && DecVarint(bs).rest == bs[n..]
  {
    AcceptsFrom(bs, 0, 0);
  }

  // ---- The 32-bit varint decoder ----

  /** The bytes from bit position p on are padding, or the sign extension of a negative number. */
  predicate HighBytes(w: seq<byte>, p: nat, negative: bool) {
    w == [] || (
      && (w[0] % 128 == 0 || (negative && w[0] == if p < 63 then 0xFF else 0x01))
      && HighBytes(w[1..], p + 7, negative))
  }

  lemma {:induction false} HighFrom(w: seq<byte>, y: seq<byte>, p: nat, result: nat)
    requires IsVarint(w) && p in {35, 42, 49, 56, 63} && p + 7 * |w| <= 70
    ensures DecVarint32From(w + y, p, result).Ok? <==> HighBytes(w, p, result >= 0x8000_0000)
    decreases |w|
  {
    hide BitOr, Shl, IsVarint;
    VarintTail(w, y);
    assert Overflows32(w[0], p, result) <==>
      !(w[0] % 128 == 0 || (result >= 0x8000_0000 && w[0] == if p < 63 then 0xFF else 0x01));
    if |w| > 1 {
      HighFrom(w[1..], y, p + 7, result);
    } else {
      assert w[1..] == [];
    }
  }

  /** The byte at bit position 28 decides: only four of its bits fit. */
  predicate Accepted32(w: seq<byte>, at: nat) {
    |w| <= at
    || (|w| == at + 1 && w[at] < 16)
    || (|w| > at + 1 && HighBytes(w[at + 1..], 35, w[at] % 16 >= 8))
  }

  lemma {:induction false} LowFrom(w: seq<byte>, y: seq<byte>, p: nat, result: nat, at: nat)
    requires IsVarint(w) && p in {7, 14, 21, 28} && p + 7 * at == 28 && p + 7 * |w| <= 70 && result < Shl(1, p)
    ensures DecVarint32From(w + y, p, result).Ok? <==> Accepted32(w, at)
    decreases |w|
  {
    hide BitOr, Shl, IsVarint, HighBytes;
    VarintTail(w, y);
    var d := w[0] % 128;
    Low32Step(d, p, result);
    var result' := BitOr(result, Shl(d, p) % U32);
    if p == 28 {
      assert d % 16 == w[0] % 16;
      if |w| > 1 {
        HighFrom(w[1..], y, 35, result');
      }
    } else if |w| > 1 {
      LowFrom(w[1..], y, p + 7, result', at - 1);
      if |w| > at + 1 {
        assert w[1..][at..] == w[at + 1..];
      }
    }
  }

  /**
    pb_decode_varint32 on every varint of at most ten bytes: what it accepts, and that the result is
    the value modulo 2^32.
   */
  lemma DecodesVarint32(w: seq<byte>, y: seq<byte>)
    requires IsVarint(w) && |w| <= 10
    ensures DecVarint32(w + y) ==
      if Accepted32(w, 4) then Ok(VarintValue(w) % 0x1_0000_0000, y) else Bad
  {
    hide BitOr, IsVarint, HighBytes, DecVarint32From;
    VarintTail(w, y);
    if |w| > 1 {
      SevenBits(w[0] % 128);
      LowFrom(w[1..], y, 7, w[0] % 128, 3);
      if |w| > 5 {
        assert w[1..][4..] == w[5..];
      }
    }
    DecodesVarint(w, y);
    if DecVarint32(w + y).Ok? {
      Varint32RefinesVarint64(w + y);
      Modulo32(VarintValue(w));
    }
  }

  lemma Modulo32(v: nat)
    ensures v % U64 % U32 == v % U32
  {
    var q, r := v / U64, v % U64;
    assert v == U32 * (U32 * q) + r;
    Remainder32(r, U32 * q);
  }

  lemma {:induction false} OrZero(a: nat)
    ensures BitOr(a, 0) == a
  {
    if a != 0 {
      OrZero(a / 2);
    }
  }

  function Padding(n: nat): seq<byte> {
    seq(n, _ => 128)
  }

  /** Padding moves the shift counter on, up to its end. */
  lemma {:induction false} PaddingPassed(n: nat, bs: seq<byte>, p: nat, result: nat)
    requires p + 7 * n < 256
    ensures DecVarint32From(Padding(n) + bs, p, result) == DecVarint32From(bs, p + 7 * n, result)
    decreases n
  {
    hide BitOr, Shl, NextBitpos;
    if n == 0 {
      assert Padding(0) + bs == bs;
    } else {
      assert (Padding(n) + bs)[1..] == Padding(n - 1) + bs;
      ShlZero(p);
      OrZero(result);
      PaddingPassed(n - 1, bs, p + 7, result);
    }
  }

  /**
    Behind 37 bytes of padding an 8-bit shift counter has wrapped around to 3: the next bit counts 8.
    A wider counter has not, and the bit is refused.
   */
  lemma CounterWraps(y: seq<byte>)
    ensures FAST8_MOD == 256 ==> DecVarint32(Padding(37) + ([1] + y)) == Ok(8, y)
    ensures FAST8_MOD > 259 ==> DecVarint32(Padding(37) + ([1] + y)).Bad?
  {
    hide BitOr, Shl, DecVarint32From;
    var bs := [128] + ([1] + y);
    assert (Padding(37) + ([1] + y))[1..] == Padding(35) + bs;
    PaddingPassed(35, bs, 7, 0);
    CounterWrapped(y);
  }

  lemma CounterWrapped(y: seq<byte>)
    ensures FAST8_MOD == 256 ==> DecVarint32From([128] + ([1] + y), 252, 0) == Ok(8, y)
    ensures FAST8_MOD > 259 ==> DecVarint32From([128] + ([1] + y), 252, 0).Bad?
  {
    var bs := [128] + ([1] + y);
    assert bs[1..] == [1] + y && bs[1..][1..] == y;
    assert Shl(1, 3) == 8 && BitOr(0, 8) == 8;
  }
}
