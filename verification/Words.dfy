/**
  Machine words as natural numbers: the bit operations the codec uses, written arithmetically.
 */
module Words {
  const U32: nat := 0x1_0000_0000
  const U64: nat := 0x1_0000_0000_0000_0000

  /** x << n, without truncation */
  function Shl(x: nat, n: nat): nat {
    if n == 0 then x else 2 * Shl(x, n - 1)
  }

  /** a | b */
  function BitOr(a: nat, b: nat): nat {
    if a == 0 then b
    else (if a % 2 == 1 || b % 2 == 1 then 1 else 0) + 2 * BitOr(a / 2, b / 2)
  }

  lemma {:induction false} ShlLinear(x: nat, y: nat, k: nat, n: nat)
    ensures Shl(x + y, n) == Shl(x, n) + Shl(y, n)
    ensures k == 2 || k == 128 ==> Shl(k * x, n) == k * Shl(x, n)
    ensures x <= y ==> Shl(x, n) <= Shl(y, n)
    ensures x <= Shl(x, n)
  {
    if n > 0 {
      ShlLinear(x, y, k, n - 1);
    }
  }

  lemma Shl7(x: nat, n: nat)
    ensures Shl(x, n + 7) == 128 * Shl(x, n) == Shl(128 * x, n)
  {
    assert Shl(x, n + 2) == 4 * Shl(x, n);
    assert Shl(x, n + 4) == 4 * Shl(x, n + 2);
    assert Shl(x, n + 6) == 4 * Shl(x, n + 4);
    ShlLinear(x, x, 128, n);
  }

  /** The shifts at the bit positions a varint can reach. */
  lemma ShlTable(x: nat)
    ensures Shl(x, 0) == x && Shl(x, 7) == 0x80 * x && Shl(x, 14) == 0x4000 * x
    ensures Shl(x, 21) == 0x20_0000 * x && Shl(x, 28) == 0x1000_0000 * x
    ensures Shl(x, 35) == 0x8_0000_0000 * x && Shl(x, 42) == 0x400_0000_0000 * x
    ensures Shl(x, 49) == 0x2_0000_0000_0000 * x && Shl(x, 56) == 0x100_0000_0000_0000 * x
    ensures Shl(x, 63) == 0x8000_0000_0000_0000 * x
  {
    Shl7(x, 0); Shl7(x, 7); Shl7(x, 14); Shl7(x, 21); Shl7(x, 28);
    Shl7(x, 35); Shl7(x, 42); Shl7(x, 49); Shl7(x, 56);
  }

  lemma {:induction false} ShlSplit(x: nat, n: nat, k: nat)
    ensures Shl(x, n + k) == Shl(Shl(x, n), k)
  {
    if k > 0 {
      ShlSplit(x, n, k - 1);
    }
  }

  lemma ShlWord(x: nat)
    ensures Shl(x, 28) == 0x1000_0000 * x
    ensures Shl(x, 32) == U32 * x
    ensures Shl(x, 63) == 0x8000_0000_0000_0000 * x
  {
    ShlTable(x);
    assert Shl(x, 30) == 4 * Shl(x, 28);
  }

  lemma ShlBytes(x: nat)
    ensures Shl(x, 8) == 0x100 * x && Shl(x, 16) == 0x1_0000 * x && Shl(x, 24) == 0x100_0000 * x
    ensures Shl(x, 32) == 0x1_0000_0000 * x && Shl(x, 40) == 0x100_0000_0000 * x
    ensures Shl(x, 48) == 0x1_0000_0000_0000 * x && Shl(x, 56) == 0x100_0000_0000_0000 * x
  {
    Shl7(x, 1); Shl7(x, 9); Shl7(x, 17); Shl7(x, 25); Shl7(x, 33); Shl7(x, 41); Shl7(x, 49);
  }

  /** OR-ing in one more byte above the bits that are there */
  lemma OrByte(acc: nat, b: nat, p: nat)
    requires acc < Shl(1, p) && b < 256
    ensures BitOr(acc, Shl(b, p)) == acc + Shl(b, p) < Shl(1, p + 8)
  {
    OrDisjoint(acc, b, p);
    ShlLinear(b, 255, 2, p);
    ShlLinear(1, 255, 2, p);
    Shl7(1, p + 1);
    Shl7(1, p);
  }

  lemma Remainder32(r: nat, q: nat)
    ensures (U32 * q + r) % U32 == r % U32
    ensures r < U32 ==> r % U32 == r
  {
  }

  lemma Remainder64(r: nat, q: nat)
    ensures (U64 * q + r) % U64 == r % U64
    ensures r < U64 ==> r % U64 == r
  {
  }

  /** OR of a value below 2^p with a multiple of 2^p is their sum. */
  lemma {:induction false} OrDisjoint(a: nat, x: nat, p: nat)
    requires a < Shl(1, p)
    ensures BitOr(a, Shl(x, p)) == a + Shl(x, p)
    decreases p
  {
    if a != 0 {
      assert Shl(x, p) == 2 * Shl(x, p - 1);
      OrDisjoint(a / 2, x, p - 1);
    }
  }

  lemma {:induction false} OrBound(a: nat, b: nat, p: nat)
    requires a < Shl(1, p) && b < Shl(1, p)
    ensures a <= BitOr(a, b) < Shl(1, p)
    decreases p
  {
    if a != 0 {
      OrBound(a / 2, b / 2, p - 1);
    }
  }

  /** Two's complement reading of v modulo m, m being 2 to the number of bits. */
  function Signed(v: int, m: int): int
    requires m > 0
  {
    if 2 * (v % m) >= m then v % m - m else v % m
  }
}
