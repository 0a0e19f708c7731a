/**
  The bitmap of required fields in pb_decode_noinit: two 32-bit words that stand for a set.
 */
module Bitmap {
  import opened Words

  const ALL_BITS: nat := U32 - 1

  /** Bit k of a word */
  predicate Bit(w: nat, k: nat) {
    if k == 0 then w % 2 == 1 else Bit(w / 2, k - 1)
  }

  /** w >> n */
  function Shr(w: nat, n: nat): nat {
    if n == 0 then w else Shr(w / 2, n - 1)
  }

  lemma OrHalves(a: nat, b: nat)
    ensures BitOr(a, b) / 2 == BitOr(a / 2, b / 2)
    ensures BitOr(a, b) % 2 == 1 <==> a % 2 == 1 || b % 2 == 1
  {
  }

  /** BitOr is bitwise or. */
  lemma {:induction false} BitOfOr(a: nat, b: nat, k: nat)
    ensures Bit(BitOr(a, b), k) <==> Bit(a, k) || Bit(b, k)
    decreases k
  {
    hide BitOr;
    OrHalves(a, b);
    if k > 0 {
      BitOfOr(a / 2, b / 2, k - 1);
    }
  }

  lemma BitInserted(a: nat, i: nat, k: nat)
    ensures Bit(BitOr(a, Shl(1, i)), k) <==> Bit(a, k) || k == i
  {
    hide Bit, BitOr, Shl;
    BitOfOr(a, Shl(1, i), k);
    BitOfShl(i, k);
  }

  lemma {:induction false} BitOfShl(i: nat, k: nat)
    ensures Bit(Shl(1, i), k) <==> k == i
    decreases i
  {
    if i == 0 {
      if k > 0 {
        BitOfZero(k - 1);
      }
    } else if k > 0 {
      BitOfShl(i - 1, k - 1);
    }
  }

  lemma {:induction false} BitOfZero(k: nat)
    ensures !Bit(0, k)
  {
    if k > 0 {
      BitOfZero(k - 1);
    }
  }

  lemma {:induction false} BitOfOnes(n: nat, k: nat)
    ensures Shl(1, n) >= 1
    ensures Bit(Shl(1, n) - 1, k) <==> k < n
    decreases n
  {
    if n == 0 {
      BitOfZero(k);
    } else {
      BitOfOnes(n - 1, if k > 0 then k - 1 else 0);
    }
  }

  /** Words below 2^n with the same bits are the same. */
  lemma {:induction false} SameBits(a: nat, b: nat, n: nat)
    requires a < Shl(1, n) && b < Shl(1, n)
    requires forall k: nat | k < n :: Bit(a, k) == Bit(b, k)
    ensures a == b
    decreases n
  {
    if n > 0 {
      forall k: nat | k < n - 1
        ensures Bit(a / 2, k) == Bit(b / 2, k)
      {
        assert Bit(a, k + 1) == Bit(b, k + 1);
      }
      SameBits(a / 2, b / 2, n - 1);
      assert Bit(a, 0) == Bit(b, 0);
    }
  }

  lemma {:induction false} ShrOnes(m: nat, j: nat)
    requires j <= m
    ensures Shl(1, m) >= 1 && Shr(Shl(1, m) - 1, j) == Shl(1, m - j) - 1
    decreases j
  {
    BitOfOnes(m, 0);
    if j > 0 {
      ShrOnes(m - 1, j - 1);
      assert (Shl(1, m) - 1) / 2 == Shl(1, m - 1) - 1;
    }
  }

  // ---- Two words for a set ----

  function WordBit(w0: nat, w1: nat, k: nat): bool {
    if k < 32 then Bit(w0, k) else Bit(w1, k - 32)
  }

  /** The words hold exactly the members of the set, all of which are below 64. */
  ghost predicate Represents(w0: nat, w1: nat, seen: set<nat>) {
    && w0 < U32 && w1 < U32
    && (forall k: nat | k in seen :: k < 64)
    && (forall k: nat | k < 64 :: k in seen <==> WordBit(w0, w1, k))
  }

  lemma RepresentsEmpty()
    ensures Represents(0, 0, {})
  {
    forall k: nat | k < 64
      ensures !WordBit(0, 0, k)
    {
      BitOfZero(if k < 32 then k else k - 32);
    }
  }

  lemma Shl32()
    ensures Shl(1, 32) == U32
  {
    ShlWord(1);
  }

  lemma {:induction false} ShlBelow(i: nat, n: nat)
    requires i < n
    ensures Shl(1, i) < Shl(1, n)
    decreases n
  {
    if i > 0 {
      ShlBelow(i - 1, n - 1);
    } else {
      ShlLinear(1, 1, 2, n - 1);
    }
  }

  /** Setting bit index & 31 of word index >> 5 inserts the index. */
  lemma RepresentsInsert(w0: nat, w1: nat, seen: set<nat>, index: nat)
    requires Represents(w0, w1, seen) && index < 64
    ensures var w := BitOr(if index < 32 then w0 else w1, Shl(1, index % 32));
      Represents(if index < 32 then w else w0, if index < 32 then w1 else w, seen + {index})
  {
    hide Bit, BitOr, Shl;
    var word, i := if index < 32 then w0 else w1, index % 32;
    Shl32();
    ShlBelow(i, 32);
    OrBound(word, Shl(1, i), 32);
    forall k: nat | k < 32
      ensures Bit(BitOr(word, Shl(1, i)), k) <==> Bit(word, k) || k == i
    {
      BitInserted(word, i, k);
    }
  }

  lemma WholeWord(w: nat)
    requires w < U32
    ensures w == ALL_BITS ==> forall k: nat | k < 32 :: Bit(w, k)
    ensures (forall k: nat | k < 32 :: Bit(w, k)) ==> w == ALL_BITS
  {
    hide Shl;
    Shl32();
    ShrOnes(32, 0);
    PartWord(w, 32);
  }

  /** A word whose bits from n on are clear holds the low n bits exactly when it is their mask. */
  lemma PartWord(w: nat, n: nat)
    requires w < U32 && n <= 32 && forall k: nat | n <= k < 32 :: !Bit(w, k)
    ensures w == Shr(ALL_BITS, 32 - n) ==> forall k: nat | k < n :: Bit(w, k)
    ensures (forall k: nat | k < n :: Bit(w, k)) ==> w == Shr(ALL_BITS, 32 - n)
  {
    hide Shl;
    Shl32();
    ShrOnes(32, 32 - n);
    var mask := Shl(1, n) - 1;
    assert mask < U32 by {
      if n < 32 {
        ShlBelow(n, 32);
      }
    }
    forall k: nat | k < 32
      ensures Bit(mask, k) <==> k < n
    {
      BitOfOnes(n, k);
    }
    assert Shr(ALL_BITS, 32 - n) == mask;
    if w == mask {
      forall k: nat | k < n
        ensures Bit(w, k)
      {
        assert Bit(mask, k);
      }
    }
    if forall k: nat | k < n :: Bit(w, k) {
      forall k: nat | k < 32
        ensures Bit(w, k) == Bit(mask, k)
      {
      }
      SameBits(w, mask, 32);
    }
  }

  /** Whether the bits below count are set: whole words first, then the bits that are left */
  method AllSeen(fieldsSeen: array<nat>, count: nat, ghost seen: set<nat>) returns (present: bool)
    requires fieldsSeen.Length == 2 && Represents(fieldsSeen[0], fieldsSeen[1], seen)
    requires count <= 64 && (count > 0 ==> forall k | k in seen :: k < count)
    ensures present <==> forall k: nat | k < count :: k in seen
  {
    hide Bit, Shl;
    if count == 0 {
      return true;
    }
    WholeWord(fieldsSeen[0]);
    WholeWord(fieldsSeen[1]);
    for i := 0 to count / 32
      invariant forall k: nat | k < 32 * i :: k in seen
    {
      if fieldsSeen[i] != ALL_BITS {
        MissingInWord(fieldsSeen[0], fieldsSeen[1], seen, i, count);
        return false;
      }
      assert forall k: nat | k < 32 :: Bit(fieldsSeen[i], k);
      assert forall k: nat | 32 * i <= k < 32 * i + 32 :: k in seen by {
        forall k: nat | 32 * i <= k < 32 * i + 32
          ensures k in seen
        {
          assert WordBit(fieldsSeen[0], fieldsSeen[1], k) == Bit(fieldsSeen[i], k - 32 * i);
        }
      }
    }
    var rest := count % 32;
    if rest != 0 {
      var w := count / 32;
      RestOfWord(fieldsSeen[0], fieldsSeen[1], seen, w, count);
      if fieldsSeen[w] != Shr(ALL_BITS, 32 - rest) {
        return false;
      }
    }
    present := true;
  }

  lemma MissingInWord(w0: nat, w1: nat, seen: set<nat>, i: nat, count: nat)
    requires Represents(w0, w1, seen) && i < count / 32 && count <= 64
    requires (if i == 0 then w0 else w1) != ALL_BITS
    ensures exists k: nat :: k < count && k !in seen
  {
    hide Bit;
    var w := if i == 0 then w0 else w1;
    WholeWord(w);
    var k: nat :| k < 32 && !Bit(w, k);
    assert !WordBit(w0, w1, 32 * i + k);
  }

  lemma RestOfWord(w0: nat, w1: nat, seen: set<nat>, i: nat, count: nat)
    requires Represents(w0, w1, seen) && i == count / 32 && count % 32 != 0 && count < 64
    requires forall k | k in seen :: k < count
    ensures var w := if i == 0 then w0 else w1;
      w == Shr(ALL_BITS, 32 - count % 32) <==> forall k: nat | 32 * i <= k < count :: k in seen
  {
    var w, n := if i == 0 then w0 else w1, count % 32;
    forall k: nat | k < 32
      ensures Bit(w, k) <==> 32 * i + k in seen
    {
      assert WordBit(w0, w1, 32 * i + k) == Bit(w, k);
    }
    PartWord(w, n);
    if forall k: nat | k < n :: Bit(w, k) {
      forall k: nat | 32 * i <= k < count
        ensures k in seen
      {
        assert Bit(w, k - 32 * i);
      }
    }
    if forall k: nat | 32 * i <= k < count :: k in seen {
      forall k: nat | k < n
        ensures Bit(w, k)
      {
        assert 32 * i + k in seen;
      }
    }
  }
}
