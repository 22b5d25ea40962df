/** Unsigned machine words as natural numbers, with their bits spelled out.

    `And` and `Or` are the machine operators, defined digit by digit; `v << k` is
    `v * Pow2(k)`.  The intrinsics `count_ones`, `trailing_zeros` and `leading_zeros` are
    specified through single bits.  The lemmas say what the word tricks of the domain
    tree, `w & (w - 1)`, `w & ((1 << k) - 1)` and `w | (1 << k)`, do to bits and counts.
 */
module Words {

  function Pow2(k: nat): (p: nat)
    ensures p > 0
  {
    if k == 0 then 1 else 2 * Pow2(k - 1)
  }

  const U32: nat := 0x1_0000_0000
  const U64: nat := 0x1_0000_0000_0000_0000

  type Word = w: nat | w < U64

  function And(a: nat, b: nat): nat
    decreases a
  {
    if a == 0 || b == 0 then 0
    else (if a % 2 == 1 && b % 2 == 1 then 1 else 0) + 2 * And(a / 2, b / 2)
  }

  function Or(a: nat, b: nat): nat
    decreases a + b
  {
    if a == 0 && b == 0 then 0
    else (if a % 2 == 1 || b % 2 == 1 then 1 else 0) + 2 * Or(a / 2, b / 2)
  }

  /** Bit `k` of `w`; `MaskTest` ties it to the test `w & (1 << k) != 0`. */
  predicate Bit(w: nat, k: nat)
  {
    if k == 0 then w % 2 == 1 else Bit(w / 2, k - 1)
  }

  /** The number of set bits of `w` below position `k`. */
  function CountBelow(w: nat, k: nat): (n: nat)
    ensures n <= k
  {
    if k == 0 then 0 else CountBelow(w, k - 1) + if Bit(w, k - 1) then 1 else 0
  }

  /** `count_ones`. */
  function CountOnes(w: Word): (n: nat)
    ensures n <= 64
  {
    CountBelow(w, 64)
  }

  /** The first set bit at or above `k`, or 64. */
  function NextBit(w: Word, k: nat): (t: nat)
    requires k <= 64
    ensures k <= t <= 64
    ensures t < 64 ==> Bit(w, t)
    ensures forall j :: k <= j < t ==> !Bit(w, j)
    decreases 64 - k
  {
    if k == 64 || Bit(w, k) then k else NextBit(w, k + 1)
  }

  /** `trailing_zeros`. */
  function TrailingZeros(w: Word): (t: nat)
    ensures t <= 64
  {
    NextBit(w, 0)
  }

  /** One more than the last set bit below `k`, or 0. */
  function LengthBelow(w: Word, k: nat): (n: nat)
    requires k <= 64
    ensures n <= k
    ensures n > 0 ==> Bit(w, n - 1)
    ensures forall j :: n <= j < k ==> !Bit(w, j)
  {
    if k == 0 || Bit(w, k - 1) then k else LengthBelow(w, k - 1)
  }

  /** `leading_zeros`. */
  function LeadingZeros(w: Word): (z: nat)
    ensures z <= 64
  {
    64 - LengthBelow(w, 64)
  }

  // ----- single bits

  lemma {:induction false} Pow2Add(j: nat, k: nat)
    ensures Pow2(j + k) == Pow2(j) * Pow2(k)
  {
    if j > 0 {
      Pow2Add(j - 1, k);
    }
  }

  lemma {:induction false} Pow2Monotone(j: nat, k: nat)
    requires j <= k
    ensures Pow2(j) <= Pow2(k)
  {
    if j < k {
      Pow2Monotone(j, k - 1);
    }
  }

  lemma Pow2Words()
    ensures Pow2(32) == U32 && Pow2(64) == U64
  {
    assert Pow2(4) == 16;
    Pow2Square(4, 16);
    Pow2Square(8, 256);
    Pow2Square(16, 0x1_0000);
    Pow2Square(32, U32);
  }

  lemma Pow2Square(k: nat, p: nat)
    requires Pow2(k) == p
    ensures Pow2(2 * k) == p * p
  {
    Pow2Add(k, k);
  }

  lemma Pow2Below(k: nat)
    requires Pow2(k) < U64
    ensures k < 64
  {
    Pow2Words();
    if k >= 64 {
      Pow2Monotone(64, k);
    }
  }

  /** Bits at or above the width are clear. */
  lemma {:induction false} HighBitsClear(w: nat, n: nat, k: nat)
    requires w < Pow2(n) && n <= k
    ensures !Bit(w, k)
    decreases k
  {
    if k > 0 {
      HighBitsClear(w / 2, if n == 0 then 0 else n - 1, k - 1);
    }
  }

  lemma {:induction false} SomeBit(w: nat) returns (k: nat)
    requires w != 0
    ensures Bit(w, k)
  {
    if w % 2 == 1 {
      k := 0;
    } else {
      k := SomeBit(w / 2);
      k := k + 1;
    }
  }

  lemma {:induction false} NoBits(k: nat)
    ensures !Bit(0, k)
  {
    if k > 0 {
      NoBits(k - 1);
    }
  }

  /** A word is zero exactly when no bit below 64 is set. */
  lemma ZeroWord(w: Word)
    ensures (w == 0) == (TrailingZeros(w) == 64)
    ensures (w == 0) == (LengthBelow(w, 64) == 0)
  {
    if w == 0 {
      forall k: nat | k < 64
        ensures !Bit(w, k)
      {
        NoBits(k);
      }
    } else {
      var k := SomeBit(w);
      Pow2Words();
      if k >= 64 {
        HighBitsClear(w, 64, k);
      }
    }
  }

  lemma {:induction false} AndBit(a: nat, b: nat, k: nat)
    ensures Bit(And(a, b), k) == (Bit(a, k) && Bit(b, k))
    decreases k
  {
    if a == 0 || b == 0 {
      NoBits(k);
    } else if k > 0 {
      AndBit(a / 2, b / 2, k - 1);
    }
  }

  lemma {:induction false} OrBit(a: nat, b: nat, k: nat)
    ensures Bit(Or(a, b), k) == (Bit(a, k) || Bit(b, k))
    decreases k
  {
    if a == 0 && b == 0 {
      NoBits(k);
    } else if k > 0 {
      OrBit(a / 2, b / 2, k - 1);
    }
  }

  lemma {:induction false} AndBound(a: nat, b: nat)
    ensures And(a, b) <= a && And(a, b) <= b
  {
    if a != 0 && b != 0 {
      AndBound(a / 2, b / 2);
    }
  }

  lemma {:induction false} OrBound(a: nat, b: nat, n: nat)
    requires a < Pow2(n) && b < Pow2(n)
    ensures Or(a, b) < Pow2(n)
    decreases n
  {
    if a != 0 || b != 0 {
      OrBound(a / 2, b / 2, n - 1);
    }
  }

  /** `1 << j` has the single bit `j`. */
  lemma {:induction false} OneBit(j: nat, k: nat)
    ensures Bit(Pow2(j), k) == (j == k)
  {
    if j == 0 {
      if k > 0 {
        NoBits(k - 1);
      }
    } else if k > 0 {
      OneBit(j - 1, k - 1);
    }
  }

  /** `(1 << j) - 1` has exactly the bits below `j`. */
  lemma {:induction false} MaskBit(j: nat, k: nat)
    ensures Bit(Pow2(j) - 1, k) == (k < j)
  {
    if j == 0 {
      NoBits(k);
    } else if k > 0 {
      assert (Pow2(j) - 1) / 2 == Pow2(j - 1) - 1;
      MaskBit(j - 1, k - 1);
    }
  }

  /** The source's bit test. */
  lemma MaskTest(w: nat, k: nat)
    ensures (And(w, Pow2(k)) != 0) == Bit(w, k)
  {
    AndBit(w, Pow2(k), k);
    OneBit(k, k);
    if And(w, Pow2(k)) != 0 {
      var j := SomeBit(And(w, Pow2(k)));
      AndBit(w, Pow2(k), j);
      OneBit(k, j);
    } else {
      NoBits(k);
    }
  }

  /** `w & (w - 1)` clears the lowest set bit and no other. */
  lemma {:induction false} ClearLowest(w: nat, t: nat, k: nat)
    requires Bit(w, t) && forall j: nat :: j < t ==> !Bit(w, j)
    ensures w > 0
    ensures Bit(And(w, w - 1), k) == (Bit(w, k) && k != t)
    decreases k
  {
    if w == 0 {
      NoBits(t);
    }
    AndBit(w, w - 1, k);
    LowerByOne(w, t, k);
  }

  /** Subtracting one clears the lowest set bit `t`, sets those below and keeps those above. */
  lemma {:induction false} LowerByOne(w: nat, t: nat, k: nat)
    requires w > 0 && Bit(w, t) && forall j: nat :: j < t ==> !Bit(w, j)
    ensures Bit(w - 1, k) == (if k <= t then k < t else Bit(w, k))
    decreases k
  {
    if t == 0 {
      assert (w - 1) / 2 == w / 2;
    } else {
      assert !Bit(w, 0);
      assert (w - 1) / 2 == w / 2 - 1;
      if k > 0 {
        forall j: nat | j < t - 1
          ensures !Bit(w / 2, j)
        {
          assert !Bit(w, j + 1);
        }
        LowerByOne(w / 2, t - 1, k - 1);
      }
    }
  }

  // ----- counting bits

  lemma {:induction false} CountMasked(w: nat, j: nat, k: nat)
    ensures CountBelow(And(w, Pow2(j) - 1), k) == CountBelow(w, if k < j then k else j)
  {
    if k > 0 {
      CountMasked(w, j, k - 1);
      AndBit(w, Pow2(j) - 1, k - 1);
      MaskBit(j, k - 1);
    }
  }

  lemma {:induction false} CountNone(w: nat, k: nat)
    requires forall j :: 0 <= j < k ==> !Bit(w, j)
    ensures CountBelow(w, k) == 0
  {
    if k > 0 {
      CountNone(w, k - 1);
    }
  }

  /** Above the lowest set bit, clearing it lowers every count by one. */
  lemma {:induction false} CountCleared(w: nat, t: nat, k: nat)
    requires Bit(w, t) && forall j: nat :: j < t ==> !Bit(w, j)
    ensures w > 0
    ensures CountBelow(And(w, w - 1), k) == CountBelow(w, k) - if t < k then 1 else 0
  {
    ClearLowest(w, t, t);
    if k > 0 {
      CountCleared(w, t, k - 1);
      ClearLowest(w, t, k - 1);
    }
  }
}
