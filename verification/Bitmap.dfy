/** Rank and select over a sequence of bits: the meaning of the sampled indexes. */
module Bitmap {

  type Bits = seq<bool>

  /** Bit `i`; bits past the end read as zero. */
  predicate At(b: Bits, i: nat) {
    i < |b| && b[i]
  }

  /** The number of ones below position `i`. */
  function Rank(b: Bits, i: nat): (n: nat)
    ensures n <= i
  {
    if i == 0 then 0 else Rank(b, i - 1) + if At(b, i - 1) then 1 else 0
  }

  /** The number of zeros below position `i`. */
  function Zeros(b: Bits, i: nat): nat {
    i - Rank(b, i)
  }

  function Ones(b: Bits): nat {
    Rank(b, |b|)
  }

  /** Position `p` holds the `i`-th one, counting from zero. */
  predicate IsSelect(b: Bits, i: nat, p: nat) {
    At(b, p) && Rank(b, p) == i
  }

  lemma {:induction false} RankMonotone(b: Bits, i: nat, j: nat)
    requires i <= j
    ensures Rank(b, i) <= Rank(b, j) <= Rank(b, i) + (j - i)
  {
    if i < j {
      RankMonotone(b, i, j - 1);
    }
  }

  /** Rank only looks at the bits below. */
  lemma {:induction false} RankPrefix(a: Bits, b: Bits, i: nat)
    requires forall p: nat :: p < i ==> At(a, p) == At(b, p)
    ensures Rank(a, i) == Rank(b, i)
  {
    if i > 0 {
      RankPrefix(a, b, i - 1);
    }
  }

  lemma {:induction false} RankPastEnd(b: Bits, i: nat)
    requires i >= |b|
    ensures Rank(b, i) == Ones(b)
  {
    if i > |b| {
      RankPastEnd(b, i - 1);
    }
  }

  lemma RankBelowOnes(b: Bits, p: nat)
    requires At(b, p)
    ensures Rank(b, p) < Ones(b)
  {
    RankMonotone(b, p + 1, |b|);
  }

  /** Ranks of set bits are ordered as the bits are. */
  lemma SelectUnique(b: Bits, p: nat, q: nat)
    requires At(b, p) && At(b, q)
    ensures Rank(b, p) == Rank(b, q) <==> p == q
    ensures Rank(b, p) < Rank(b, q) <==> p < q
  {
    if p < q {
      RankMonotone(b, p + 1, q);
    } else if q < p {
      RankMonotone(b, q + 1, p);
    }
  }

  // ----- select

  /** The place of the `i`-th one at or after `from`, found by walking. */
  function SelectFrom(b: Bits, i: nat, from: nat): (p: nat)
    requires from <= |b| && Rank(b, from) <= i < Ones(b)
    ensures p >= from && IsSelect(b, i, p)
    decreases |b| - from
  {
    if At(b, from) && Rank(b, from) == i then from else SelectFrom(b, i, from + 1)
  }

  function Select(b: Bits, i: nat): (p: nat)
    requires i < Ones(b)
    ensures IsSelect(b, i, p)
  {
    SelectFrom(b, i, 0)
  }

  /** Rank and select invert each other. */
  lemma RankSelectInverse(b: Bits, i: nat, p: nat)
    ensures i < Ones(b) ==> Rank(b, Select(b, i)) == i
    ensures At(b, p) ==> Rank(b, p) < Ones(b) && Select(b, Rank(b, p)) == p
  {
    if At(b, p) {
      RankBelowOnes(b, p);
      SelectUnique(b, p, Select(b, Rank(b, p)));
    }
  }

  /** The last one. */
  function Last(b: Bits): (p: nat)
    requires Ones(b) > 0
    ensures At(b, p)
  {
    Select(b, Ones(b) - 1)
  }

  lemma LastIsLast(b: Bits, p: nat)
    requires At(b, p)
    ensures Ones(b) > 0 && p <= Last(b)
  {
    RankBelowOnes(b, p);
    SelectUnique(b, p, Last(b));
  }
}
