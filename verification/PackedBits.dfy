/** Word arrays read as bit sequences. */
module PackedBits {
  import opened Words
  import opened Bitmap

  function WordBits(w: Word): (b: Bits)
    ensures |b| == 64 && forall k :: 0 <= k < 64 ==> b[k] == Bit(w, k)
  {
    seq(64, k requires 0 <= k < 64 => Bit(w, k))
  }

  /** The bits of an array of words, lowest first. */
  function Unpack(ws: seq<Word>): (b: Bits)
    ensures |b| == 64 * |ws|
  {
    if ws == [] then [] else Unpack(ws[..|ws| - 1]) + WordBits(ws[|ws| - 1])
  }

  lemma {:induction false} UnpackAt(ws: seq<Word>, k: nat, j: nat)
    requires k < |ws| && j < 64
    ensures Unpack(ws)[64 * k + j] == Bit(ws[k], j)
  {
    if k < |ws| - 1 {
      UnpackAt(ws[..|ws| - 1], k, j);
    }
  }

  /** Rank at a place inside word `k` adds the bits of that word. */
  lemma {:induction false} RankInWord(ws: seq<Word>, k: nat, j: nat)
    requires k < |ws| && j <= 64
    ensures Rank(Unpack(ws), 64 * k + j) == Rank(Unpack(ws), 64 * k) + CountBelow(ws[k], j)
  {
    if j > 0 {
      RankInWord(ws, k, j - 1);
      UnpackAt(ws, k, j - 1);
    }
  }

  /** The source's bit test: word `i >> 6`, mask `1 << (i & 63)`, false past the end. */
  predicate TestBit(ws: seq<Word>, i: nat)
    ensures TestBit(ws, i) == At(Unpack(ws), i)
  {
    if i / 64 < |ws| then
      MaskTest(ws[i / 64], i % 64);
      UnpackAt(ws, i / 64, i % 64);
      And(ws[i / 64], Pow2(i % 64)) != 0
    else false
  }

  // ----- the next one inside a word

  /** `w` is `word` with every bit below `edge` cleared. */
  ghost predicate Tail(w: Word, word: Word, edge: nat) {
    edge <= 64 && forall k :: 0 <= k < 64 ==> Bit(w, k) == (Bit(word, k) && k >= edge)
  }

  lemma {:induction false} CountFlat(word: Word, from: nat, to: nat)
    requires from <= to <= 64
    ensures CountBelow(word, from) <= CountBelow(word, to)
    ensures (forall k :: from <= k < to ==> !Bit(word, k)) ==> CountBelow(word, from) == CountBelow(word, to)
  {
    if from < to {
      CountFlat(word, from, to - 1);
    }
  }

  /** What one step of a clear-the-lowest-bit loop does. */
  lemma StepTail(w: Word, word: Word, edge: nat)
    requires Tail(w, word, edge)
    ensures w == 0 ==> CountBelow(word, 64) == CountBelow(word, edge)
    ensures w != 0 ==>
      var t := TrailingZeros(w);
      edge <= t < 64 && Bit(word, t)
      && CountBelow(word, t) == CountBelow(word, edge)
      && And(w, w - 1) < U64 && Tail(And(w, w - 1), word, t + 1)
  {
    ZeroWord(w);
    var t := TrailingZeros(w);
    assert forall k :: edge <= k < t ==> !Bit(word, k) by {
      forall k | edge <= k < t
        ensures !Bit(word, k)
      {
        assert !Bit(w, k);
      }
    }
    CountFlat(word, edge, t);
    if w != 0 {
      ClearTail(w, word, edge);
    }
  }

  lemma ClearTail(w: Word, word: Word, edge: nat)
    requires Tail(w, word, edge) && TrailingZeros(w) < 64 && w != 0
    ensures And(w, w - 1) < U64 && Tail(And(w, w - 1), word, TrailingZeros(w) + 1)
  {
    var t := TrailingZeros(w);
    AndBound(w, w - 1);
    forall k | 0 <= k < 64
      ensures Bit(And(w, w - 1), k) == (Bit(word, k) && k >= t + 1)
    {
      ClearLowest(w, t, k);
      assert k < t ==> !Bit(w, k);
      assert Bit(w, k) == (Bit(word, k) && k >= edge);
      assert Bit(w, t) == (Bit(word, t) && t >= edge);
    }
  }

  // ----- building the indexes

  ghost predicate RanksOk(b: Bits, ranks: seq<nat>) {
    && 64 * |ranks| == |b| + 64
    && forall k :: 0 <= k < |ranks| ==> ranks[k] == Rank(b, 64 * k)
  }

  /** Every 32nd one is sampled. */
  ghost predicate SelectsOk(b: Bits, selects: seq<nat>, ones: nat) {
    && |selects| == (ones + 31) / 32
    && forall j :: 0 <= j < |selects| ==> IsSelect(b, 32 * j, selects[j])
  }

  /** No position and no count leaves 32 bits, the width of the samples. */
  ghost predicate Fits32(b: Bits) {
    && Ones(b) < U32
    && forall p: nat :: At(b, p) ==> p < U32
  }

  /** A select sample, packed into 32 bits as the source does; `|` adds because the low
      six bits of the shifted word index are clear. */
  function Sample(wi: nat, bit: nat): nat {
    wi % U32 * 64 % U32 + bit
  }

  lemma SampleExact(wi: nat, bit: nat)
    requires 64 * wi + bit < U32
    ensures Sample(wi, bit) == 64 * wi + bit
  {}

  lemma OneFits(b: Bits, p: nat)
    requires Fits32(b) && At(b, p)
    ensures p < U32 && Rank(b, p) + 1 < U32
  {
    RankBelowOnes(b, p);
  }

  /** A set bit of word `wi` is a select position that fits the samples. */
  lemma NextSelect(ws: seq<Word>, wi: nat, bit: nat, count: nat)
    requires Fits32(Unpack(ws)) && wi < |ws| && bit < 64 && Bit(ws[wi], bit)
    requires count == Rank(Unpack(ws), 64 * wi) + CountBelow(ws[wi], bit)
    ensures IsSelect(Unpack(ws), count, Sample(wi, bit))
    ensures (count + 1) % U32 == count + 1
  {
    UnpackAt(ws, wi, bit);
    RankInWord(ws, wi, bit);
    SelectFits(Unpack(ws), wi, bit, 64 * wi + bit, count);
  }

  lemma SelectFits(b: Bits, wi: nat, bit: nat, p: nat, count: nat)
    requires Fits32(b) && p == 64 * wi + bit && At(b, p) && Rank(b, p) == count
    ensures IsSelect(b, count, Sample(wi, bit)) && (count + 1) % U32 == count + 1
  {
    OneFits(b, p);
    SampleExact(wi, bit);
    NoWrap(count + 1);
  }

  lemma NoWrap(n: nat)
    requires n < U32
    ensures n % U32 == n
  {}

  lemma AddSample(b: Bits, selects: seq<nat>, count: nat, p: nat)
    requires SelectsOk(b, selects, count) && IsSelect(b, count, p)
    ensures SelectsOk(b, if count % 32 == 0 then selects + [p] else selects, count + 1)
  {}

  /** One word's worth of `BuildIndex`: the inner loop over the set bits. */
  method IndexWord(ws: seq<Word>, wi: nat, count0: nat, selects0: seq<nat>) returns (count: nat, selects: seq<nat>)
    requires Fits32(Unpack(ws)) && wi < |ws|
    requires count0 == Rank(Unpack(ws), 64 * wi) && SelectsOk(Unpack(ws), selects0, count0)
    ensures count == Rank(Unpack(ws), 64 * (wi + 1)) && SelectsOk(Unpack(ws), selects, count)
  {
    count, selects := count0, selects0;
    var w: Word := ws[wi];
    ghost var edge: nat := 0;
    while w != 0
      invariant Tail(w, ws[wi], edge)
      invariant count == count0 + CountBelow(ws[wi], edge)
      invariant SelectsOk(Unpack(ws), selects, count)
      decreases 64 - edge
    {
      StepTail(w, ws[wi], edge);
      var bit := TrailingZeros(w);
      NextSelect(ws, wi, bit, count);
      AddSample(Unpack(ws), selects, count, Sample(wi, bit));
      selects := if count % 32 == 0 then selects + [Sample(wi, bit)] else selects;
      count := (count + 1) % U32;
      w := And(w, w - 1);
      edge := bit + 1;
    }
    StepTail(w, ws[wi], edge);
    RankInWord(ws, wi, 64);
  }

  method BuildIndex(ws: seq<Word>) returns (ranks: seq<nat>, selects: seq<nat>)
    requires Fits32(Unpack(ws))
    ensures RanksOk(Unpack(ws), ranks)
    ensures SelectsOk(Unpack(ws), selects, Ones(Unpack(ws)))
  {
    ranks, selects := [], [];
    var count := 0;
    for wi := 0 to |ws|
      invariant |ranks| == wi && count == Rank(Unpack(ws), 64 * wi)
      invariant forall k :: 0 <= k < wi ==> ranks[k] == Rank(Unpack(ws), 64 * k)
      invariant SelectsOk(Unpack(ws), selects, count)
    {
      ranks := ranks + [count];
      count, selects := IndexWord(ws, wi, count, selects);
    }
    ranks := ranks + [count];
  }
}
