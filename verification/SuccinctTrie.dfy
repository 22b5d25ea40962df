/** The packed domain tree: its sampled rank/select indexes and the name lookup. */
module SuccinctTrie {
  import opened Common
  import opened Words
  import opened Bitmap
  import opened PackedBits

  const PREFIX_LABEL: byte := 13
  const ROOT_LABEL: byte := 10

  datatype DomainSet = DomainSet(
    leaves: seq<Word>, bitmap: seq<Word>, labels: Bytes, ranks: seq<nat>, selects: seq<nat>)
  {
    ghost function Shape(): Bits {
      Unpack(bitmap)
    }

    /** The indexes say what the bitmap says. */
    ghost predicate Indexed() {
      RanksOk(Shape(), ranks) && SelectsOk(Shape(), selects, Ones(Shape()))
    }

    /** The number of zeros below `i`, from the rank sample and one masked word. */
    method CountZeros(i: nat) returns (z: nat)
      requires Indexed()
      ensures z == Zeros(Shape(), i)
    {
      var word, k := i / 64, i % 64;
      var mask := Pow2(k) - 1;
      var w: Word := if word < |bitmap| then bitmap[word] else 0;
      var rank := if word < |ranks| then ranks[word] else if |ranks| > 0 then ranks[|ranks| - 1] else 0;
      var ones := CountUnderMask(w, k, mask);
      RankSampled(word, k);
      z := i - (rank + ones);
    }

    /** `(w & mask).count_ones()`. */
    static method CountUnderMask(w: Word, k: nat, mask: nat) returns (n: nat)
      requires k < 64 && mask == Pow2(k) - 1
      ensures n == CountBelow(w, k)
    {
      AndBound(w, mask);
      CountMasked(w, k, 64);
      n := CountOnes(And(w, mask));
    }

    lemma RankSampled(word: nat, k: nat)
      requires Indexed() && k < 64
      ensures word < |bitmap| ==> Rank(Shape(), 64 * word + k) == ranks[word] + CountBelow(bitmap[word], k)
      ensures word >= |bitmap| ==> Rank(Shape(), 64 * word + k) == ranks[|ranks| - 1] && CountBelow(0, k) == 0
    {
      if word < |bitmap| {
        RankInWord(bitmap, word, k);
      } else {
        RankPastEnd(Shape(), 64 * word + k);
        ZeroWord(0);
        CountNone(0, k);
      }
    }

    /** The position of the `i`-th one, or none when there are not that many. */
    method SelectOne(i: nat) returns (r: Option<nat>)
      requires Indexed()
      ensures r == if i < Ones(Shape()) then Some(Select(Shape(), i)) else None
    {
      if i / 32 >= |selects| {
        return None;
      }
      var word := selects[i / 32] / 64;
      assert word < |bitmap| && ranks[word] <= i by {
        assert IsSelect(Shape(), 32 * (i / 32), selects[i / 32]);
        RankMonotone(Shape(), 64 * word, selects[i / 32]);
      }
      while ranks[word + 1] <= i
        invariant word < |bitmap| && ranks[word] <= i
        decreases |bitmap| - word
      {
        word := word + 1;
        if word + 1 >= |ranks| {
          return None;
        }
      }
      RankMonotone(Shape(), 64 * (word + 1), |Shape()|);
      var t := BitInWord(word, i - ranks[word]);
      r := Some(64 * word + t);
    }

    /** The tail of `SelectOne`: drop `left` ones of the word, then take the next. */
    method BitInWord(word: nat, left0: nat) returns (t: nat)
      requires Indexed() && word < |bitmap|
      requires ranks[word] + left0 < ranks[word + 1] <= Ones(Shape())
      ensures 64 * word + t == Select(Shape(), ranks[word] + left0)
    {
      RankInWord(bitmap, word, 64);
      assert CountBelow(bitmap[word], 64) > left0 by {
        assert ranks[word + 1] == Rank(Shape(), 64 * word + 64);
      }
      var left := left0;
      var w: Word := bitmap[word];
      ghost var edge: nat := 0;
      while left > 0
        invariant 0 <= left <= left0 && Tail(w, bitmap[word], edge)
        invariant CountBelow(bitmap[word], edge) == left0 - left
      {
        StepTail(w, bitmap[word], edge);
        edge := TrailingZeros(w) + 1;
        w := And(w, w - 1);
        left := left - 1;
      }
      StepTail(w, bitmap[word], edge);
      t := TrailingZeros(w);
      RankInWord(bitmap, word, t);
      UnpackAt(bitmap, word, t);
      assert IsSelect(Shape(), ranks[word] + left0, 64 * word + t);
      SelectUnique(Shape(), 64 * word + t, Select(Shape(), ranks[word] + left0));
    }

    // ----- the tree in terms of rank and select

    /** What `read` checks: up to the last one there is one zero fewer than there are
        ones, and a label for every zero. */
    ghost predicate Balanced() {
      var b := Shape();
      Ones(b) > 0 && Last(b) + 1 == Ones(b) + |labels| && |labels| + 1 == Ones(b)
    }

    /** Every document `read` accepts decodes to such a set, whoever wrote it. */
    ghost predicate Accepted() {
      Indexed() && Balanced()
    }

    predicate Leaf(node: nat) {
      TestBit(leaves, node)
    }

    /** Position `bm` is inside the block of edges of `node`. */
    ghost predicate Inside(node: nat, bm: nat) {
      Ones(Shape()) > 0 && bm <= Last(Shape()) && Rank(Shape(), bm) == node
    }

    /** The node an edge leads to. */
    ghost function Child(bm: nat): nat {
      Zeros(Shape(), bm + 1)
    }

    /** Where the block of a node starts: after the one that closes the node before it. */
    ghost function Block(node: nat): nat
      requires node < Ones(Shape())
    {
      if node == 0 then 0 else Select(Shape(), node - 1) + 1
    }

    lemma FollowEdge(node: nat, bm: nat)
      requires Balanced() && Inside(node, bm) && !At(Shape(), bm)
      ensures Inside(node, bm + 1) && node <= bm && bm - node < |labels|
      ensures 0 < Child(bm) < Ones(Shape()) && Inside(Child(bm), Block(Child(bm)))
    {
      var b := Shape();
      RankMonotone(b, bm + 1, Last(b));
      assert Child(bm) == bm - node + 1;
      SelectUnique(b, Select(b, Child(bm) - 1), Last(b));
    }

    /** The first edge of the block, from `bm` on, that settles byte `c`: no edge at all,
        a hit at a prefix or suffix marker, or a child to go on from. */
    ghost function Scan(node: nat, bm: nat, c: byte): (r: Outcome)
      requires Accepted() && Inside(node, bm)
      ensures r.Descend? ==> 0 < r.child < Ones(Shape()) && Inside(r.child, Block(r.child))
      decreases Last(Shape()) - bm
    {
      if At(Shape(), bm) then Reject
      else
        FollowEdge(node, bm);
        var mark := labels[bm - node];
        if mark == PREFIX_LABEL then Accept
        else if mark == ROOT_LABEL && c == DOT && Leaf(Child(bm)) then Accept
        else if mark == c then Descend(Child(bm))
        else Scan(node, bm + 1, c)
    }

    /** Whether the block, from `bm` on, carries a prefix or suffix marker. */
    ghost predicate Marked(node: nat, bm: nat)
      requires Accepted() && Inside(node, bm)
      decreases Last(Shape()) - bm
    {
      if At(Shape(), bm) then false
      else
        FollowEdge(node, bm);
        var mark := labels[bm - node];
        mark == PREFIX_LABEL || mark == ROOT_LABEL || Marked(node, bm + 1)
    }

    /** The answer from `node` on, with the first `k` bytes of the name still unread. */
    ghost predicate Walk(name: Bytes, k: nat, node: nat)
      requires Accepted() && k <= |name| && node < Ones(Shape()) && Inside(node, Block(node))
    {
      if k == 0 then Leaf(node) || Marked(node, Block(node))
      else
        match Scan(node, Block(node), name[k - 1])
        case Reject => false
        case Accept => true
        case Descend(child) => Walk(name, k - 1, child)
    }

    /** The answer of an accepted set for a name, read from its last byte to its first. */
    ghost predicate Answer(name: Bytes)
      requires Accepted()
    {
      Walk(name, |name|, 0)
    }

    /** The inner loop of the lookup: scan the block for what settles byte `c`. */
    method ScanBlock(node: nat, start: nat, c: byte) returns (s: Settled)
      requires Accepted() && Inside(node, start)
      ensures match Scan(node, start, c)
        case Reject => s == Answered(Some(false))
        case Accept => s == Answered(Some(true))
        case Descend(child) => s.Stopped? && Child(s.bm) == child
    {
      var bm := start;
      while true
        invariant Inside(node, bm)
        invariant Scan(node, start, c) == Scan(node, bm, c)
        decreases Last(Shape()) - bm
      {
        if TestBit(bitmap, bm) {
          return Answered(Some(false));
        }
        FollowEdge(node, bm);
        if bm < node || bm - node >= |labels| {
          return Answered(None);
        }
        var mark := labels[bm - node];
        if mark == PREFIX_LABEL {
          return Answered(Some(true));
        }
        if mark == ROOT_LABEL {
          var next := CountZeros(bm + 1);
          if c == DOT && TestBit(leaves, next) {
            return Answered(Some(true));
          }
        }
        if mark == c {
          return Stopped(bm);
        }
        bm := bm + 1;
      }
    }

    /** The closing loop of the lookup: is there a prefix or suffix marker? */
    method ScanMarks(node: nat, start: nat) returns (r: Option<bool>)
      requires Accepted() && Inside(node, start)
      ensures r == Some(Marked(node, start))
    {
      var bm := start;
      while true
        invariant Inside(node, bm)
        invariant Marked(node, start) == Marked(node, bm)
        decreases Last(Shape()) - bm
      {
        if TestBit(bitmap, bm) {
          return Some(false);
        }
        FollowEdge(node, bm);
        if bm < node || bm - node >= |labels| {
          return None;
        }
        var mark := labels[bm - node];
        if mark == PREFIX_LABEL || mark == ROOT_LABEL {
          return Some(true);
        }
        bm := bm + 1;
      }
    }

    /** The child an edge leads to, and the beginning of its block. */
    method Follow(edge: nat) returns (r: Option<(nat, nat)>)
      requires Accepted() && 0 < Child(edge) < Ones(Shape())
      ensures r == Some((Child(edge), Block(Child(edge))))
    {
      var node := CountZeros(edge + 1);
      if node < 1 {
        return None;
      }
      var found := SelectOne(node - 1);
      if found.None? {
        return None;
      }
      r := Some((node, found.value + 1));
    }

    /** The lookup.  On an accepted set every escape of the source, `None`, is dead: the
        result is always an answer. */
    method Lookup(name: Bytes) returns (r: Option<bool>)
      requires Accepted()
      ensures r == Some(Answer(name))
    {
      var node: nat, bm: nat := 0, 0;
      for k := |name| downto 0
        invariant node < Ones(Shape()) && Inside(node, bm) && bm == Block(node)
        invariant Answer(name) == Walk(name, k, node)
      {
        var settled := ScanBlock(node, bm, name[k]);
        if settled.Answered? {
          return settled.r;
        }
        var next := Follow(settled.bm);
        if next.None? {
          return None;
        }
        node, bm := next.value.0, next.value.1;
      }
      if TestBit(leaves, node) {
        return Some(true);
      }
      r := ScanMarks(node, bm);
    }

    /** `matches`: a missing answer counts as no. */
    method Matches(name: Bytes) returns (hit: bool)
      requires Accepted()
      ensures hit == Answer(name)
    {
      var r := Lookup(name);
      hit := if r.Some? then r.value else false;
    }
  }

  /** How a scan ended: with an answer, or at the edge to follow. */
  datatype Settled = Answered(r: Option<bool>) | Stopped(bm: nat)

  datatype Outcome = Reject | Accept | Descend(child: nat)
}
