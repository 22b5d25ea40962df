/** The tree the builder lays out is one the reader accepts, and looking a name up in it
    answers membership. */
module TrieMeaning {
  import opened Common
  import opened Words
  import opened Bitmap
  import opened PackedBits
  import opened Keys
  import opened TrieBuilder
  import opened SuccinctTrie

  /** Where the block of node `p` starts in the bitmap. */
  ghost function Start(ends: seq<nat>, p: nat): nat
    requires Monotone(ends) && p <= |ends|
  {
    p + First(ends, p) - 1
  }

  lemma StopOrder(ends: seq<nat>, p: nat)
    requires Monotone(ends) && p <= |ends|
    ensures forall q :: 0 <= q < p ==> Stop(ends, q) <= Start(ends, p)
    ensures p < |ends| ==> forall q :: p < q < |ends| ==> Stop(ends, p) < Stop(ends, q)
  {
    forall q | 0 <= q < p
      ensures Stop(ends, q) <= Start(ends, p)
    {
      assert ends[q] <= ends[p - 1];
    }
  }

  /** Inside a block there are no ones before its last place. */
  lemma BlockBits(b: Bits, ends: seq<nat>, p: nat, k: nat)
    requires Monotone(ends) && Blocks(b, ends) && p < |ends| && Start(ends, p) <= k < Stop(ends, p)
    ensures At(b, k) <==> k + 1 == Stop(ends, p)
  {
    StopOrder(ends, p);
  }

  lemma {:induction false} RankInBlock(b: Bits, ends: seq<nat>, p: nat, k: nat)
    requires Monotone(ends) && Blocks(b, ends) && p < |ends| && Start(ends, p) <= k < Stop(ends, p)
    requires Rank(b, Start(ends, p)) == p
    ensures Rank(b, k) == p
  {
    if k > Start(ends, p) {
      RankInBlock(b, ends, p, k - 1);
      BlockBits(b, ends, p, k - 1);
    }
  }

  /** The ones before the block of node `p` are the ends of the `p` blocks before it. */
  lemma {:induction false} RankAtStart(b: Bits, ends: seq<nat>, p: nat)
    requires Monotone(ends) && Blocks(b, ends) && p <= |ends|
    ensures Rank(b, Start(ends, p)) == p
  {
    if p > 0 {
      RankAtStart(b, ends, p - 1);
      RankInBlock(b, ends, p - 1, Stop(ends, p - 1) - 1);
      BlockBits(b, ends, p - 1, Stop(ends, p - 1) - 1);
      assert Stop(ends, p - 1) == Start(ends, p);
    }
  }

  lemma {:induction false} NoBitsAfter(b: Bits, ends: seq<nat>, k: nat)
    requires Monotone(ends) && Blocks(b, ends) && k >= Start(ends, |ends|)
    ensures Rank(b, k) == |ends|
  {
    if k > Start(ends, |ends|) {
      NoBitsAfter(b, ends, k - 1);
      StopOrder(ends, |ends|);
    } else {
      RankAtStart(b, ends, |ends|);
    }
  }

  /** As many ones as nodes, and the `p`-th one closes the block of node `p`. */
  lemma SelectIsStop(b: Bits, ends: seq<nat>, p: nat)
    requires Monotone(ends) && Blocks(b, ends) && p < |ends|
    ensures Ones(b) == |ends|
    ensures Select(b, p) + 1 == Stop(ends, p) == Start(ends, p + 1)
  {
    NoBitsAfter(b, ends, |b| + Start(ends, |ends|));
    RankPastEnd(b, |b| + Start(ends, |ends|));
    var k := Stop(ends, p) - 1;
    RankAtStart(b, ends, p);
    BlockBits(b, ends, p, k);
    RankInBlock(b, ends, p, k);
    SelectUnique(b, k, Select(b, p));
  }

  // ----- an accepted set that holds a built tree

  /** `ds` holds the tree of `keys`. */
  ghost predicate Holds(ds: DomainSet, keys: seq<Bytes>, pre: seq<Bytes>, ends: seq<nat>) {
    && ds.Indexed()
    && Tree(keys, pre, ends, ds.labels, |pre|)
    && Marked(keys, ds.bitmap, ds.leaves, pre, ends, |pre|)
  }

  lemma HoldsAccepted(ds: DomainSet, keys: seq<Bytes>, pre: seq<Bytes>, ends: seq<nat>)
    requires Holds(ds, keys, pre, ends)
    ensures ds.Accepted() && Ones(ds.Shape()) == |pre| == |ends|
  {
    SelectIsStop(ds.Shape(), ends, |ends| - 1);
  }

  /** Place `d` of the block of node `p`, by rank and select. */
  lemma EdgePlace(b: Bits, ends: seq<nat>, p: nat, d: nat)
    requires Monotone(ends) && Blocks(b, ends) && p < |ends| && d <= ends[p] - First(ends, p)
    ensures Ones(b) == |ends|
    ensures Rank(b, Start(ends, p) + d) == p
    ensures At(b, Start(ends, p) + d) <==> d == ends[p] - First(ends, p)
    ensures Start(ends, p) + d <= Last(b)
    ensures p > 0 ==> Select(b, p - 1) + 1 == Start(ends, p)
  {
    if p > 0 {
      SelectIsStop(b, ends, p - 1);
    }
    RankAtStart(b, ends, p);
    RankInBlock(b, ends, p, Start(ends, p) + d);
    BlockBits(b, ends, p, Start(ends, p) + d);
    SelectIsStop(b, ends, |ends| - 1);
    StopOrder(ends, p);
  }

  /** Edge `d` of node `p`: its place, its label and the node it leads to. */
  lemma Edge(ds: DomainSet, keys: seq<Bytes>, pre: seq<Bytes>, ends: seq<nat>, p: nat, d: nat)
    requires Holds(ds, keys, pre, ends) && p < |pre| && d <= ends[p] - First(ends, p)
    ensures ds.Accepted() && p < Ones(ds.Shape())
    ensures ds.Block(p) == Start(ends, p) && ds.Inside(p, Start(ends, p) + d)
    ensures At(ds.Shape(), Start(ends, p) + d) <==> d == ends[p] - First(ends, p)
    ensures d < ends[p] - First(ends, p) ==>
      && ds.Child(Start(ends, p) + d) == First(ends, p) + d
      && First(ends, p) - 1 + d < |ds.labels|
  {
    HoldsAccepted(ds, keys, pre, ends);
    EdgePlace(ds.Shape(), ends, p, d);
  }

  // ----- what the block of a node says

  /** The labels on the edges of node `p`. */
  ghost function NodeTags(ds: DomainSet, ends: seq<nat>, p: nat): Bytes
    requires p < |ends|
  {
    if 1 <= First(ends, p) <= ends[p] <= |ds.labels| + 1 then Tags(ds.labels, First(ends, p), ends[p]) else []
  }

  /** Does an edge with this tag, leading to node `child`, settle byte `c`, and how? */
  ghost predicate Settles(ds: DomainSet, tag: byte, child: nat, c: byte) {
    tag == PREFIX_LABEL || (tag == ROOT_LABEL && c == DOT && ds.Leaf(child)) || tag == c
  }

  ghost function Settlement(ds: DomainSet, tag: byte, child: nat, c: byte): Outcome {
    if tag == PREFIX_LABEL || (tag == ROOT_LABEL && c == DOT && ds.Leaf(child)) then Accept else Descend(child)
  }

  /** Place `d` of a block that starts at `start`: the end, or an edge with its label and child. */
  ghost predicate EdgeReads(ds: DomainSet, p: nat, start: nat, tags: Bytes, from: nat, d: nat)
    requires ds.Accepted()
  {
    && ds.Inside(p, start + d)
    && (At(ds.Shape(), start + d) <==> d == |tags|)
    && (d < |tags| ==>
      && p <= start + d < p + |ds.labels|
      && ds.labels[start + d - p] == tags[d]
      && ds.Child(start + d) == from + d)
  }

  ghost predicate BlockReads(ds: DomainSet, p: nat, start: nat, tags: Bytes, from: nat) {
    ds.Accepted() && forall d :: 0 <= d <= |tags| ==> EdgeReads(ds, p, start, tags, from, d)
  }

  lemma NodeReads(ds: DomainSet, keys: seq<Bytes>, pre: seq<Bytes>, ends: seq<nat>, p: nat)
    requires Holds(ds, keys, pre, ends) && p < |pre|
    ensures ds.Accepted() && p < Ones(ds.Shape()) && ds.Block(p) == Start(ends, p)
    ensures BlockReads(ds, p, Start(ends, p), NodeTags(ds, ends, p), First(ends, p))
  {
    Edge(ds, keys, pre, ends, p, 0);
    forall d | 0 <= d <= |NodeTags(ds, ends, p)|
      ensures EdgeReads(ds, p, Start(ends, p), NodeTags(ds, ends, p), First(ends, p), d)
    {
      Edge(ds, keys, pre, ends, p, d);
    }
  }

  /** The scan stops at the first edge that settles the byte. */
  lemma {:induction false} ScanFirst(ds: DomainSet, p: nat, start: nat, tags: Bytes, from: nat, d: nat,
      c: byte) returns (e: nat)
    requires BlockReads(ds, p, start, tags, from) && d <= |tags|
    ensures ds.Inside(p, start + d) && d <= e <= |tags|
    ensures forall f :: d <= f < e ==> !Settles(ds, tags[f], from + f, c)
    ensures e < |tags| ==> Settles(ds, tags[e], from + e, c)
    ensures ds.Scan(p, start + d, c) == if e == |tags| then Reject else Settlement(ds, tags[e], from + e, c)
    decreases |tags| - d
  {
    assert EdgeReads(ds, p, start, tags, from, d);
    if d < |tags| && !Settles(ds, tags[d], from + d, c) {
      assert start + (d + 1) == start + d + 1;
      e := ScanFirst(ds, p, start, tags, from, d + 1, c);
    } else {
      e := d;
    }
  }

  /** A marker on some edge from `d` on is what the closing loop looks for. */
  lemma {:induction false} MarkedFirst(ds: DomainSet, p: nat, start: nat, tags: Bytes, from: nat, d: nat)
    requires BlockReads(ds, p, start, tags, from) && d <= |tags|
    ensures ds.Inside(p, start + d)
    ensures ds.Marked(p, start + d) <==> PREFIX_LABEL in tags[d..] || ROOT_LABEL in tags[d..]
    decreases |tags| - d
  {
    assert EdgeReads(ds, p, start, tags, from, d);
    if d < |tags| {
      assert tags[d..] == [tags[d]] + tags[d + 1..];
      MarkedFirst(ds, p, start, tags, from, d + 1);
    }
  }

  // ----- membership

  /** A reversed name, closed by at most one marker. */
  ghost predicate KeyOk(k: Bytes) {
    forall i :: 0 <= i < |k| ==> k[i] > PREFIX_LABEL || (i == |k| - 1 && (k[i] == PREFIX_LABEL || k[i] == ROOT_LABEL))
  }

  ghost predicate KeysOk(keys: seq<Bytes>) {
    forall k :: k in keys ==> KeyOk(k)
  }

  /** The first `m` bytes of the reversed name `r` are a suffix or prefix entry, and a suffix
      entry stops at a dot or at the end. */
  ghost predicate Hit(keys: seq<Bytes>, r: Bytes, m: nat)
    requires m <= |r|
  {
    || r[..m] + [PREFIX_LABEL] in keys
    || (r[..m] + [ROOT_LABEL] in keys && (m == |r| || r[m] == DOT))
  }

  /** Membership of a reversed name of which `n` bytes have been read. */
  ghost predicate Member(keys: seq<Bytes>, r: Bytes, n: nat)
    requires n <= |r|
  {
    r in keys || exists m :: n <= m <= |r| && Hit(keys, r, m)
  }

  /** In a prefix of a key a marker can only be the last byte, and then it is the key. */
  lemma PrefixByte(keys: seq<Bytes>, q: Bytes, i: nat)
    requires KeysOk(keys) && q in Prefixes(keys) && i < |q|
    ensures q[i] >= PREFIX_LABEL || q[i] == ROOT_LABEL
    ensures q[i] == PREFIX_LABEL || q[i] == ROOT_LABEL ==> q in keys
  {
    var j, n :| 0 <= j < |keys| && 0 <= n <= |keys[j]| && keys[j][..n] == q;
    assert KeyOk(keys[j]) && keys[j][i] == q[i];
    assert n == |keys[j]| ==> keys[j] == q;
  }

  /** All the lookup needs to know of node `p`, which stands for `pre[p]`: its block can be
      read, its tags are the next bytes of the keys, and its leaf bit is right. */
  ghost predicate NodeOk(ds: DomainSet, keys: seq<Bytes>, pre: seq<Bytes>, p: nat, tags: Bytes, from: nat) {
    && ds.Accepted() && p < |pre| && p < Ones(ds.Shape()) && from + |tags| <= |pre|
    && BlockReads(ds, p, ds.Block(p), tags, from)
    && NextBytes(keys, pre[p], tags)
    && (ds.Leaf(p) <==> pre[p] in keys)
    && (EndsMarked(pre[p]) ==> tags == [])
    && forall f :: 0 <= f < |tags| ==>
      && pre[from + f] == pre[p] + [tags[f]]
      && (tags[f] >= PREFIX_LABEL || tags[f] == ROOT_LABEL)
      && (tags[f] == PREFIX_LABEL || tags[f] == ROOT_LABEL ==> pre[from + f] in keys && ds.Leaf(from + f))
  }

  /** A string that ends with the suffix marker. */
  ghost predicate EndsMarked(q: Bytes) {
    q != [] && q[|q| - 1] == ROOT_LABEL
  }

  ghost predicate NodesOk(ds: DomainSet, keys: seq<Bytes>, pre: seq<Bytes>, ends: seq<nat>) {
    && ds.Accepted() && |ends| == |pre| > 0 && pre[0] == []
    && forall p :: 0 <= p < |pre| ==> NodeOk(ds, keys, pre, p, NodeTags(ds, ends, p), First(ends, p))
  }

  /** An edge of node `p` with its tag, the prefix it leads to and, for a marker, the leaf bit. */
  lemma EdgeFacts(keys: seq<Bytes>, pre: seq<Bytes>, leaves: Bits, p: nat, from: nat, tags: Bytes, f: nat)
    requires KeysOk(keys) && Nodes(keys, pre) && LeavesOk(keys, pre, leaves, |pre|)
    requires p < |pre| && Children(keys, pre, pre[p], from, tags) && f < |tags|
    ensures pre[from + f] == pre[p] + [tags[f]]
    ensures tags[f] >= PREFIX_LABEL || tags[f] == ROOT_LABEL
    ensures tags[f] == PREFIX_LABEL || tags[f] == ROOT_LABEL ==> pre[from + f] in keys && At(leaves, from + f)
  {
    assert pre[from + f] == pre[p] + [tags[f]];
    PrefixByte(keys, pre[from + f], |pre[p]|);
  }

  /** Nothing follows a marker. */
  lemma MarkerIsLast(keys: seq<Bytes>, pre: seq<Bytes>, p: nat, from: nat, tags: Bytes)
    requires KeysOk(keys) && Nodes(keys, pre)
    requires p < |pre| && Children(keys, pre, pre[p], from, tags)
    ensures EndsMarked(pre[p]) ==> tags == []
  {
    if EndsMarked(pre[p]) && tags != [] {
      assert pre[from + 0] == pre[p] + [tags[0]];
      PrefixByte(keys, pre[from], |pre[p]| - 1);
      assert false;
    }
  }

  lemma NodeFacts(ds: DomainSet, keys: seq<Bytes>, pre: seq<Bytes>, p: nat, tags: Bytes, from: nat)
    requires ds.Accepted() && p < |pre| && p < Ones(ds.Shape())
    requires BlockReads(ds, p, ds.Block(p), tags, from)
    requires Children(keys, pre, pre[p], from, tags)
    requires KeysOk(keys) && Nodes(keys, pre) && LeavesOk(keys, pre, Unpack(ds.leaves), |pre|)
    ensures NodeOk(ds, keys, pre, p, tags, from)
  {
    MarkerIsLast(keys, pre, p, from, tags);
    forall f | 0 <= f < |tags|
      ensures pre[from + f] == pre[p] + [tags[f]]
      ensures tags[f] >= PREFIX_LABEL || tags[f] == ROOT_LABEL
      ensures tags[f] == PREFIX_LABEL || tags[f] == ROOT_LABEL ==> pre[from + f] in keys && ds.Leaf(from + f)
    {
      EdgeFacts(keys, pre, Unpack(ds.leaves), p, from, tags, f);
    }
  }

  lemma AllNodeFacts(ds: DomainSet, keys: seq<Bytes>, pre: seq<Bytes>, ends: seq<nat>)
    requires Holds(ds, keys, pre, ends) && KeysOk(keys)
    ensures NodesOk(ds, keys, pre, ends)
  {
    HoldsAccepted(ds, keys, pre, ends);
    forall p | 0 <= p < |pre|
      ensures NodeOk(ds, keys, pre, p, NodeTags(ds, ends, p), First(ends, p))
    {
      NodeReads(ds, keys, pre, ends, p);
      assert ChildrenOf(keys, pre, ends, ds.labels, p);
      NodeFacts(ds, keys, pre, p, NodeTags(ds, ends, p), First(ends, p));
    }
  }

  /** A marker edge leaves a node exactly when the marked string is a key. */
  lemma MarkerEdge(ds: DomainSet, keys: seq<Bytes>, pre: seq<Bytes>, p: nat, tags: Bytes, from: nat, marker: byte)
    requires NodeOk(ds, keys, pre, p, tags, from)
    requires marker == PREFIX_LABEL || marker == ROOT_LABEL
    ensures marker in tags <==> pre[p] + [marker] in keys
  {
    if marker in tags {
      var c :| 0 <= c < |tags| && tags[c] == marker;
      assert pre[from + c] == pre[p] + [marker];
    }
    if pre[p] + [marker] in keys {
      assert (pre[p] + [marker])[|pre[p]|] == marker;
    }
  }

  /** What the block of a node does to a byte, told by the keys alone. */
  lemma NodeScan(ds: DomainSet, keys: seq<Bytes>, pre: seq<Bytes>, p: nat, tags: Bytes, from: nat,
      c: byte) returns (child: nat)
    requires NodeOk(ds, keys, pre, p, tags, from)
    requires c == ROOT_LABEL ==> pre[p] + [ROOT_LABEL] !in keys
    ensures ds.Inside(p, ds.Block(p))
    ensures var r := ds.Scan(p, ds.Block(p), c);
      if pre[p] + [PREFIX_LABEL] in keys || (c == DOT && pre[p] + [ROOT_LABEL] in keys) then r == Accept
      else if c in tags then r == Descend(child) && child < |pre| && pre[child] == pre[p] + [c]
      else r == Reject
  {
    MarkerEdge(ds, keys, pre, p, tags, from, PREFIX_LABEL);
    MarkerEdge(ds, keys, pre, p, tags, from, ROOT_LABEL);
    var e := ScanFirst(ds, p, ds.Block(p), tags, from, 0, c);
    child := from + e;
    SettledBy(ds, tags, from, e, c, pre[p] + [ROOT_LABEL] in keys, ds.Scan(p, ds.Block(p), c));
  }

  /** Ascending tags meet the markers first, so the first settling edge is the right one. */
  lemma SettledBy(ds: DomainSet, tags: Bytes, from: nat, e: nat, c: byte, suffix: bool, r: Outcome)
    requires forall i, j :: 0 <= i < j < |tags| ==> tags[i] < tags[j]
    requires forall f :: 0 <= f < |tags| ==> tags[f] >= PREFIX_LABEL || tags[f] == ROOT_LABEL
    requires forall f :: 0 <= f < |tags| && tags[f] == ROOT_LABEL ==> ds.Leaf(from + f)
    requires suffix == (ROOT_LABEL in tags) && (c == ROOT_LABEL ==> !suffix)
    requires e <= |tags| && forall f :: 0 <= f < e ==> !Settles(ds, tags[f], from + f, c)
    requires e < |tags| ==> Settles(ds, tags[e], from + e, c)
    requires r == if e == |tags| then Reject else Settlement(ds, tags[e], from + e, c)
    ensures if PREFIX_LABEL in tags || (c == DOT && suffix) then r == Accept
      else if c in tags then e < |tags| && tags[e] == c && r == Descend(from + e)
      else r == Reject
  {
    if PREFIX_LABEL in tags {
      var x :| 0 <= x < |tags| && tags[x] == PREFIX_LABEL;
      assert Settles(ds, tags[x], from + x, c);
      assert e <= x;
    } else if c == DOT && suffix {
      var x :| 0 <= x < |tags| && tags[x] == ROOT_LABEL;
      assert Settles(ds, tags[x], from + x, c);
      assert e <= x;
    } else if c in tags {
      var x :| 0 <= x < |tags| && tags[x] == c;
      assert Settles(ds, tags[x], from + x, c);
    }
  }

  function Reversed(s: Bytes): (r: Bytes)
    ensures |r| == |s| && forall i :: 0 <= i < |s| ==> r[i] == s[|s| - 1 - i]
  {
    if s == [] then [] else Reversed(s[1..]) + [s[0]]
  }

  /** At the end of the name: an exact key, or a marked one. */
  lemma WalkEnd(ds: DomainSet, keys: seq<Bytes>, pre: seq<Bytes>, p: nat, tags: Bytes, from: nat)
    requires NodeOk(ds, keys, pre, p, tags, from)
    ensures ds.Inside(p, ds.Block(p))
    ensures (ds.Leaf(p) || ds.Marked(p, ds.Block(p))) == Member(keys, pre[p], |pre[p]|)
  {
    var r := pre[p];
    MarkedFirst(ds, p, ds.Block(p), tags, from, 0);
    assert tags[0..] == tags;
    MarkerEdge(ds, keys, pre, p, tags, from, PREFIX_LABEL);
    MarkerEdge(ds, keys, pre, p, tags, from, ROOT_LABEL);
    assert r[..|r|] == r;
    assert Member(keys, r, |r|) <==> r in keys || Hit(keys, r, |r|);
  }

  /** No edge for the next byte: no longer prefix of the name is in any key. */
  lemma DeadEnd(keys: seq<Bytes>, p: Bytes, tags: Bytes, r: Bytes)
    requires NextBytes(keys, p, tags) && p < r && r[|p|] !in tags
    ensures Member(keys, r, |p|) <==> Hit(keys, r, |p|)
  {
    assert r !in keys;
    forall m | |p| < m <= |r|
      ensures !Hit(keys, r, m)
    {
      var a, b := r[..m] + [PREFIX_LABEL], r[..m] + [ROOT_LABEL];
      assert p <= a && a[|p|] == r[|p|] && p <= b && b[|p|] == r[|p|];
    }
  }

  lemma MemberStep(keys: seq<Bytes>, r: Bytes, n: nat)
    requires n < |r|
    ensures Member(keys, r, n) <==> Hit(keys, r, n) || Member(keys, r, n + 1)
  {}

  /** Byte `i` is a line feed, and the walk takes it for the marker of a suffix entry. */
  ghost predicate Snag(keys: seq<Bytes>, r: Bytes, i: nat)
    requires i < |r|
  {
    r[i] == ROOT_LABEL && r[..i] + [ROOT_LABEL] in keys
  }

  /** One byte of the walk: an answer, or a child that stands for one byte more. */
  lemma NodeAnswer(ds: DomainSet, keys: seq<Bytes>, pre: seq<Bytes>, p: nat, tags: Bytes, from: nat, r: Bytes, n: nat)
    requires NodeOk(ds, keys, pre, p, tags, from) && ds.Inside(p, ds.Block(p))
    requires n < |r| && pre[p] == r[..n] && !Snag(keys, r, n)
    ensures match ds.Scan(p, ds.Block(p), r[n])
      case Accept => Hit(keys, r, n)
      case Reject => !Member(keys, r, n)
      case Descend(child) => child < |pre| && pre[child] == r[..n + 1] && !Hit(keys, r, n)
  {
    assert r[..n + 1] == r[..n] + [r[n]];
    var child := NodeScan(ds, keys, pre, p, tags, from, r[n]);
    if r[n] !in tags {
      DeadEnd(keys, pre[p], tags, r);
    }
  }

  lemma WalkDown(ds: DomainSet, name: Bytes, k: nat, p: nat, child: nat)
    requires ds.Accepted() && 0 < k <= |name| && p < Ones(ds.Shape()) && ds.Inside(p, ds.Block(p))
    requires ds.Scan(p, ds.Block(p), name[k - 1]) == Descend(child)
    ensures child < Ones(ds.Shape()) && ds.Inside(child, ds.Block(child))
    ensures ds.Walk(name, k, p) == ds.Walk(name, k - 1, child)
  {}

  lemma NodeAnswerFrom(ds: DomainSet, keys: seq<Bytes>, pre: seq<Bytes>, ends: seq<nat>, p: nat, r: Bytes, n: nat)
    requires NodesOk(ds, keys, pre, ends) && p < |pre| && n < |r| && pre[p] == r[..n] && !Snag(keys, r, n)
    ensures p < Ones(ds.Shape()) && ds.Inside(p, ds.Block(p))
    ensures match ds.Scan(p, ds.Block(p), r[n])
      case Accept => Hit(keys, r, n)
      case Reject => !Member(keys, r, n)
      case Descend(child) => child < |pre| && pre[child] == r[..n + 1] && !Hit(keys, r, n)
  {
    var tags, from := NodeTags(ds, ends, p), First(ends, p);
    assert EdgeReads(ds, p, ds.Block(p), tags, from, 0);
    NodeAnswer(ds, keys, pre, p, tags, from, r, n);
  }

  /** The same for the walk: `child` is none when it answers here. */
  lemma WalkStepFrom(ds: DomainSet, keys: seq<Bytes>, pre: seq<Bytes>, ends: seq<nat>, name: Bytes, n: nat, p: nat)
    returns (child: Option<nat>)
    requires NodesOk(ds, keys, pre, ends) && n < |name| && p < |pre| && pre[p] == Reversed(name)[..n]
    requires !Snag(keys, Reversed(name), n)
    ensures p < Ones(ds.Shape()) && ds.Inside(p, ds.Block(p))
    ensures match child
      case None => ds.Walk(name, |name| - n, p) == Hit(keys, Reversed(name), n) == Member(keys, Reversed(name), n)
      case Some(c) =>
        && c < |pre| && pre[c] == Reversed(name)[..n + 1] && !Hit(keys, Reversed(name), n)
        && c < Ones(ds.Shape()) && ds.Inside(c, ds.Block(c))
        && ds.Walk(name, |name| - n, p) == ds.Walk(name, |name| - n - 1, c)
  {
    var r := Reversed(name);
    NodeAnswerFrom(ds, keys, pre, ends, p, r, n);
    var step := ds.Scan(p, ds.Block(p), r[n]);
    if step.Descend? {
      WalkDown(ds, name, |name| - n, p, step.child);
      child := Some(step.child);
    } else {
      MemberStep(keys, r, n);
      child := None;
    }
  }

  lemma WalkEndFrom(ds: DomainSet, keys: seq<Bytes>, pre: seq<Bytes>, ends: seq<nat>, name: Bytes, p: nat)
    requires NodesOk(ds, keys, pre, ends) && p < |pre| && pre[p] == Reversed(name)[..|name|]
    ensures p < Ones(ds.Shape()) && ds.Inside(p, ds.Block(p))
    ensures ds.Walk(name, 0, p) == Member(keys, Reversed(name), |name|)
  {
    assert pre[p] == Reversed(name);
    WalkEnd(ds, keys, pre, p, NodeTags(ds, ends, p), First(ends, p));
  }

  /** Walking the tree from the node for what has been read answers membership, unless
      a line feed gets in the way. */
  lemma {:induction false} WalkMember(ds: DomainSet, keys: seq<Bytes>, pre: seq<Bytes>, ends: seq<nat>,
      name: Bytes, n: nat, p: nat)
    requires NodesOk(ds, keys, pre, ends)
    requires n <= |name| && p < |pre| && pre[p] == Reversed(name)[..n]
    requires forall i :: n <= i < |name| ==> !Snag(keys, Reversed(name), i)
    ensures p < Ones(ds.Shape()) && ds.Inside(p, ds.Block(p))
    ensures ds.Walk(name, |name| - n, p) == Member(keys, Reversed(name), n)
    decreases |name| - n
  {
    if n == |name| {
      WalkEndFrom(ds, keys, pre, ends, name, p);
    } else {
      var child := WalkStepFrom(ds, keys, pre, ends, name, n, p);
      MemberStep(keys, Reversed(name), n);
      if child.Some? {
        WalkMember(ds, keys, pre, ends, name, n + 1, child.value);
      }
    }
  }

  // ----- a line feed in the name

  /** The byte of a suffix marker leads to the leaf behind the marker: a block is scanned
      from its least tag on, and that is a line feed if there is one. */
  lemma SnagScan(ds: DomainSet, keys: seq<Bytes>, pre: seq<Bytes>, p: nat, tags: Bytes,
      from: nat) returns (child: nat)
    requires NodeOk(ds, keys, pre, p, tags, from) && pre[p] + [ROOT_LABEL] in keys
    ensures ds.Inside(p, ds.Block(p)) && ds.Scan(p, ds.Block(p), ROOT_LABEL) == Descend(child)
    ensures child < |pre| && pre[child] == pre[p] + [ROOT_LABEL]
  {
    MarkerEdge(ds, keys, pre, p, tags, from, ROOT_LABEL);
    LeastTag(tags);
    assert EdgeReads(ds, p, ds.Block(p), tags, from, 0);
    child := from;
    assert pre[from + 0] == pre[p] + [tags[0]];
  }

  lemma LeastTag(tags: Bytes)
    requires forall i, j :: 0 <= i < j < |tags| ==> tags[i] < tags[j]
    requires forall f :: 0 <= f < |tags| ==> tags[f] >= PREFIX_LABEL || tags[f] == ROOT_LABEL
    requires ROOT_LABEL in tags
    ensures tags[0] == ROOT_LABEL
  {}

  /** So the walk goes on behind the marker. */
  lemma WalkOntoMarker(ds: DomainSet, keys: seq<Bytes>, pre: seq<Bytes>, p: nat, tags: Bytes, from: nat,
      name: Bytes, k: nat) returns (c: nat)
    requires NodeOk(ds, keys, pre, p, tags, from) && pre[p] + [ROOT_LABEL] in keys
    requires 0 < k <= |name| && name[k - 1] == ROOT_LABEL
    ensures ds.Inside(p, ds.Block(p))
    ensures c < |pre| && pre[c] == pre[p] + [ROOT_LABEL]
    ensures c < Ones(ds.Shape()) && ds.Inside(c, ds.Block(c))
    ensures ds.Walk(name, k, p) == ds.Walk(name, k - 1, c)
  {
    c := SnagScan(ds, keys, pre, p, tags, from);
    WalkDown(ds, name, k, p, c);
  }

  /** Behind the marker the answer is yes if the name ends there, and no if it goes on. */
  lemma WalkChildless(ds: DomainSet, keys: seq<Bytes>, pre: seq<Bytes>, p: nat, tags: Bytes, from: nat,
      name: Bytes, k: nat)
    requires NodeOk(ds, keys, pre, p, tags, from) && k <= |name|
    requires EndsMarked(pre[p]) && pre[p] in keys
    ensures ds.Inside(p, ds.Block(p))
    ensures ds.Walk(name, k, p) <==> k == 0
  {
    assert EdgeReads(ds, p, ds.Block(p), tags, from, 0);
  }

  lemma WalkSnag(ds: DomainSet, keys: seq<Bytes>, pre: seq<Bytes>, ends: seq<nat>, name: Bytes, k: nat, p: nat)
    requires NodesOk(ds, keys, pre, ends)
    requires 0 < k <= |name| && name[k - 1] == ROOT_LABEL
    requires p < |pre| && pre[p] + [ROOT_LABEL] in keys
    ensures p < Ones(ds.Shape()) && ds.Inside(p, ds.Block(p))
    ensures ds.Walk(name, k, p) <==> k == 1
  {
    var c := WalkOntoMarkerFrom(ds, keys, pre, ends, p, name, k);
    WalkChildlessFrom(ds, keys, pre, ends, c, name, k - 1);
  }

  lemma WalkOntoMarkerFrom(ds: DomainSet, keys: seq<Bytes>, pre: seq<Bytes>, ends: seq<nat>, p: nat, name: Bytes,
      k: nat)
    returns (c: nat)
    requires NodesOk(ds, keys, pre, ends) && p < |pre| && pre[p] + [ROOT_LABEL] in keys
    requires 0 < k <= |name| && name[k - 1] == ROOT_LABEL
    ensures p < Ones(ds.Shape()) && ds.Inside(p, ds.Block(p))
    ensures c < |pre| && pre[c] == pre[p] + [ROOT_LABEL]
    ensures c < Ones(ds.Shape()) && ds.Inside(c, ds.Block(c))
    ensures ds.Walk(name, k, p) == ds.Walk(name, k - 1, c)
  {
    c := WalkOntoMarker(ds, keys, pre, p, NodeTags(ds, ends, p), First(ends, p), name, k);
  }

  lemma WalkChildlessFrom(ds: DomainSet, keys: seq<Bytes>, pre: seq<Bytes>, ends: seq<nat>, p: nat, name: Bytes, k: nat)
    requires NodesOk(ds, keys, pre, ends) && p < |pre| && k <= |name| && EndsMarked(pre[p]) && pre[p] in keys
    ensures p < Ones(ds.Shape()) && ds.Inside(p, ds.Block(p))
    ensures ds.Walk(name, k, p) <==> k == 0
  {
    WalkChildless(ds, keys, pre, p, NodeTags(ds, ends, p), First(ends, p), name, k);
  }

  /** A hit between `n` and `i`. */
  ghost predicate HitBefore(keys: seq<Bytes>, r: Bytes, n: nat, i: nat)
    requires i <= |r|
  {
    exists m :: n <= m < i && Hit(keys, r, m)
  }

  lemma HitBeforeStep(keys: seq<Bytes>, r: Bytes, n: nat, i: nat)
    requires n < i <= |r|
    ensures HitBefore(keys, r, n, i) <==> Hit(keys, r, n) || HitBefore(keys, r, n + 1, i)
  {}

  /** A walk towards such a line feed answers yes on a hit before it, or if the name ends
      with it. */
  lemma {:induction false} WalkToSnag(ds: DomainSet, keys: seq<Bytes>, pre: seq<Bytes>, ends: seq<nat>,
      name: Bytes, n: nat, p: nat, i: nat) returns (hit: bool)
    requires NodesOk(ds, keys, pre, ends) && KeysOk(keys) && n <= i < |name|
    requires p < |pre| && pre[p] == Reversed(name)[..n] && Snag(keys, Reversed(name), i)
    ensures p < Ones(ds.Shape()) && ds.Inside(p, ds.Block(p))
    ensures hit == HitBefore(keys, Reversed(name), n, i)
    ensures ds.Walk(name, |name| - n, p) <==> i + 1 == |name| || hit
    decreases i - n
  {
    if n == i {
      WalkSnag(ds, keys, pre, ends, name, |name| - i, p);
      hit := false;
    } else {
      var r := Reversed(name);
      OneSnag(keys, r, n, i);
      HitBeforeStep(keys, r, n, i);
      var child := WalkStepFrom(ds, keys, pre, ends, name, n, p);
      if child.Some? {
        hit := WalkToSnag(ds, keys, pre, ends, name, n + 1, child.value, i);
      } else {
        hit := HitBefore(keys, r, n, i);
      }
    }
  }

  /** There is no such line feed before another, and one at the end makes the name a key. */
  lemma OneSnag(keys: seq<Bytes>, r: Bytes, n: nat, i: nat)
    requires KeysOk(keys) && n < i < |r| && Snag(keys, r, i)
    ensures !Snag(keys, r, n)
    ensures i + 1 == |r| ==> Member(keys, r, n)
    ensures HitBefore(keys, r, n, i) ==> Member(keys, r, n)
  {
    var k := r[..i] + [ROOT_LABEL];
    assert KeyOk(k) && k[n] == r[n];
    assert r[..i + 1] == k;
    assert r[..|r|] == r;
  }
}
