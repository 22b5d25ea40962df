/** Byte strings in lexicographic order. */
module Keys {
  import opened Common

  predicate Less(a: Bytes, b: Bytes) {
    if b == [] then false
    else if a == [] then true
    else if a[0] != b[0] then a[0] < b[0]
    else Less(a[1..], b[1..])
  }

  /** Strictly ascending: sorted, and without duplicates. */
  ghost predicate Ascending(keys: seq<Bytes>) {
    forall i, j :: 0 <= i < j < |keys| ==> Less(keys[i], keys[j])
  }

  lemma {:induction false} LessTotal(a: Bytes, b: Bytes)
    ensures a == b || Less(a, b) || Less(b, a)
    ensures !Less(a, a)
  {
    if a != [] {
      LessTotal(a[1..], if b == [] then [] else b[1..]);
    }
    if a != [] && b != [] && a[0] == b[0] && a[1..] == b[1..] {
      assert a == [a[0]] + a[1..] == b;
    }
  }

  lemma {:induction false} LessTransitive(a: Bytes, b: Bytes, c: Bytes)
    requires Less(a, b) && Less(b, c)
    ensures Less(a, c)
  {
    if a != [] && a[0] == b[0] == c[0] {
      LessTransitive(a[1..], b[1..], c[1..]);
    }
  }

  /** Two ordered strings that share a prefix are ordered by the byte after it. */
  lemma {:induction false} LessAfterPrefix(p: Bytes, a: Bytes, b: Bytes)
    requires Less(a, b) && p <= a && p <= b && |p| < |b|
    ensures |p| < |a| ==> a[|p|] <= b[|p|]
  {
    if p != [] {
      assert p[1..] <= a[1..] && p[1..] <= b[1..];
      LessAfterPrefix(p[1..], a[1..], b[1..]);
    }
  }

  /** Nothing that starts with `p` comes before `p`. */
  lemma {:induction false} PrefixComesFirst(p: Bytes, a: Bytes)
    requires p <= a
    ensures !Less(a, p)
  {
    if p != [] {
      assert p[1..] <= a[1..];
      PrefixComesFirst(p[1..], a[1..]);
    }
  }

  lemma BeforeAll(key: Bytes, keys: seq<Bytes>)
    requires Ascending(keys) && keys != [] && Less(key, keys[0])
    ensures forall j :: 0 <= j < |keys| ==> Less(key, keys[j])
  {
    forall j | 1 <= j < |keys|
      ensures Less(key, keys[j])
    {
      LessTransitive(key, keys[0], keys[j]);
    }
  }

  function Insert(key: Bytes, keys: seq<Bytes>): (r: seq<Bytes>)
    requires Ascending(keys)
    ensures Ascending(r)
    ensures forall k :: k in r <==> k == key || k in keys
  {
    if keys == [] then [key]
    else if key == keys[0] then keys
    else if Less(key, keys[0]) then
      BeforeAll(key, keys);
      [key] + keys
    else
      LessTotal(key, keys[0]);
      var rest := Insert(key, keys[1..]);
      assert forall k :: k in keys[1..] ==> k in keys && Less(keys[0], k);
      [keys[0]] + rest
  }

  /** `sort` then `dedup`. */
  function SortDedup(keys: seq<Bytes>): (r: seq<Bytes>)
    ensures Ascending(r)
    ensures forall k :: k in r <==> k in keys
  {
    if keys == [] then [] else Insert(keys[0], SortDedup(keys[1..]))
  }
}

/** The breadth-first builder of the packed tree.

    Node `p` of the tree stands for the byte string `pre[p]`.  Nodes are numbered as the
    queue meets them, so the children of one node are consecutive: those of node `p` stop
    before `ends[p]`, where those of node `p + 1` start.  The edge to node `c` carries
    `labels[c - 1]`, and the block of node `p` in the bitmap ends with the one at
    `p + ends[p] - 1`.
 */
module TrieBuilder {
  import opened Common
  import opened Words
  import opened Bitmap
  import opened PackedBits
  import opened Keys

  /** A queue entry: the keys `lo..hi`, which agree on their first `col` bytes. */
  datatype Entry = Entry(lo: nat, hi: nat, col: nat)

  // ----- the tree as numbers

  /** Exactly the keys `lo..hi` start with `p`. */
  ghost predicate Range(keys: seq<Bytes>, lo: nat, hi: nat, p: Bytes) {
    && lo < hi <= |keys|
    && forall j :: 0 <= j < |keys| ==> (lo <= j < hi <==> p <= keys[j])
  }

  /** `kids` are the groups into which the keys `lo..hi` fall by their byte at `col`. */
  ghost predicate Groups(keys: seq<Bytes>, lo: nat, hi: nat, col: nat, kids: seq<Entry>, labs: Bytes) {
    && |kids| == |labs|
    && (forall c :: 0 <= c < |kids| ==> Group(keys, lo, hi, col, kids[c], labs[c]))
    && (forall c, d :: 0 <= c < d < |labs| ==> labs[c] < labs[d])
    && hi <= |keys|
    && (forall j :: lo <= j < hi ==> |keys[j]| > col && keys[j][col] in labs)
  }

  /** One group: the keys of `lo..hi` whose byte at `col` is `x`. */
  ghost predicate Group(keys: seq<Bytes>, lo: nat, hi: nat, col: nat, kid: Entry, x: byte) {
    && lo <= kid.lo < kid.hi <= hi <= |keys| && kid.col == col + 1
    && forall j :: lo <= j < hi ==> |keys[j]| > col && (kid.lo <= j < kid.hi <==> keys[j][col] == x)
  }

  /** The first child of node `p`, given where the children of each node end. */
  function First(ends: seq<nat>, p: nat): nat
    requires p <= |ends|
  {
    if p == 0 then 1 else ends[p - 1]
  }

  /** The bytes on the edges to the nodes `from..to`. */
  function Tags(labels: Bytes, from: nat, to: nat): Bytes
    requires 1 <= from <= to <= |labels| + 1
  {
    labels[from - 1..to - 1]
  }

  /** One more than the place of the bit that ends the block of node `p`. */
  function Stop(ends: seq<nat>, p: nat): nat
    requires p < |ends|
  {
    p + ends[p]
  }

  ghost predicate Monotone(ends: seq<nat>) {
    && (forall p :: 0 <= p < |ends| ==> 1 <= ends[p])
    && (forall p, q :: 0 <= p <= q < |ends| ==> ends[p] <= ends[q])
  }

  /** `labs` are ascending and name every byte that follows `p` in some key. */
  ghost predicate NextBytes(keys: seq<Bytes>, p: Bytes, labs: Bytes) {
    && (forall c, d :: 0 <= c < d < |labs| ==> labs[c] < labs[d])
    && (forall k :: k in keys && p <= k && |p| < |k| ==> k[|p|] in labs)
  }

  /** The nodes from `from` on are the children of the node for `p`: one for each byte that
      follows `p` in some key, in ascending order. */
  ghost predicate Children(keys: seq<Bytes>, pre: seq<Bytes>, p: Bytes, from: nat, labs: Bytes) {
    && from + |labs| <= |pre|
    && NextBytes(keys, p, labs)
    && forall c :: 0 <= c < |labs| ==> pre[from + c] == p + [labs[c]]
  }

  /** Nodes stand for different prefixes of keys. */
  ghost predicate Nodes(keys: seq<Bytes>, pre: seq<Bytes>) {
    && (forall p :: 0 <= p < |pre| ==> pre[p] in Prefixes(keys))
    && (forall p, q :: 0 <= p < q < |pre| ==> pre[p] != pre[q])
  }

  ghost predicate ChildrenOf(keys: seq<Bytes>, pre: seq<Bytes>, ends: seq<nat>, labels: Bytes, p: nat) {
    && p < |ends| && p < |pre| && 1 <= First(ends, p) <= ends[p] <= |labels| + 1
    && Children(keys, pre, pre[p], First(ends, p), Tags(labels, First(ends, p), ends[p]))
  }

  /** The first `n` nodes have their children. */
  ghost predicate Parents(keys: seq<Bytes>, pre: seq<Bytes>, ends: seq<nat>, labels: Bytes, n: nat) {
    && n <= |ends| && n <= |pre| && Monotone(ends) && First(ends, n) <= |labels| + 1
    && forall p :: 0 <= p < n ==> ChildrenOf(keys, pre, ends, labels, p)
  }

  /** The tree as far as its first `n` nodes have been laid out. */
  ghost predicate Tree(keys: seq<Bytes>, pre: seq<Bytes>, ends: seq<nat>, labels: Bytes, n: nat) {
    && |ends| == n && 1 <= |pre| == First(ends, n) && |labels| + 1 == |pre|
    && pre[0] == []
    && Parents(keys, pre, ends, labels, n)
    && Nodes(keys, pre)
  }

  /** Every prefix of every key. */
  ghost function Prefixes(keys: seq<Bytes>): set<Bytes> {
    set j, n | 0 <= j < |keys| && 0 <= n <= |keys[j]| :: keys[j][..n]
  }

  /** The set bits are exactly the ends of the blocks. */
  ghost predicate Blocks(b: Bits, ends: seq<nat>) {
    forall k: nat :: At(b, k) <==> exists p :: 0 <= p < |ends| && k + 1 == Stop(ends, p)
  }

  ghost predicate LeavesOk(keys: seq<Bytes>, pre: seq<Bytes>, leaves: Bits, n: nat)
    requires n <= |pre|
  {
    forall p: nat :: At(leaves, p) <==> p < n && pre[p] in keys
  }

  // ----- writing bits

  lemma {:induction false} AppendZero(ws: seq<Word>, k: nat)
    ensures At(Unpack(ws + [0]), k) == At(Unpack(ws), k)
  {
    assert (ws + [0])[..|ws|] == ws;
    if 64 * |ws| <= k < 64 * |ws| + 64 {
      NoBits(k - 64 * |ws|);
    }
  }

  lemma {:induction false} UpdateWord(ws: seq<Word>, i: nat, w: Word, k: nat)
    requires i / 64 < |ws|
    requires forall j :: 0 <= j < 64 ==> Bit(w, j) == (Bit(ws[i / 64], j) || j == i % 64)
    ensures At(Unpack(ws[i / 64 := w]), k) == (At(Unpack(ws), k) || k == i)
  {
    if k / 64 < |ws| {
      UnpackAt(ws, k / 64, k % 64);
      UnpackAt(ws[i / 64 := w], k / 64, k % 64);
    }
  }

  /** The builder's `set`: make room for bit `i`, then or `v` into it. */
  method SetBit(words: seq<Word>, i: nat, v: nat) returns (r: seq<Word>)
    requires v <= 1
    ensures |r| == Max(|words|, i / 64 + 1)
    ensures forall k: nat :: At(Unpack(r), k) == (At(Unpack(words), k) || (v == 1 && k == i))
  {
    r := words;
    while i / 64 >= |r|
      invariant |words| <= |r| <= Max(|words|, i / 64 + 1)
      invariant forall k: nat :: At(Unpack(r), k) == At(Unpack(words), k)
    {
      forall k: nat
        ensures At(Unpack(r + [0]), k) == At(Unpack(words), k)
      {
        AppendZero(r, k);
      }
      r := r + [0];
    }
    var word := r[i / 64];
    var w := Or(word, v * Pow2(i % 64));
    OrInWord(word, i % 64, v);
    ghost var before := r;
    r := r[i / 64 := w];
    if v == 1 {
      forall k: nat
        ensures At(Unpack(r), k) == (At(Unpack(before), k) || k == i)
      {
        UpdateWord(before, i, w, k);
      }
    } else {
      assert r == before;
    }
  }

  lemma OrInWord(word: Word, j: nat, v: nat)
    requires j < 64 && v <= 1
    ensures Or(word, v * Pow2(j)) < U64
    ensures v == 0 ==> Or(word, v * Pow2(j)) == word
    ensures v == 1 ==> forall k :: 0 <= k < 64 ==> Bit(Or(word, v * Pow2(j)), k) == (Bit(word, k) || k == j)
  {
    if v == 0 {
      assert v * Pow2(j) == 0;
      OrZero(word);
    } else {
      assert v * Pow2(j) == Pow2(j);
      OrOne(word, j);
    }
  }

  lemma OrOne(word: Word, j: nat)
    requires j < 64
    ensures Or(word, Pow2(j)) < U64
    ensures forall k :: 0 <= k < 64 ==> Bit(Or(word, Pow2(j)), k) == (Bit(word, k) || k == j)
  {
    Pow2Words();
    Pow2Monotone(j + 1, 64);
    OrBound(word, Pow2(j), 64);
    forall k | 0 <= k < 64
      ensures Bit(Or(word, Pow2(j)), k) == (Bit(word, k) || k == j)
    {
      OrBit(word, Pow2(j), k);
      OneBit(j, k);
    }
  }

  lemma {:induction false} OrZero(a: nat)
    ensures Or(a, 0) == a
  {
    if a != 0 {
      OrZero(a / 2);
    }
  }

  // ----- laying out one node

  /** The keys `lo..hi` go on past `col`, in ascending order of their byte there. */
  ghost predicate ByColumn(keys: seq<Bytes>, lo: nat, hi: nat, col: nat) {
    && hi <= |keys|
    && (forall j :: lo <= j < hi ==> |keys[j]| > col)
    && (forall i, j :: lo <= i <= j < hi ==> keys[i][col] <= keys[j][col])
  }

  lemma LaterIsLonger(p: Bytes, a: Bytes, b: Bytes)
    requires p <= a && p <= b && Less(a, b)
    ensures |b| > |p|
  {
    PrefixComesFirst(p, a);
    assert |b| == |p| ==> b == p;
  }

  /** Of the keys that start with `p`, only the first can be `p` itself. */
  lemma LeafFirst(keys: seq<Bytes>, lo: nat, hi: nat, p: Bytes)
    requires Ascending(keys) && Range(keys, lo, hi, p)
    ensures |keys[lo]| == |p| <==> p in keys
    ensures ByColumn(keys, if |keys[lo]| == |p| then lo + 1 else lo, hi, |p|)
  {
    assert p <= keys[lo];
    forall j | lo < j < hi
      ensures |keys[j]| > |p|
    {
      assert p <= keys[j] && Less(keys[lo], keys[j]);
      LaterIsLonger(p, keys[lo], keys[j]);
    }
    if p in keys {
      var j :| 0 <= j < |keys| && keys[j] == p;
      assert lo <= j < hi;
    }
    if |keys[lo]| == |p| {
      assert keys[lo] == p;
    }
    forall i, j | lo <= i < j < hi && |keys[i]| > |p|
      ensures keys[i][|p|] <= keys[j][|p|]
    {
      assert p <= keys[i] && p <= keys[j] && Less(keys[i], keys[j]);
      LessAfterPrefix(p, keys[i], keys[j]);
    }
  }

  /** A group of the keys that start with `p` holds exactly the keys with one more byte. */
  lemma GroupRange(keys: seq<Bytes>, lo: nat, hi: nat, p: Bytes, kid: Entry, x: byte)
    requires Ascending(keys) && Range(keys, lo, hi, p)
    requires Group(keys, if |keys[lo]| == |p| then lo + 1 else lo, hi, |p|, kid, x)
    ensures Range(keys, kid.lo, kid.hi, p + [x])
  {
    var q := p + [x];
    forall j | 0 <= j < |keys|
      ensures kid.lo <= j < kid.hi <==> q <= keys[j]
    {
      if q <= keys[j] {
        assert p <= keys[j] && keys[j][|p|] == x;
        assert lo <= j < hi;
      }
      if lo <= j < hi {
        assert p <= keys[j];
      }
    }
  }

  /** The builder's inner loop: one edge for every group of keys. */
  method AddEdges(keys: seq<Bytes>, s: nat, e: nat, col: nat, queue0: seq<Entry>, labels0: Bytes,
      bitmap0: seq<Word>, l0: nat)
    returns (queue: seq<Entry>, labels: Bytes, bitmap: seq<Word>, l: nat, ghost kids: seq<Entry>, ghost labs: Bytes)
    requires ByColumn(keys, s, e, col) && s <= e
    requires |bitmap0| == (l0 + 63) / 64
    ensures Groups(keys, s, e, col, kids, labs)
    ensures queue == queue0 + kids && labels == labels0 + labs && l == l0 + |labs|
    ensures |bitmap| == (l + 63) / 64
    ensures forall k: nat :: At(Unpack(bitmap), k) == At(Unpack(bitmap0), k)
  {
    queue, labels, bitmap, l := queue0, labels0, bitmap0, l0;
    kids, labs := [], [];
    var j := s;
    while j < e
      invariant s <= j <= e
      invariant Groups(keys, s, j, col, kids, labs)
      invariant j < e ==> forall c :: 0 <= c < |labs| ==> labs[c] < keys[j][col]
      invariant queue == queue0 + kids && labels == labels0 + labs && l == l0 + |labs|
      invariant |bitmap| == (l + 63) / 64
      invariant forall k: nat :: At(Unpack(bitmap), k) == At(Unpack(bitmap0), k)
    {
      var from := j;
      var x := keys[from][col];
      while j < e && keys[j][col] == keys[from][col]
        invariant from <= j <= e && (j == from ==> j < e)
        invariant forall i :: from <= i < j ==> keys[i][col] == x
      {
        j := j + 1;
      }
      GroupsGrow(keys, s, from, j, col, kids, labs, x);
      queue := queue + [Entry(from, j, col + 1)];
      labels := labels + [x];
      kids, labs := kids + [Entry(from, j, col + 1)], labs + [x];
      bitmap := SetBit(bitmap, l, 0);
      l := l + 1;
    }
  }

  lemma GroupsGrow(keys: seq<Bytes>, s: nat, from: nat, to: nat, col: nat, kids: seq<Entry>, labs: Bytes, x: byte)
    requires s <= from < to && ByColumn(keys, s, to, col)
    requires Groups(keys, s, from, col, kids, labs)
    requires forall c :: 0 <= c < |labs| ==> labs[c] < x
    requires forall j :: from <= j < to ==> keys[j][col] == x
    ensures Groups(keys, s, to, col, kids + [Entry(from, to, col + 1)], labs + [x])
  {
    forall j | s <= j < from
      ensures keys[j][col] != x
    {
      assert keys[j][col] in labs;
    }
    assert Group(keys, s, to, col, Entry(from, to, col + 1), x);
    forall c | 0 <= c < |kids|
      ensures Group(keys, s, to, col, kids[c], labs[c])
    {
      assert Group(keys, s, from, col, kids[c], labs[c]);
    }
    forall j | s <= j < to
      ensures keys[j][col] in labs + [x]
    {
      if j < from {
        assert keys[j][col] in labs;
      }
    }
  }

  /** `pre` followed by the children of `p` for the bytes `labs`. */
  ghost function Extended(pre: seq<Bytes>, p: Bytes, labs: Bytes): (r: seq<Bytes>)
    ensures |r| == |pre| + |labs| && pre <= r
    ensures forall c :: |pre| <= c < |r| ==> r[c] == p + [labs[c - |pre|]]
  {
    pre + seq(|labs|, c requires 0 <= c < |labs| => p + [labs[c]])
  }

  /** Every node but the root is the child of an earlier node. */
  lemma {:induction false} Parent(ends: seq<nat>, n: nat, c: nat) returns (p: nat)
    requires n <= |ends| && Monotone(ends) && 1 <= c < First(ends, n)
    ensures p < n && First(ends, p) <= c < ends[p]
  {
    p := n - 1;
    if c < First(ends, n - 1) {
      p := Parent(ends, n - 1, c);
    }
  }

  lemma AppendInjective(a: Bytes, x: byte, b: Bytes, y: byte)
    ensures a + [x] == b + [y] ==> a == b && x == y
  {
    if a + [x] == b + [y] {
      assert a == (a + [x])[..|a|] == (b + [y])[..|b|] == b;
      assert (a + [x])[|a|] == x && (b + [y])[|b|] == y;
    }
  }

  lemma ParentOf(keys: seq<Bytes>, pre: seq<Bytes>, ends: seq<nat>, labels: Bytes, n: nat,
      q: nat) returns (p: nat, y: byte)
    requires Parents(keys, pre, ends, labels, n) && 1 <= q < First(ends, n) <= |pre|
    ensures p < n && pre[q] == pre[p] + [y]
  {
    p := Parent(ends, n, q);
    assert ChildrenOf(keys, pre, ends, labels, p);
    var labs, c := Tags(labels, First(ends, p), ends[p]), q - First(ends, p);
    assert pre[First(ends, p) + c] == pre[p] + [labs[c]];
    y := labs[c];
  }

  lemma NewNodeIsNew(keys: seq<Bytes>, pre: seq<Bytes>, ends: seq<nat>, labels: Bytes, n: nat, x: byte, q: nat)
    requires Parents(keys, pre, ends, labels, n) && Nodes(keys, pre) && n < |pre| == First(ends, n)
    requires q < |pre| && pre[0] == []
    ensures pre[q] != pre[n] + [x]
  {
    if q > 0 {
      var p, y := ParentOf(keys, pre, ends, labels, n, q);
      AppendInjective(pre[p], y, pre[n], x);
    }
  }

  /** An entry holds exactly the keys below the node for `p`. */
  ghost predicate EntryOk(keys: seq<Bytes>, entry: Entry, p: Bytes) {
    Range(keys, entry.lo, entry.hi, p) && entry.col == |p|
  }

  /** `kids` are the entries for the children of the node for `p`, with edges `labs`. */
  ghost predicate Kids(keys: seq<Bytes>, p: Bytes, kids: seq<Entry>, labs: Bytes) {
    && |kids| == |labs|
    && NextBytes(keys, p, labs)
    && forall c :: 0 <= c < |kids| ==> EntryOk(keys, kids[c], p + [labs[c]])
  }

  lemma GroupsAreKids(keys: seq<Bytes>, lo: nat, hi: nat, p: Bytes, kids: seq<Entry>, labs: Bytes)
    requires Ascending(keys) && Range(keys, lo, hi, p)
    requires Groups(keys, if |keys[lo]| == |p| then lo + 1 else lo, hi, |p|, kids, labs)
    ensures Kids(keys, p, kids, labs)
  {
    forall k | k in keys && p <= k && |p| < |k|
      ensures k[|p|] in labs
    {
      var j :| 0 <= j < |keys| && keys[j] == k;
      assert lo <= j < hi;
    }
    forall c | 0 <= c < |kids|
      ensures EntryOk(keys, kids[c], p + [labs[c]])
    {
      GroupRange(keys, lo, hi, p, kids[c], labs[c]);
    }
  }

  lemma RangePrefix(keys: seq<Bytes>, lo: nat, hi: nat, p: Bytes)
    requires Range(keys, lo, hi, p)
    ensures p in Prefixes(keys)
  {
    assert p <= keys[lo] && keys[lo][..|p|] == p;
  }

  /** Later nodes do not disturb the children of an earlier one. */
  lemma ChildrenStay(keys: seq<Bytes>, pre: seq<Bytes>, ends: seq<nat>, labels: Bytes,
                     pre': seq<Bytes>, ends': seq<nat>, labels': Bytes, p: nat)
    requires ChildrenOf(keys, pre, ends, labels, p)
    requires pre <= pre' && ends <= ends' && labels <= labels'
    ensures ChildrenOf(keys, pre', ends', labels', p)
  {
    assert First(ends', p) == First(ends, p) && ends'[p] == ends[p];
    assert Tags(labels', First(ends, p), ends[p]) == Tags(labels, First(ends, p), ends[p]);
  }

  lemma NewChildren(keys: seq<Bytes>, pre: seq<Bytes>, ends: seq<nat>, labels: Bytes, n: nat, labs: Bytes)
    requires n < |pre| && |ends| == n && |labels| + 1 == |pre| == First(ends, n)
    requires NextBytes(keys, pre[n], labs)
    ensures ChildrenOf(keys, Extended(pre, pre[n], labs), ends + [|pre| + |labs|], labels + labs, n)
  {
    EndsGrow(ends, |pre| + |labs|);
    TailTags(labels, labs);
    LaidChildren(keys, pre, Extended(pre, pre[n], labs), ends + [|pre| + |labs|], labels + labs, n, pre[n], labs);
  }

  lemma LaidChildren(keys: seq<Bytes>, pre: seq<Bytes>, pre': seq<Bytes>, ends: seq<nat>, labels: Bytes, n: nat,
      p: Bytes, labs: Bytes)
    requires NextBytes(keys, p, labs) && pre' == Extended(pre, p, labs) && n < |pre| && pre[n] == p
    requires n < |ends| && First(ends, n) == |pre| && ends[n] == |pre| + |labs| == |labels| + 1
    requires Tags(labels, |pre|, |pre| + |labs|) == labs
    ensures ChildrenOf(keys, pre', ends, labels, n)
  {
    NewestChildren(keys, pre, p, labs);
  }

  lemma EndsGrow(ends: seq<nat>, end: nat)
    ensures First(ends + [end], |ends|) == First(ends, |ends|) && (ends + [end])[|ends|] == end
  {}

  lemma NewestChildren(keys: seq<Bytes>, pre: seq<Bytes>, p: Bytes, labs: Bytes)
    requires NextBytes(keys, p, labs)
    ensures Children(keys, Extended(pre, p, labs), p, |pre|, labs)
  {
    var pre' := Extended(pre, p, labs);
    forall c | 0 <= c < |labs|
      ensures pre'[|pre| + c] == p + [labs[c]]
    {
      var k := |pre| + c;
      assert pre'[k] == p + [labs[k - |pre|]];
    }
  }

  lemma TailTags(labels: Bytes, labs: Bytes)
    ensures Tags(labels + labs, |labels| + 1, |labels| + 1 + |labs|) == labs
  {}

  /** Laying out node `n` gives it its children and leaves the others theirs. */
  lemma AddParent(keys: seq<Bytes>, pre: seq<Bytes>, ends: seq<nat>, labels: Bytes, n: nat, labs: Bytes)
    requires n < |pre| && |ends| == n && |labels| + 1 == |pre| == First(ends, n)
    requires Parents(keys, pre, ends, labels, n)
    requires NextBytes(keys, pre[n], labs)
    ensures Parents(keys, Extended(pre, pre[n], labs), ends + [|pre| + |labs|], labels + labs, n + 1)
  {
    var pre', ends', labels' := Extended(pre, pre[n], labs), ends + [|pre| + |labs|], labels + labs;
    forall p | 0 <= p < n + 1
      ensures ChildrenOf(keys, pre', ends', labels', p)
    {
      if p < n {
        ChildrenStay(keys, pre, ends, labels, pre', ends', labels', p);
      } else {
        NewChildren(keys, pre, ends, labels, n, labs);
      }
    }
  }

  /** Laying out node `n` keeps the tree a tree. */
  lemma AddNode(keys: seq<Bytes>, pre: seq<Bytes>, ends: seq<nat>, labels: Bytes, n: nat, kids: seq<Entry>, labs: Bytes)
    requires Tree(keys, pre, ends, labels, n) && n < |pre|
    requires Kids(keys, pre[n], kids, labs)
    ensures Tree(keys, Extended(pre, pre[n], labs), ends + [|pre| + |labs|], labels + labs, n + 1)
  {
    AddParent(keys, pre, ends, labels, n, labs);
    NewNodes(keys, pre, ends, labels, n, kids, labs);
  }

  /** A new node is a prefix of a key, and none of the old ones. */
  lemma NewNode(keys: seq<Bytes>, pre: seq<Bytes>, ends: seq<nat>, labels: Bytes, n: nat, kids: seq<Entry>,
      labs: Bytes, d: nat)
    requires Tree(keys, pre, ends, labels, n) && n < |pre|
    requires Kids(keys, pre[n], kids, labs) && d < |labs|
    ensures pre[n] + [labs[d]] in Prefixes(keys)
    ensures forall q :: 0 <= q < |pre| ==> pre[q] != pre[n] + [labs[d]]
  {
    assert EntryOk(keys, kids[d], pre[n] + [labs[d]]);
    RangePrefix(keys, kids[d].lo, kids[d].hi, pre[n] + [labs[d]]);
    forall q | 0 <= q < |pre|
      ensures pre[q] != pre[n] + [labs[d]]
    {
      NewNodeIsNew(keys, pre, ends, labels, n, labs[d], q);
    }
  }

  lemma NewNodes(keys: seq<Bytes>, pre: seq<Bytes>, ends: seq<nat>, labels: Bytes, n: nat, kids: seq<Entry>,
      labs: Bytes)
    requires Tree(keys, pre, ends, labels, n) && n < |pre|
    requires Kids(keys, pre[n], kids, labs)
    ensures Nodes(keys, Extended(pre, pre[n], labs))
  {
    forall d | 0 <= d < |labs|
      ensures NewString(keys, pre, pre[n] + [labs[d]])
    {
      NewNode(keys, pre, ends, labels, n, kids, labs, d);
    }
    ExtendedNodes(keys, pre, pre[n], labs);
  }

  /** A prefix of a key that no node stands for yet. */
  ghost predicate NewString(keys: seq<Bytes>, pre: seq<Bytes>, q: Bytes) {
    q in Prefixes(keys) && forall k :: 0 <= k < |pre| ==> pre[k] != q
  }

  lemma ExtendedNodes(keys: seq<Bytes>, pre: seq<Bytes>, p: Bytes, labs: Bytes)
    requires Nodes(keys, pre) && forall c, d :: 0 <= c < d < |labs| ==> labs[c] < labs[d]
    requires forall d :: 0 <= d < |labs| ==> NewString(keys, pre, p + [labs[d]])
    ensures Nodes(keys, Extended(pre, p, labs))
  {
    var pre' := Extended(pre, p, labs);
    forall i | 0 <= i < |pre'|
      ensures if i < |pre| then pre'[i] == pre[i] else pre'[i] == p + [labs[i - |pre|]] && NewString(keys, pre, pre'[i])
    {
      if i >= |pre| {
        var d := i - |pre|;
        assert pre'[i] == p + [labs[d]];
      }
    }
    forall i, j | 0 <= i < j < |pre'|
      ensures pre'[i] != pre'[j]
    {
      if i >= |pre| {
        AppendInjective(p, labs[i - |pre|], p, labs[j - |pre|]);
      }
    }
  }

  lemma {:induction false} DistinctBound(a: seq<Bytes>, s: set<Bytes>)
    requires forall p :: 0 <= p < |a| ==> a[p] in s
    requires forall p, q :: 0 <= p < q < |a| ==> a[p] != a[q]
    ensures |a| <= |s|
  {
    if a != [] {
      var last := a[|a| - 1];
      DistinctBound(a[..|a| - 1], s - {last});
    }
  }

  lemma AddBlock(b: Bits, b': Bits, ends: seq<nat>, end: nat)
    requires Blocks(b, ends)
    requires forall k: nat :: At(b', k) == (At(b, k) || k + 1 == |ends| + end)
    ensures Blocks(b', ends + [end])
  {
    var ends' := ends + [end];
    forall k: nat
      ensures At(b', k) <==> exists p :: 0 <= p < |ends'| && k + 1 == Stop(ends', p)
    {
      if At(b, k) {
        var p :| 0 <= p < |ends| && k + 1 == Stop(ends, p);
        assert Stop(ends', p) == Stop(ends, p);
      }
      if k + 1 == |ends| + end {
        assert Stop(ends', |ends|) == k + 1;
      }
      if p :| 0 <= p < |ends'| && k + 1 == Stop(ends', p) && p < |ends| {
        assert Stop(ends, p) == k + 1;
      }
    }
  }

  ghost predicate QueueOk(keys: seq<Bytes>, queue: seq<Entry>, pre: seq<Bytes>) {
    |queue| == |pre| && forall p :: 0 <= p < |queue| ==> EntryOk(keys, queue[p], pre[p])
  }

  lemma QueueGrows(keys: seq<Bytes>, queue: seq<Entry>, pre: seq<Bytes>, n: nat, kids: seq<Entry>, labs: Bytes)
    requires QueueOk(keys, queue, pre) && n < |pre| && Kids(keys, pre[n], kids, labs)
    ensures QueueOk(keys, queue + kids, Extended(pre, pre[n], labs))
  {
    var queue', pre' := queue + kids, Extended(pre, pre[n], labs);
    forall p | 0 <= p < |queue'|
      ensures EntryOk(keys, queue'[p], pre'[p])
    {
      if p < |queue| {
        assert queue'[p] == queue[p] && pre'[p] == pre[p];
      } else {
        var c := p - |queue|;
        assert queue'[p] == kids[c] && pre'[p] == pre[n] + [labs[c]];
        assert EntryOk(keys, kids[c], pre[n] + [labs[c]]);
      }
    }
  }

  /** What the builder's vectors hold once the first `n` nodes are laid out. */
  ghost predicate Laid(keys: seq<Bytes>, queue: seq<Entry>, labels: Bytes, pre: seq<Bytes>, ends: seq<nat>, n: nat) {
    n <= |queue| && Tree(keys, pre, ends, labels, n) && QueueOk(keys, queue, pre)
  }

  /** And what its two bitmaps hold. */
  ghost predicate Marked(keys: seq<Bytes>, bitmap: seq<Word>, leaves: seq<Word>, pre: seq<Bytes>,
      ends: seq<nat>, n: nat) {
    n <= |pre| && Blocks(Unpack(bitmap), ends) && LeavesOk(keys, pre, Unpack(leaves), n)
  }

  lemma LaidNext(keys: seq<Bytes>, queue: seq<Entry>, labels: Bytes, pre: seq<Bytes>, ends: seq<nat>, n: nat,
      kids: seq<Entry>, labs: Bytes)
    requires Laid(keys, queue, labels, pre, ends, n) && n < |queue|
    requires Kids(keys, pre[n], kids, labs)
    ensures Laid(keys, queue + kids, labels + labs, Extended(pre, pre[n], labs), ends + [|pre| + |labs|], n + 1)
  {
    AddNode(keys, pre, ends, labels, n, kids, labs);
    QueueGrows(keys, queue, pre, n, kids, labs);
  }

  lemma MarkedNext(keys: seq<Bytes>, bitmap: seq<Word>, leaves: seq<Word>, pre: seq<Bytes>, ends: seq<nat>, n: nat,
                   bitmap': seq<Word>, leaves': seq<Word>, pre': seq<Bytes>)
    requires Marked(keys, bitmap, leaves, pre, ends, n) && n < |pre| <= |pre'| && |ends| == n && pre <= pre'
    requires forall k: nat :: At(Unpack(bitmap'), k) == (At(Unpack(bitmap), k) || k + 1 == n + |pre'|)
    requires forall k: nat :: At(Unpack(leaves'), k) == (At(Unpack(leaves), k) || (k == n && pre[n] in keys))
    ensures Marked(keys, bitmap', leaves', pre', ends + [|pre'|], n + 1)
  {
    AddBlock(Unpack(bitmap), Unpack(bitmap'), ends, |pre'|);
    LeavesNext(keys, pre, pre', Unpack(leaves), Unpack(leaves'), n);
  }

  lemma LeavesNext(keys: seq<Bytes>, pre: seq<Bytes>, pre': seq<Bytes>, leaves: Bits, leaves': Bits, n: nat)
    requires n < |pre| && pre <= pre' && LeavesOk(keys, pre, leaves, n)
    requires forall k: nat :: At(leaves', k) == (At(leaves, k) || (k == n && pre[n] in keys))
    ensures LeavesOk(keys, pre', leaves', n + 1)
  {
    assert forall p :: 0 <= p < |pre| ==> pre'[p] == pre[p];
  }

  /** One round of the builder: lay out node `i`, the front of the queue. */
  method LayNode(keys: seq<Bytes>, i: nat, queue0: seq<Entry>, labels0: Bytes, bitmap0: seq<Word>,
      leaves0: seq<Word>, l0: nat,
                 ghost pre: seq<Bytes>, ghost ends: seq<nat>)
    returns (queue: seq<Entry>, labels: Bytes, bitmap: seq<Word>, leaves: seq<Word>, l: nat, ghost labs: Bytes)
    requires Ascending(keys) && i < |queue0|
    requires Laid(keys, queue0, labels0, pre, ends, i) && Marked(keys, bitmap0, leaves0, pre, ends, i)
    requires l0 == i + |labels0| && |bitmap0| == (l0 + 63) / 64 && |leaves0| <= (i + 63) / 64
    ensures |pre| == |queue0| && Laid(keys, queue, labels, Extended(pre, pre[i], labs), ends + [|pre| + |labs|], i + 1)
    ensures Marked(keys, bitmap, leaves, Extended(pre, pre[i], labs), ends + [|pre| + |labs|], i + 1)
    ensures l == i + 1 + |labels| && |bitmap| == (l + 63) / 64 && |leaves| <= (i + 64) / 64
  {
    var s, e, col := queue0[i].lo, queue0[i].hi, queue0[i].col;
    assert EntryOk(keys, queue0[i], pre[i]);
    LeafFirst(keys, s, e, pre[i]);
    leaves := leaves0;
    if col == |keys[s]| {
      s := s + 1;
      leaves := SetBit(leaves0, i, 1);
    }
    ghost var kids;
    queue, labels, bitmap, l, kids, labs := AddEdges(keys, s, e, col, queue0, labels0, bitmap0, l0);
    bitmap := SetBit(bitmap, l, 1);
    l := l + 1;
    GroupsAreKids(keys, queue0[i].lo, e, pre[i], kids, labs);
    LaidNext(keys, queue0, labels0, pre, ends, i, kids, labs);
    MarkedNext(keys, bitmap0, leaves0, pre, ends, i, bitmap, leaves, Extended(pre, pre[i], labs));
  }

  lemma LaidBound(keys: seq<Bytes>, queue: seq<Entry>, labels: Bytes, pre: seq<Bytes>, ends: seq<nat>, n: nat)
    requires Laid(keys, queue, labels, pre, ends, n)
    ensures |queue| == |pre| <= |Prefixes(keys)|
  {
    DistinctBound(pre, Prefixes(keys));
  }

  lemma LaidFirst(keys: seq<Bytes>)
    requires keys != []
    ensures Laid(keys, [Entry(0, |keys|, 0)], [], [[]], [], 0)
    ensures Marked(keys, [], [], [[]], [], 0)
  {
    RangePrefix(keys, 0, |keys|, []);
  }

  /** The builder: sort the keys and lay the tree out breadth first. */
  method BuildSet(raw: seq<Bytes>)
    returns (leaves: seq<Word>, bitmap: seq<Word>, labels: Bytes, ghost keys: seq<Bytes>, ghost pre: seq<Bytes>,
      ghost ends: seq<nat>)
    requires raw != []
    ensures forall k :: k in keys <==> k in raw
    ensures Tree(keys, pre, ends, labels, |pre|)
    ensures Marked(keys, bitmap, leaves, pre, ends, |pre|)
    ensures |bitmap| == (|pre| + |labels| + 63) / 64 && |leaves| <= (|pre| + 63) / 64
  {
    var sorted := SortDedup(raw);
    assert raw[0] in sorted;
    keys := sorted;
    leaves, bitmap, labels := [], [], [];
    var queue := [Entry(0, |sorted|, 0)];
    pre, ends := [[]], [];
    LaidFirst(keys);
    var l, i := 0, 0;
    while i < |queue|
      invariant Laid(keys, queue, labels, pre, ends, i) && Marked(keys, bitmap, leaves, pre, ends, i)
      invariant l == i + |labels| && |bitmap| == (l + 63) / 64 && |leaves| <= (i + 63) / 64
      decreases |Prefixes(keys)| - i
    {
      LaidBound(keys, queue, labels, pre, ends, i);
      ghost var labs;
      queue, labels, bitmap, leaves, l, labs := LayNode(sorted, i, queue, labels, bitmap, leaves, l, pre, ends);
      pre, ends := Extended(pre, pre[i], labs), ends + [|pre| + |labs|];
      i := i + 1;
    }
    LaidBound(keys, queue, labels, pre, ends, i);
  }
}
