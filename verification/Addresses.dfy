/** The address tests of the router: a CIDR mask, and binary search over ranges. */
module Addresses {
  import opened Common
  import opened Words

  /** An IP address as a number, with its family. */
  datatype Ip = Ip(v4: bool, addr: nat)

  function Width(v4: bool): nat {
    if v4 then 32 else 128
  }

  ghost predicate InFamily(v4: bool, addr: nat) {
    addr < Pow2(Width(v4))
  }

  // ----- CIDR

  datatype Cidr = Cidr(addr: nat, mask: nat, v4: bool)
  {
    predicate Contains(ip: Ip) {
      ip.v4 == v4 && And(ip.addr, mask) == addr
    }
  }

  /** `m << k` in a word of `w` bits: bits that leave the word are dropped. */
  function ShiftLeft(m: nat, w: nat, k: nat): nat {
    if k == 0 then m
    else
      var d := 2 * ShiftLeft(m, w, k - 1);
      if d >= Pow2(w) then d - Pow2(w) else d
  }

  /** `MAX << k`. */
  function HighMask(w: nat, k: nat): nat {
    ShiftLeft(Pow2(w) - 1, w, k)
  }

  /** A prefix of an address, as `Cidr::parse` builds it once the text is split. */
  function MakeCidr(ip: Ip, bits: Option<nat>): Cidr {
    var w := Width(ip.v4);
    var n := Min(if bits.Some? then bits.value else w, w);
    var mask := if n == 0 then 0 else HighMask(w, w - n);
    Cidr(And(ip.addr, mask), mask, ip.v4)
  }

  /** The length of the range of addresses a prefix leaves open, as a power of two. */
  function OpenBits(ip: Ip, bits: Option<nat>): nat {
    Width(ip.v4) - Min(if bits.Some? then bits.value else Width(ip.v4), Width(ip.v4))
  }

  lemma {:induction false} MaskValue(w: nat, k: nat)
    requires k < w
    ensures HighMask(w, k) == Pow2(w) - Pow2(k)
  {
    Pow2Monotone(k, w);
    if k > 0 {
      MaskValue(w, k - 1);
    }
  }

  /** `x` with its `k` low bits cut off. */
  function Floor(x: nat, k: nat): nat {
    if k == 0 then x else 2 * Floor(x / 2, k - 1)
  }

  lemma {:induction false} FloorBounds(x: nat, k: nat) returns (q: nat)
    ensures Floor(x, k) == q * Pow2(k) && Floor(x, k) <= x < Floor(x, k) + Pow2(k)
  {
    if k == 0 {
      q := x;
    } else {
      q := FloorBounds(x / 2, k - 1);
      assert q * (2 * Pow2(k - 1)) == 2 * (q * Pow2(k - 1));
    }
  }

  lemma {:induction false} AndMask(x: nat, w: nat, k: nat)
    requires x < Pow2(w) && k <= w
    ensures Pow2(k) <= Pow2(w)
    ensures And(x, Pow2(w) - Pow2(k)) == Floor(x, k)
    decreases w
  {
    Pow2Monotone(k, w);
    if k > 0 {
      Pow2Monotone(k - 1, w - 1);
      AndMask(x / 2, w - 1, k - 1);
      AndHalves(x, Pow2(w) - Pow2(k), Pow2(w - 1) - Pow2(k - 1), 0);
    } else {
      AndAll(x, w);
    }
  }

  lemma {:induction false} AndAll(x: nat, w: nat)
    requires x < Pow2(w)
    ensures And(x, Pow2(w) - 1) == x
  {
    if w > 0 {
      AndAll(x / 2, w - 1);
      AndHalves(x, Pow2(w) - 1, Pow2(w - 1) - 1, 1);
    }
  }

  /** `b` ends with the bit `last`, behind `m`. */
  lemma AndHalves(x: nat, b: nat, m: nat, last: nat)
    requires last <= 1 && b == 2 * m + last
    ensures And(x, b) == 2 * And(x / 2, m) + if last == 1 then x % 2 else 0
  {
    Halves(b, m, last);
    Halves(x, x / 2, x % 2);
  }

  lemma Halves(b: nat, m: nat, last: nat)
    requires last <= 1 && b == 2 * m + last
    ensures b / 2 == m && b % 2 == last
  {}

  /** Two numbers agree above bit `k` exactly when one lies in the aligned block of the other. */
  lemma {:induction false} SameFloor(x: nat, a: nat, k: nat)
    ensures Floor(x, k) == Floor(a, k) <==> Floor(a, k) <= x < Floor(a, k) + Pow2(k)
  {
    if k > 0 {
      SameFloor(x / 2, a / 2, k - 1);
    }
  }

  /** The mask test holds exactly on an aligned block of `2^(width - bits)` addresses around
      the given one. */
  lemma CidrIsInterval(ip: Ip, bits: Option<nat>, other: Ip)
    requires InFamily(ip.v4, ip.addr) && InFamily(other.v4, other.addr)
    ensures
      var c, size := MakeCidr(ip, bits), Pow2(OpenBits(ip, bits));
      && c.addr <= ip.addr < c.addr + size
      && (exists q: nat :: c.addr == q * size)
      && (c.Contains(other) <==> other.v4 == ip.v4 && c.addr <= other.addr < c.addr + size)
    ensures bits.None? ==> OpenBits(ip, bits) == 0
    ensures bits.Some? && ip.v4 ==> OpenBits(ip, bits) == (if bits.value < 32 then 32 - bits.value else 0)
    ensures bits.Some? && !ip.v4 ==> OpenBits(ip, bits) == (if bits.value < 128 then 128 - bits.value else 0)
  {
    var w, k := Width(ip.v4), OpenBits(ip, bits);
    if k < w {
      MaskValue(w, k);
    }
    AndMask(ip.addr, w, k);
    var q := FloorBounds(ip.addr, k);
    if other.v4 == ip.v4 {
      AndMask(other.addr, w, k);
      SameFloor(other.addr, ip.addr, k);
    }
  }

  // ----- ranges

  type Range = (nat, nat)

  predicate Covers(r: Range, a: nat) {
    r.0 <= a <= r.1
  }

  ghost predicate InSome(v: seq<Range>, a: nat) {
    exists i :: 0 <= i < |v| && Covers(v[i], a)
  }

  /** The order of pairs. */
  predicate Before(a: Range, b: Range) {
    a.0 < b.0 || (a.0 == b.0 && a.1 <= b.1)
  }

  ghost predicate Sorted(v: seq<Range>) {
    forall i, j :: 0 <= i < j < |v| ==> Before(v[i], v[j])
  }

  function InsertRange(r: Range, v: seq<Range>): seq<Range> {
    if v == [] then [r]
    else if Before(r, v[0]) then [r] + v
    else [v[0]] + InsertRange(r, v[1..])
  }

  /** `sort_unstable` over pairs. */
  function SortRanges(v: seq<Range>): seq<Range> {
    if v == [] then [] else InsertRange(v[0], SortRanges(v[1..]))
  }

  lemma {:induction false} InsertHas(r: Range, v: seq<Range>)
    ensures multiset(InsertRange(r, v)) == multiset(v) + multiset{r}
    ensures forall x :: x in InsertRange(r, v) <==> x in v || x == r
  {
    if v != [] && !Before(r, v[0]) {
      assert v == [v[0]] + v[1..];
      InsertHas(r, v[1..]);
    }
  }

  lemma {:induction false} InsertSorted(r: Range, v: seq<Range>)
    requires Sorted(v)
    ensures Sorted(InsertRange(r, v))
  {
    if v != [] && !Before(r, v[0]) {
      InsertSorted(r, v[1..]);
      InsertHas(r, v[1..]);
      var rest := InsertRange(r, v[1..]);
      forall j | 0 <= j < |rest|
        ensures Before(v[0], rest[j])
      {
        assert rest[j] in rest;
      }
    }
  }

  lemma {:induction false} SortOk(v: seq<Range>)
    ensures Sorted(SortRanges(v)) && multiset(SortRanges(v)) == multiset(v)
    ensures forall x :: x in SortRanges(v) <==> x in v
  {
    if v != [] {
      assert v == [v[0]] + v[1..];
      SortOk(v[1..]);
      InsertSorted(v[0], SortRanges(v[1..]));
      InsertHas(v[0], SortRanges(v[1..]));
    }
  }

  /** How many ranges of a sorted list start at or below `a`. */
  ghost predicate IsPartition(v: seq<Range>, a: nat, i: nat) {
    && i <= |v|
    && (forall j :: 0 <= j < i ==> v[j].0 <= a)
    && (forall j :: i <= j < |v| ==> a < v[j].0)
  }

  /** `partition_point` on the starts of the ranges. */
  method PartitionPoint(v: seq<Range>, a: nat) returns (i: nat)
    requires Sorted(v)
    ensures IsPartition(v, a, i)
  {
    i := 0;
    var hi := |v|;
    while i < hi
      invariant 0 <= i <= hi <= |v|
      invariant forall j :: 0 <= j < i ==> v[j].0 <= a
      invariant forall j :: hi <= j < |v| ==> a < v[j].0
    {
      var mid := (i + hi) / 2;
      if v[mid].0 <= a {
        i := mid + 1;
      } else {
        hi := mid;
      }
    }
  }

  /** What the binary search answers: whether the last range that starts at or below the
      address reaches it. */
  ghost predicate Found(v: seq<Range>, a: nat) {
    exists i :: 0 < i <= |v| && IsPartition(v, a, i) && v[i - 1].1 >= a
  }

  /** The first address at or after the start of a range that the range does not reach. */
  function Past(r: Range): nat {
    Max(r.0, r.1 + 1)
  }

  /** Range `i` reaches past the end of the later range `j`, before the next one starts. */
  predicate Shadow(v: seq<Range>, i: nat, j: nat)
    requires i < j < |v|
  {
    v[i].1 >= Past(v[j]) && (j + 1 < |v| ==> v[j + 1].0 > Past(v[j]))
  }

  predicate Unshadowed(v: seq<Range>) {
    forall i, j :: 0 <= i < j < |v| ==> !Shadow(v, i, j)
  }

  /** Ranges that overlap are the same range. */
  ghost predicate Disjoint(v: seq<Range>) {
    forall i, j :: 0 <= i < j < |v| ==> v[i] == v[j] || v[i].1 < v[j].0 || v[j].1 < v[i].0
  }

  ghost predicate NonEmpty(v: seq<Range>) {
    forall i :: 0 <= i < |v| ==> v[i].0 <= v[i].1
  }

  /** The search never accepts an address outside every range. */
  lemma FoundIsInSome(v: seq<Range>, a: nat)
    requires Found(v, a)
    ensures InSome(v, a)
  {
    var i :| 0 < i <= |v| && IsPartition(v, a, i) && v[i - 1].1 >= a;
    assert Covers(v[i - 1], a);
  }

  lemma PartitionUnique(v: seq<Range>, a: nat, i: nat, j: nat)
    requires IsPartition(v, a, i) && IsPartition(v, a, j)
    ensures i == j
  {
    if i < |v| {
      assert i < j <==> v[i].0 <= a;
    }
    if j < |v| {
      assert j < i <==> v[j].0 <= a;
    }
  }

  lemma PartitionExists(v: seq<Range>, a: nat) returns (i: nat)
    requires Sorted(v)
    ensures IsPartition(v, a, i)
  {
    i := 0;
    while i < |v| && v[i].0 <= a
      invariant i <= |v| && forall j :: 0 <= j < i ==> v[j].0 <= a
    {
      i := i + 1;
    }
    assert forall j :: i < j < |v| ==> Before(v[i], v[j]);
  }

  /** Without shadows the search finds every covered address. */
  lemma UnshadowedFinds(v: seq<Range>, a: nat)
    requires Sorted(v) && Unshadowed(v) && InSome(v, a)
    ensures Found(v, a)
  {
    var n := PartitionExists(v, a);
    var i :| 0 <= i < |v| && Covers(v[i], a);
    assert i < n;
    assert i == n - 1 || !Shadow(v, i, n - 1);
  }

  /** The search answers every address as the ranges do exactly when nothing is shadowed. */
  lemma FoundIffUnshadowed(v: seq<Range>)
    requires Sorted(v)
    ensures (forall a: nat :: Found(v, a) <==> InSome(v, a)) <==> Unshadowed(v)
  {
    forall a: nat
      ensures Found(v, a) ==> InSome(v, a)
      ensures Unshadowed(v) && InSome(v, a) ==> Found(v, a)
    {
      if Found(v, a) {
        FoundIsInSome(v, a);
      }
      if Unshadowed(v) && InSome(v, a) {
        UnshadowedFinds(v, a);
      }
    }
    if !Unshadowed(v) {
      var a := ShadowedMiss(v);
      assert InSome(v, a) && !Found(v, a);
    }
  }

  /** A shadow hides a covered address. */
  lemma ShadowedMiss(v: seq<Range>) returns (a: nat)
    requires Sorted(v) && !Unshadowed(v)
    ensures InSome(v, a) && !Found(v, a)
  {
    var i, j :| 0 <= i < j < |v| && Shadow(v, i, j);
    a := Past(v[j]);
    assert Before(v[i], v[j]);
    assert Covers(v[i], a);
    ShadowPartition(v, j);
    forall n | 0 < n <= |v| && IsPartition(v, a, n)
      ensures v[n - 1].1 < a
    {
      PartitionUnique(v, a, n, j + 1);
    }
  }

  lemma ShadowPartition(v: seq<Range>, j: nat)
    requires Sorted(v) && j < |v| && (j + 1 < |v| ==> v[j + 1].0 > Past(v[j]))
    ensures IsPartition(v, Past(v[j]), j + 1)
  {
    assert forall k :: 0 <= k < j ==> Before(v[k], v[j]);
    assert forall k :: j + 1 < k < |v| ==> Before(v[j + 1], v[k]);
  }

  lemma DisjointUnshadowed(v: seq<Range>)
    requires Sorted(v) && NonEmpty(v) && Disjoint(v)
    ensures Unshadowed(v)
  {
    forall i, j | 0 <= i < j < |v|
      ensures !Shadow(v, i, j)
    {
      assert Before(v[i], v[j]);
    }
  }

  /** A range inside another hides the rest of it. */
  lemma NestedRangesMiss()
    ensures
      var v := [(0, 100), (5, 6)];
      Sorted(v) && Covers(v[0], 50) && !Found(v, 50)
  {
    var v := [(0, 100), (5, 6)];
    assert IsPartition(v, 50, 2);
    forall n | 0 < n <= |v| && IsPartition(v, 50, n)
      ensures v[n - 1].1 < 50
    {
      PartitionUnique(v, 50, n, 2);
    }
  }

  // ----- the set of a rule-set file

  /** Ranges by family, sorted by their start. */
  datatype IpSet = IpSet(v4: seq<Range>, v6: seq<Range>)
  {
    function Ranges(family4: bool): seq<Range> {
      if family4 then v4 else v6
    }

    ghost predicate Valid() {
      Sorted(v4) && Sorted(v6)
    }

    method Contains(ip: Ip) returns (hit: bool)
      requires Valid()
      ensures hit == Found(Ranges(ip.v4), ip.addr)
    {
      var v := Ranges(ip.v4);
      var i := PartitionPoint(v, ip.addr);
      hit := i > 0 && v[i - 1].1 >= ip.addr;
      forall j | IsPartition(v, ip.addr, j)
        ensures j == i
      {
        PartitionUnique(v, ip.addr, i, j);
      }
    }
  }

  /** The top bit of 128. */
  const V4_FLAG: nat := 0x8000_0000_0000_0000_0000_0000_0000_0000

  /** An address as the reader takes it from the file: four-byte ones carry the flag. */
  function Flagged(ip: Ip): nat {
    if ip.v4 then ip.addr + V4_FLAG else ip.addr
  }

  /** Whether the reader files a pair of raw bounds under IPv4. */
  predicate FiledAsV4(from: nat, to: nat) {
    from >= V4_FLAG && to >= V4_FLAG && from / U32 == V4_FLAG / U32
  }

  /** A pair of bounds of one family is filed under its family, except an IPv6 range that
      starts within the first 2^32 addresses of the upper half. */
  lemma FiledByFamily(from: Ip, to: Ip)
    requires from.v4 == to.v4 && InFamily(from.v4, from.addr) && InFamily(to.v4, to.addr) && from.addr <= to.addr
    ensures FiledAsV4(Flagged(from), Flagged(to)) <==> from.v4 || V4_FLAG <= from.addr < V4_FLAG + U32
    ensures from.v4 ==> Flagged(from) % U32 == from.addr && Flagged(to) % U32 == to.addr
  {
    Pow2Words();
  }

  /** The bounds cast to 32 bits. */
  function Truncated(pair: (nat, nat)): Range {
    (pair.0 % U32, pair.1 % U32)
  }

  /** The pairs of raw bounds filed under a family, in order. */
  function FiledUnder(pairs: seq<(nat, nat)>, v4: bool): seq<Range> {
    if pairs == [] then []
    else
      var filed := FiledAsV4(pairs[0].0, pairs[0].1);
      (if filed != v4 then [] else if v4 then [Truncated(pairs[0])] else [pairs[0]]) + FiledUnder(pairs[1..], v4)
  }

  /** The set for these pairs of raw bounds: filed by family and sorted. */
  function SetOf(pairs: seq<(nat, nat)>): IpSet {
    IpSet(SortRanges(FiledUnder(pairs, true)), SortRanges(FiledUnder(pairs, false)))
  }

  /** The pair of raw bounds is filed under the family as this range. */
  predicate IsFiled(pair: (nat, nat), v4: bool, r: Range) {
    FiledAsV4(pair.0, pair.1) == v4 && r == if v4 then Truncated(pair) else pair
  }

  ghost predicate HasFiled(pairs: seq<(nat, nat)>, v4: bool, r: Range) {
    exists k :: 0 <= k < |pairs| && IsFiled(pairs[k], v4, r)
  }

  lemma {:induction false} FiledHas(pairs: seq<(nat, nat)>, v4: bool, r: Range)
    ensures r in FiledUnder(pairs, v4) <==> HasFiled(pairs, v4, r)
  {
    if pairs != [] {
      FiledHas(pairs[1..], v4, r);
      FirstOrLater(pairs, v4, r);
    }
  }

  lemma FirstOrLater(pairs: seq<(nat, nat)>, v4: bool, r: Range)
    requires pairs != []
    ensures HasFiled(pairs, v4, r) <==> IsFiled(pairs[0], v4, r) || HasFiled(pairs[1..], v4, r)
  {
    if k :| 0 <= k < |pairs| - 1 && IsFiled(pairs[1..][k], v4, r) {
      assert pairs[k + 1] == pairs[1..][k];
    }
    if k :| 0 < k < |pairs| && IsFiled(pairs[k], v4, r) {
      assert pairs[k] == pairs[1..][k - 1];
    }
  }

  /** The set is sorted, and holds the range of every pair under its family and no other. */
  lemma SetHolds(pairs: seq<(nat, nat)>, v4: bool, r: Range)
    ensures SetOf(pairs).Valid()
    ensures r in SetOf(pairs).Ranges(v4) <==> HasFiled(pairs, v4, r)
  {
    SortOk(FiledUnder(pairs, true));
    SortOk(FiledUnder(pairs, false));
    FiledHas(pairs, v4, r);
  }

  // ----- the two tests agree

  /** The range of addresses a prefix stands for. */
  function CidrRange(ip: Ip, bits: Option<nat>): Range {
    (MakeCidr(ip, bits).addr, MakeCidr(ip, bits).addr + Pow2(OpenBits(ip, bits)) - 1)
  }

  type Prefix = (Ip, Option<nat>)

  ghost predicate ProperPrefixes(list: seq<Prefix>) {
    forall c :: c in list ==> InFamily(c.0.v4, c.0.addr)
  }

  /** Some prefix of the list contains the address. */
  ghost predicate AnyContains(list: seq<Prefix>, ip: Ip) {
    exists c :: c in list && MakeCidr(c.0, c.1).Contains(ip)
  }

  /** The set holds the ranges of the prefixes, each under its family. */
  ghost predicate HoldsPrefixes(s: IpSet, list: seq<Prefix>) {
    forall v4, r :: r in s.Ranges(v4) <==> exists c :: c in list && c.0.v4 == v4 && r == CidrRange(c.0, c.1)
  }

  /** The addresses of a prefix are in its family, and there are some. */
  lemma CidrRangeFits(ip: Ip, bits: Option<nat>)
    requires InFamily(ip.v4, ip.addr)
    ensures CidrRange(ip, bits).0 <= CidrRange(ip, bits).1 < Pow2(Width(ip.v4))
  {
    var w, k := Width(ip.v4), OpenBits(ip, bits);
    CidrIsInterval(ip, bits, ip);
    var q: nat :| MakeCidr(ip, bits).addr == q * Pow2(k);
    Pow2Add(w - k, k);
    BlockFits(q, Pow2(w - k), Pow2(k), ip.addr);
  }

  lemma BlockFits(q: nat, blocks: nat, size: nat, a: nat)
    requires q * size <= a < blocks * size
    ensures q * size + size <= blocks * size
  {
    if blocks <= q {
      TimesMonotone(blocks, q, size);
    }
    TimesMonotone(q + 1, blocks, size);
    assert (q + 1) * size == q * size + size;
  }

  lemma TimesMonotone(a: nat, b: nat, size: nat)
    ensures a <= b ==> a * size <= b * size
  {
    if a <= b {
      assert (b - a) * size == b * size - a * size;
    }
  }

  lemma CoversIsContains(s: IpSet, list: seq<Prefix>, ip: Ip)
    requires HoldsPrefixes(s, list) && ProperPrefixes(list) && InFamily(ip.v4, ip.addr)
    ensures InSome(s.Ranges(ip.v4), ip.addr) <==> AnyContains(list, ip)
  {
    var v := s.Ranges(ip.v4);
    forall c | c in list
      ensures MakeCidr(c.0, c.1).Contains(ip) <==> c.0.v4 == ip.v4 && Covers(CidrRange(c.0, c.1), ip.addr)
    {
      CidrIsInterval(c.0, c.1, ip);
    }
    if InSome(v, ip.addr) {
      var j :| 0 <= j < |v| && Covers(v[j], ip.addr);
      assert v[j] in v;
    }
    if c :| c in list && MakeCidr(c.0, c.1).Contains(ip) {
      assert CidrRange(c.0, c.1) in v;
    }
  }

  /** The search answers this address as the prefixes do. */
  ghost predicate AgreesAt(s: IpSet, list: seq<Prefix>, ip: Ip) {
    Found(s.Ranges(ip.v4), ip.addr) <==> AnyContains(list, ip)
  }

  /** A list of prefixes of both families, and the sorted set of their ranges, accept the same
      addresses exactly if no range hides part of an earlier one. */
  lemma CidrListAgreesWithRanges(list: seq<Prefix>, s: IpSet)
    requires s.Valid() && ProperPrefixes(list) && HoldsPrefixes(s, list)
    ensures (forall ip: Ip :: InFamily(ip.v4, ip.addr) ==> AgreesAt(s, list, ip))
      <==> Unshadowed(s.v4) && Unshadowed(s.v6)
  {
    if Unshadowed(s.v4) && Unshadowed(s.v6) {
      forall ip: Ip | InFamily(ip.v4, ip.addr)
        ensures AgreesAt(s, list, ip)
      {
        CoversIsContains(s, list, ip);
        FoundIffUnshadowed(s.Ranges(ip.v4));
      }
    } else {
      var v4 := !Unshadowed(s.v4);
      var a := ShadowedMiss(s.Ranges(v4));
      CoveredInFamily(s, list, v4, a);
      CoversIsContains(s, list, Ip(v4, a));
      assert !AgreesAt(s, list, Ip(v4, a));
    }
  }

  lemma CoveredInFamily(s: IpSet, list: seq<Prefix>, v4: bool, a: nat)
    requires ProperPrefixes(list) && HoldsPrefixes(s, list) && InSome(s.Ranges(v4), a)
    ensures InFamily(v4, a)
  {
    var v := s.Ranges(v4);
    var j :| 0 <= j < |v| && Covers(v[j], a);
    assert v[j] in v;
    var c :| c in list && c.0.v4 == v4 && v[j] == CidrRange(c.0, c.1);
    CidrRangeFits(c.0, c.1);
  }
}
