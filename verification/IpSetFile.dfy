/** The address set of a rule-set file. */
module IpSetFile {
  import opened Common
  import opened Words
  import opened BigEndian
  import opened DocumentCodec
  import opened Addresses

  type Pair = (nat, nat)

  // ----- what a file says

  /** An address behind its length; four-byte ones are flagged. */
  function TakeAddress(data: Bytes): Result<(nat, Bytes)> {
    var (len, rest) :- UnUvarint(data, 0, 0);
    if len == 4 && |rest| >= 4 then Ok((FromBytes(rest[..4]) + V4_FLAG, rest[4..]))
    else if len == 16 && |rest| >= 16 then Ok((FromBytes(rest[..16]), rest[16..]))
    else Err
  }

  function TakePair(data: Bytes): Result<(Pair, Bytes)> {
    var (from, d1) :- TakeAddress(data);
    var (to, d2) :- TakeAddress(d1);
    Ok(((from, to), d2))
  }

  function TakePairs(data: Bytes, n: nat, taken: seq<Pair>): Result<(seq<Pair>, Bytes)>
    decreases n
  {
    if n == 0 then Ok((taken, data))
    else
      var (pair, rest) :- TakePair(data);
      TakePairs(rest, n - 1, taken + [pair])
  }

  function TakeIpSet(data: Bytes): Result<(seq<Pair>, Bytes)> {
    if |data| < 9 || data[0] != 1 || FromBytes(data[1..9]) > MAX_ITEMS then Err
    else TakePairs(data[9..], FromBytes(data[1..9]), [])
  }

  /** Another version, or an address of another length, is refused. */
  lemma OthersRefused(data: Bytes, v: nat, rest: Bytes)
    ensures data != [] && data[0] != 1 ==> TakeIpSet(data).Err?
    ensures v < U64 && v != 4 && v != 16 ==> TakeAddress(Uvarint(v) + rest).Err?
  {
    if v < U64 {
      UvarintRoundTrip(v, rest, 0, 0, v);
    }
  }

  // ----- reading

  method ReadAddress(r: Reader) returns (out: Result<nat>)
    modifies r
    ensures out.Ok? <==> TakeAddress(old(r.rest)).Ok?
    ensures out.Ok? ==> Ok((out.value, r.rest)) == TakeAddress(old(r.rest))
  {
    var len :- r.ReadUvarint();
    if len == 4 {
      var a :- r.ReadExact(4);
      return Ok(FromBytes(a) + V4_FLAG);
    }
    if len == 16 {
      var a :- r.ReadExact(16);
      return Ok(FromBytes(a));
    }
    return Err;
  }

  /** `IpSet::read`: fails exactly where the file does not say what it should; else the set for
      the pairs it holds. */
  method ReadIpSet(r: Reader) returns (out: Result<IpSet>)
    modifies r
    ensures out.Ok? <==> TakeIpSet(old(r.rest)).Ok?
    ensures out.Ok? ==> out.value == SetOf(TakeIpSet(old(r.rest)).value.0) && r.rest == TakeIpSet(old(r.rest)).value.1
  {
    ghost var data := r.rest;
    var version :- r.ReadByte();
    if version != 1 {
      return Err;
    }
    var b :- r.ReadExact(8);
    assert b == data[1..9] && r.rest == data[9..];
    var n := FromBytes(b);
    if n > MAX_ITEMS {
      return Err;
    }
    var v4, v6 := [], [];
    ghost var taken: seq<Pair> := [];
    for k := 0 to n
      invariant TakeIpSet(data) == TakePairs(r.rest, n - k, taken)
      invariant v4 == FiledUnder(taken, true) && v6 == FiledUnder(taken, false)
    {
      var from :- ReadAddress(r);
      var to :- ReadAddress(r);
      FiledMore(taken, (from, to), true);
      FiledMore(taken, (from, to), false);
      taken := taken + [(from, to)];
      if FiledAsV4(from, to) {
        v4 := v4 + [Truncated((from, to))];
      } else {
        v6 := v6 + [(from, to)];
      }
    }
    out := Ok(IpSet(SortRanges(v4), SortRanges(v6)));
  }

  lemma {:induction false} FiledMore(pairs: seq<Pair>, pair: Pair, v4: bool)
    ensures FiledUnder(pairs + [pair], v4) == FiledUnder(pairs, v4) + FiledUnder([pair], v4)
    ensures FiledUnder([pair], v4) ==
      if FiledAsV4(pair.0, pair.1) != v4 then [] else if v4 then [Truncated(pair)] else [pair]
  {
    assert [pair][1..] == [];
    if pairs == [] {
      assert pairs + [pair] == [pair];
    } else {
      assert (pairs + [pair])[1..] == pairs[1..] + [pair];
      FiledMore(pairs[1..], pair, v4);
    }
  }

  // ----- writing

  function AddressSize(v4: bool): byte {
    if v4 then 4 else 16
  }

  function AddressBytes(ip: Ip): Bytes {
    [AddressSize(ip.v4)] + ToBytes(ip.addr, AddressSize(ip.v4))
  }

  function RangesBytes(list: seq<(Ip, Ip)>): Bytes {
    if list == [] then [] else AddressBytes(list[0].0) + (AddressBytes(list[0].1) + RangesBytes(list[1..]))
  }

  /** An address set as a rule-set file holds it. */
  function SetBytes(list: seq<(Ip, Ip)>): Bytes {
    [1] + (ToBytes(|list|, 8) + RangesBytes(list))
  }

  /** The bytes of the set of 10.0.0.0 to 10.255.255.255. */
  lemma SmallSet()
    ensures SetBytes([(Ip(true, 0x0A00_0000), Ip(true, 0x0AFF_FFFF))])
      == [1, 0, 0, 0, 0, 0, 0, 0, 1, 4, 10, 0, 0, 0, 4, 10, 255, 255, 255]
  {
    var from, to := Ip(true, 0x0A00_0000), Ip(true, 0x0AFF_FFFF);
    V4Bytes(from, 10, 0, 0, 0);
    V4Bytes(to, 10, 255, 255, 255);
    OneRange(from, to);
  }

  lemma OneRange(from: Ip, to: Ip)
    ensures SetBytes([(from, to)]) == [1, 0, 0, 0, 0, 0, 0, 0, 1] + AddressBytes(from) + AddressBytes(to)
  {
    assert ToBytes(0, 7) == [0, 0, 0, 0, 0, 0, 0];
    assert ToBytes(1, 8) == [0, 0, 0, 0, 0, 0, 0, 1];
    var list := [(from, to)];
    assert list[1..] == [] && RangesBytes([]) == [];
    assert RangesBytes(list) == AddressBytes(from) + (AddressBytes(to) + []);
  }

  lemma V4Bytes(ip: Ip, a: byte, b: byte, c: byte, d: byte)
    requires ip.v4 && ip.addr == 0x100_0000 * a as int + 0x1_0000 * b as int + 0x100 * c as int + d as int
    ensures AddressBytes(ip) == [4, a, b, c, d]
  {
    var top: nat := 0x100 * a as int + b as int;
    assert ToBytes(a, 1) == [a];
    assert ToBytes(top, 2) == [a, b];
    var three: nat := 0x100 * top + c as int;
    assert ToBytes(three, 3) == [a, b, c];
    assert ip.addr == 0x100 * three + d as int;
    assert ToBytes(ip.addr, 4) == [a, b, c, d];
  }

  function RawPairs(list: seq<(Ip, Ip)>): (r: seq<Pair>)
    ensures |r| == |list| && forall k :: 0 <= k < |list| ==> r[k] == (Flagged(list[k].0), Flagged(list[k].1))
  {
    if list == [] then [] else [(Flagged(list[0].0), Flagged(list[0].1))] + RawPairs(list[1..])
  }

  ghost predicate ProperRanges(list: seq<(Ip, Ip)>) {
    forall c :: c in list ==> InFamily(c.0.v4, c.0.addr) && InFamily(c.1.v4, c.1.addr)
  }

  lemma AddressWidths(v4: bool)
    ensures Pow256(AddressSize(v4)) == Pow2(Width(v4))
  {
    Pow2Words();
    if v4 {
      assert Pow256(4) == U32;
    } else {
      Pow2Add(64, 64);
      assert Pow256(8) == U64;
      assert Pow256(12) == U64 * U32;
      assert Pow256(16) == U64 * U64;
    }
  }

  lemma OneByteNumber(n: byte, rest: Bytes)
    requires n < 0x80
    ensures UnUvarint([n] + rest, 0, 0) == Ok((n, rest))
  {
    assert ([n] + rest)[1..] == rest;
  }

  /** A number of `n` bytes is read back. */
  lemma FixedRoundTrip(v: nat, n: nat, rest: Bytes)
    requires v < Pow256(n)
    ensures
      var body := ToBytes(v, n) + rest;
      |body| >= n && FromBytes(body[..n]) == v && body[n..] == rest
  {
    FromTo(v, n);
    assert (ToBytes(v, n) + rest)[..n] == ToBytes(v, n);
  }

  lemma AddressRoundTrip(ip: Ip, rest: Bytes)
    requires InFamily(ip.v4, ip.addr)
    ensures TakeAddress(AddressBytes(ip) + rest) == Ok((Flagged(ip), rest))
  {
    var n := AddressSize(ip.v4);
    var body := ToBytes(ip.addr, n) + rest;
    AddressWidths(ip.v4);
    FixedRoundTrip(ip.addr, n, rest);
    Reassociate([n], ToBytes(ip.addr, n), rest);
    OneByteNumber(n, body);
  }

  lemma {:induction false} RangesRoundTrip(list: seq<(Ip, Ip)>, rest: Bytes, taken: seq<Pair>)
    requires ProperRanges(list)
    ensures TakePairs(RangesBytes(list) + rest, |list|, taken) == Ok((taken + RawPairs(list), rest))
    decreases |list|
  {
    if list == [] {
      assert RangesBytes(list) + rest == rest && taken + RawPairs(list) == taken;
    } else {
      var pair := (Flagged(list[0].0), Flagged(list[0].1));
      PairRoundTrip(list[0], RangesBytes(list[1..]), rest);
      RangesRoundTrip(list[1..], rest, taken + [pair]);
      Together(taken, pair, RawPairs(list[1..]));
    }
  }

  lemma Together(taken: seq<Pair>, pair: Pair, more: seq<Pair>)
    ensures taken + [pair] + more == taken + ([pair] + more)
  {}

  lemma PairRoundTrip(range: (Ip, Ip), more: Bytes, rest: Bytes)
    requires InFamily(range.0.v4, range.0.addr) && InFamily(range.1.v4, range.1.addr)
    ensures TakePair(AddressBytes(range.0) + (AddressBytes(range.1) + more) + rest)
      == Ok(((Flagged(range.0), Flagged(range.1)), more + rest))
  {
    var a, b := AddressBytes(range.0), AddressBytes(range.1);
    assert a + (b + more) + rest == a + (b + (more + rest));
    AddressRoundTrip(range.0, b + (more + rest));
    AddressRoundTrip(range.1, more + rest);
  }

  /** A written set reads back as it was, exactly when it has not too many ranges. */
  lemma IpSetRoundTrip(list: seq<(Ip, Ip)>, rest: Bytes)
    requires ProperRanges(list) && |list| < U64
    ensures TakeIpSet(SetBytes(list) + rest) == if |list| <= 0x1000_0000 then Ok((RawPairs(list), rest)) else Err
  {
    var n, more := |list|, RangesBytes(list) + rest;
    WordWidth();
    FromTo(n, 8);
    Reassociate(ToBytes(n, 8), RangesBytes(list), rest);
    Reassociate([1], ToBytes(n, 8) + RangesBytes(list), rest);
    SetTaken(SetBytes(list) + rest, ToBytes(n, 8), more, n);
    RangesRoundTrip(list, rest, []);
    NothingBefore(RawPairs(list));
  }

  lemma NothingBefore(pairs: seq<Pair>)
    ensures [] + pairs == pairs
  {}

  lemma SetTaken(data: Bytes, head: Bytes, more: Bytes, n: nat)
    requires data == [1] + (head + more) && |head| == 8 && FromBytes(head) == n
    ensures TakeIpSet(data) == if n > MAX_ITEMS then Err else TakePairs(more, n, [])
  {
    assert data[1..9] == head && data[9..] == more;
  }

  // ----- from prefixes to answers, through the file

  /** The range of a prefix, by its first and last address. */
  function RangeOf(c: Prefix): (Ip, Ip) {
    (Ip(c.0.v4, CidrRange(c.0, c.1).0), Ip(c.0.v4, CidrRange(c.0, c.1).1))
  }

  function RangesOf(list: seq<Prefix>): (r: seq<(Ip, Ip)>)
    ensures |r| == |list| && forall k :: 0 <= k < |list| ==> r[k] == RangeOf(list[k])
  {
    seq(|list|, k requires 0 <= k < |list| => RangeOf(list[k]))
  }

  /** The reader takes the range of this prefix for one of the other family: it is of IPv6, and
      starts within the first 2^32 addresses of the upper half. */
  predicate Misfiled(c: Prefix) {
    !c.0.v4 && V4_FLAG <= CidrRange(c.0, c.1).0 < V4_FLAG + U32
  }

  /** The raw bounds of a prefix, and how they are filed. */
  lemma PrefixFiled(c: Prefix)
    requires InFamily(c.0.v4, c.0.addr)
    ensures
      var (from, to) := RangeOf(c);
      && InFamily(from.v4, from.addr) && InFamily(to.v4, to.addr)
      && (FiledAsV4(Flagged(from), Flagged(to)) <==> c.0.v4 || Misfiled(c))
      && (c.0.v4 ==> Truncated((Flagged(from), Flagged(to))) == CidrRange(c.0, c.1))
  {
    CidrRangeFits(c.0, c.1);
    FiledByFamily(RangeOf(c).0, RangeOf(c).1);
  }

  /** The pair of raw bounds for prefix `k`. */
  lemma PairFiled(list: seq<Prefix>, k: nat)
    requires ProperPrefixes(list) && k < |list|
    ensures
      var pair := RawPairs(RangesOf(list))[k];
      && (FiledAsV4(pair.0, pair.1) <==> list[k].0.v4 || Misfiled(list[k]))
      && CidrRange(list[k].0, list[k].1) == if list[k].0.v4 then Truncated(pair) else pair
    ensures InFamily(list[k].0.v4, RangesOf(list)[k].0.addr) && InFamily(list[k].0.v4, RangesOf(list)[k].1.addr)
  {
    PrefixFiled(list[k]);
  }

  ghost predicate HasRange(list: seq<Prefix>, v4: bool, r: Range) {
    exists c :: c in list && c.0.v4 == v4 && r == CidrRange(c.0, c.1)
  }

  lemma PrefixOfRange(list: seq<Prefix>, pairs: seq<Pair>, v4: bool, r: Range)
    requires ProperPrefixes(list) && (forall c :: c in list ==> !Misfiled(c)) && pairs == RawPairs(RangesOf(list))
    requires HasFiled(pairs, v4, r)
    ensures HasRange(list, v4, r)
  {
    var k :| 0 <= k < |pairs| && IsFiled(pairs[k], v4, r);
    PairFiled(list, k);
    assert list[k] in list;
  }

  lemma RangeOfPrefix(list: seq<Prefix>, pairs: seq<Pair>, v4: bool, r: Range)
    requires ProperPrefixes(list) && (forall c :: c in list ==> !Misfiled(c)) && pairs == RawPairs(RangesOf(list))
    requires HasRange(list, v4, r)
    ensures HasFiled(pairs, v4, r)
  {
    var c :| c in list && c.0.v4 == v4 && r == CidrRange(c.0, c.1);
    var k :| 0 <= k < |list| && list[k] == c;
    PairFiled(list, k);
    assert IsFiled(pairs[k], v4, r);
  }

  /** The set that is read back holds the prefixes, each under its family, exactly if none of
      them is misfiled. */
  lemma FileHoldsIff(list: seq<Prefix>)
    requires ProperPrefixes(list)
    ensures HoldsPrefixes(SetOf(RawPairs(RangesOf(list))), list) <==> forall c :: c in list ==> !Misfiled(c)
  {
    if c :| c in list && Misfiled(c) {
      var r := CidrRange(c.0, c.1);
      SetHolds(RawPairs(RangesOf(list)), false, r);
      NowhereFiled(list, c);
    } else {
      FileHoldsPrefixes(list);
    }
  }

  lemma NowhereFiled(list: seq<Prefix>, c: Prefix)
    requires ProperPrefixes(list) && c in list && Misfiled(c)
    ensures !HasFiled(RawPairs(RangesOf(list)), false, CidrRange(c.0, c.1))
  {
    forall k | 0 <= k < |list|
      ensures !IsFiled(RawPairs(RangesOf(list))[k], false, CidrRange(c.0, c.1))
    {
      PairFiled(list, k);
    }
  }

  /** An IPv6 address from 8000:: on, written as a set, is not found; the IPv4 address of its
      last 32 bits is. */
  lemma MisfiledAnswers(ip: Ip)
    requires !ip.v4 && V4_FLAG <= ip.addr < V4_FLAG + U32
    ensures
      var list, other := [(ip, None)], Ip(true, ip.addr - V4_FLAG);
      var s := SetOf(RawPairs(RangesOf(list)));
      && AnyContains(list, ip) && !Found(s.v6, ip.addr)
      && !AnyContains(list, other) && Found(s.v4, other.addr)
  {
    var list: seq<Prefix> := [(ip, None)];
    OneAddress(ip);
    assert list[0] in list;
    var r := (ip.addr, ip.addr);
    assert RawPairs(RangesOf(list)) == [r];
    OneMisfiled(r);
    assert IsPartition([Truncated(r)], ip.addr - V4_FLAG, 1);
  }

  lemma OneAddress(ip: Ip)
    requires !ip.v4 && ip.addr < V4_FLAG + U32
    ensures InFamily(false, ip.addr) && CidrRange(ip, None) == (ip.addr, ip.addr) && MakeCidr(ip, None).Contains(ip)
  {
    Pow2Words();
    Pow2Add(64, 64);
    CidrIsInterval(ip, None, ip);
  }

  lemma OneMisfiled(r: Range)
    requires V4_FLAG <= r.0 == r.1 < V4_FLAG + U32
    ensures SetOf([r]) == IpSet([Truncated(r)], []) && Truncated(r).0 == r.0 - V4_FLAG
  {
    FiledMore([], r, true);
    FiledMore([], r, false);
    assert [Truncated(r)][1..] == [];
  }

  lemma FileHoldsPrefixes(list: seq<Prefix>)
    requires ProperPrefixes(list) && forall c :: c in list ==> !Misfiled(c)
    ensures HoldsPrefixes(SetOf(RawPairs(RangesOf(list))), list)
  {
    forall v4, r
      ensures r in SetOf(RawPairs(RangesOf(list))).Ranges(v4) <==> HasRange(list, v4, r)
    {
      SetHolds(RawPairs(RangesOf(list)), v4, r);
      if HasFiled(RawPairs(RangesOf(list)), v4, r) {
        PrefixOfRange(list, RawPairs(RangesOf(list)), v4, r);
      }
      if HasRange(list, v4, r) {
        RangeOfPrefix(list, RawPairs(RangesOf(list)), v4, r);
      }
    }
  }

  lemma RangesAreProper(list: seq<Prefix>)
    requires ProperPrefixes(list)
    ensures ProperRanges(RangesOf(list))
  {
    var ranges := RangesOf(list);
    forall range | range in ranges
      ensures InFamily(range.0.v4, range.0.addr) && InFamily(range.1.v4, range.1.addr)
    {
      var k :| 0 <= k < |ranges| && ranges[k] == range;
      PairFiled(list, k);
    }
  }

  /** Prefixes written as a set, read back and asked.  If none is misfiled, only addresses of
      the prefixes are found; and all of them, if no range hides part of an earlier one. */
  method AskPrefixes(list: seq<Prefix>, ip: Ip) returns (hit: bool, ghost s: IpSet)
    requires ProperPrefixes(list) && |list| <= 0x1000_0000 && InFamily(ip.v4, ip.addr)
    ensures s == SetOf(RawPairs(RangesOf(list))) && s.Valid() && hit == Found(s.Ranges(ip.v4), ip.addr)
    ensures (forall c :: c in list ==> !Misfiled(c)) ==>
      && (hit ==> AnyContains(list, ip))
      && (Unshadowed(s.Ranges(ip.v4)) ==> hit == AnyContains(list, ip))
  {
    var ranges := RangesOf(list);
    RangesAreProper(list);
    IpSetRoundTrip(ranges, []);
    var doc := SetBytes(ranges);
    assert doc + [] == doc;
    var reader := new Reader(doc);
    var out := ReadIpSet(reader);
    s := out.value;
    SetHolds(RawPairs(ranges), true, (0, 0));
    hit := out.value.Contains(ip);
    if forall c :: c in list ==> !Misfiled(c) {
      FileHoldsIff(list);
      CoversIsContains(s, list, ip);
      FoundIffUnshadowed(s.Ranges(ip.v4));
    }
  }
}
