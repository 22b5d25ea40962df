/** The fake-IP allocator: names in, addresses out, and back again. */
module FakeIp {
  import opened Common
  import opened Words
  import opened Addresses

  const FIRST_INDEX: nat := 2

  // ----- what the maps mean, told by the history of new names

  /** The index handed to the `t`-th new name: from `FIRST_INDEX` on, around the range. */
  function IndexAt(t: nat, size: nat): (i: nat)
    requires size > FIRST_INDEX
    ensures i < size
  {
    if t == 0 then FIRST_INDEX
    else if IndexAt(t - 1, size) + 1 == size then 0
    else IndexAt(t - 1, size) + 1
  }

  /** The `t`-th new name is still held: fewer than `size` new names came after it. */
  predicate Held(log: seq<Bytes>, size: nat, t: nat) {
    t < |log| <= t + size
  }

  ghost predicate Live(log: seq<Bytes>, size: nat, name: Bytes) {
    exists t: nat :: Held(log, size, t) && log[t] == name
  }

  /** A name arrives again only after it has been dropped. */
  ghost predicate Fresh(log: seq<Bytes>, size: nat) {
    forall t, u :: 0 <= t < u < |log| && u <= t + size ==> log[t] != log[u]
  }

  /** The history after one more request. */
  ghost function Arrive(log: seq<Bytes>, size: nat, name: Bytes): seq<Bytes> {
    if Live(log, size, name) then log else log + [name]
  }

  ghost function Run(names: seq<Bytes>, size: nat): seq<Bytes> {
    if names == [] then [] else Arrive(Run(names[..|names| - 1], size), size, names[|names| - 1])
  }

  /** The `t`-th new name is `name`, is still held, and was handed `index`. */
  ghost predicate Holds(log: seq<Bytes>, size: nat, index: nat, name: Bytes, t: nat)
    requires size > FIRST_INDEX
  {
    Held(log, size, t) && IndexAt(t, size) == index && log[t] == name
  }

  /** The name behind an index: the newest one it was handed to, while held. */
  ghost predicate Owns(log: seq<Bytes>, size: nat, index: nat, name: Bytes)
    requires size > FIRST_INDEX
  {
    exists t: nat :: Holds(log, size, index, name, t)
  }

  lemma {:induction false} IndexAdvances(t: nat, u: nat, size: nat)
    requires size > FIRST_INDEX && t <= u <= t + size
    ensures IndexAt(u, size) ==
      if IndexAt(t, size) + (u - t) < size then IndexAt(t, size) + (u - t) else IndexAt(t, size) + (u - t) - size
    decreases u - t
  {
    if t < u {
      IndexAdvances(t, u - 1, size);
    }
  }

  /** Within `size` arrivals an index comes up again only at the very end. */
  lemma SameIndex(t: nat, u: nat, size: nat)
    requires size > FIRST_INDEX && t < u <= t + size
    ensures IndexAt(t, size) == IndexAt(u, size) <==> u == t + size
  {
    IndexAdvances(t, u, size);
  }

  // ----- the wrapping counter

  lemma MulApart(k: int, s: nat)
    ensures k >= 1 ==> k * s >= s
    ensures k <= -1 ==> k * s <= -(s as int)
  {}

  lemma ModIs(x: nat, s: nat, q: nat, r: nat)
    requires s > 0 && x == q * s + r && r < s
    ensures x % s == r
  {
    var p := x / s;
    assert x == p * s + x % s;
    assert (p - q) * s == r - x % s;
    MulApart(p - q, s);
  }

  /** Reducing a wrapped counter is reducing the counter, as the size divides 2^32. */
  lemma WrapHarmless(x: nat, size: nat, m: nat)
    requires size > 0 && size * m == U32
    ensures x % U32 % size == x % size
  {
    var q, r := x / U32, x % U32;
    var p := r / size;
    assert r == p * size + r % size;
    assert q * (size * m) == q * m * size;
    assert x == (q * m + p) * size + r % size;
    ModIs(x, size, q * m + p, r % size);
  }

  lemma {:induction false} IndexIsMod(t: nat, size: nat)
    requires size > FIRST_INDEX
    ensures IndexAt(t, size) == (2 + t) % size
  {
    if t == 0 {
      ModIs(FIRST_INDEX, size, 0, FIRST_INDEX);
    } else {
      IndexIsMod(t - 1, size);
      var x := FIRST_INDEX + t - 1;
      var q := x / size;
      assert x == q * size + x % size;
      if x % size + 1 < size {
        ModIs(x + 1, size, q, x % size + 1);
      } else {
        assert x + 1 == (q + 1) * size;
        ModIs(x + 1, size, q + 1, 0);
      }
    }
  }

  // ----- runs

  lemma {:induction false} RunFresh(names: seq<Bytes>, size: nat)
    ensures Fresh(Run(names, size), size)
  {
    if names != [] {
      RunFresh(names[..|names| - 1], size);
      var log := Run(names[..|names| - 1], size);
      if !Live(log, size, names[|names| - 1]) {
        forall t | 0 <= t < |log| && |log| <= t + size
          ensures log[t] != names[|names| - 1]
        {
          assert Held(log, size, t);
        }
      }
    }
  }

  lemma {:induction false} RunGrows(a: seq<Bytes>, b: seq<Bytes>, size: nat)
    ensures Run(a, size) <= Run(a + b, size)
    decreases |b|
  {
    if b == [] {
      assert a + b == a;
    } else {
      RunGrows(a, b[..|b| - 1], size);
      assert (a + b)[..|a + b| - 1] == a + b[..|b| - 1];
    }
  }

  /** An index has one owner. */
  lemma OwnerUnique(log: seq<Bytes>, size: nat, index: nat, a: Bytes, b: Bytes)
    requires size > FIRST_INDEX && Owns(log, size, index, a) && Owns(log, size, index, b)
    ensures a == b
  {
    var t: nat :| Holds(log, size, index, a, t);
    var u: nat :| Holds(log, size, index, b, u);
    if t < u {
      SameIndex(t, u, size);
    } else if u < t {
      SameIndex(u, t, size);
    }
  }

  lemma OwnerIsLive(log: seq<Bytes>, size: nat, index: nat, name: Bytes)
    requires size > FIRST_INDEX
    ensures Owns(log, size, index, name) ==> Live(log, size, name)
  {
    if t: nat :| Holds(log, size, index, name, t) {
      assert Held(log, size, t) && log[t] == name;
    }
  }

  /** A live name has one index. */
  lemma IndexUnique(log: seq<Bytes>, size: nat, name: Bytes, i: nat, j: nat)
    requires size > FIRST_INDEX && Fresh(log, size) && Owns(log, size, i, name) && Owns(log, size, j, name)
    ensures i == j
  {
    var t: nat :| Holds(log, size, i, name, t);
    var u: nat :| Holds(log, size, j, name, u);
    assert t == u;
  }

  /** In every run, the index handed out on the arrival of a name leads back to it while
      fewer than `size` more new names have arrived, and to another name once exactly `size`
      have. */
  lemma IndexHoldsForSizeArrivals(a: seq<Bytes>, name: Bytes, b: seq<Bytes>, size: nat)
    requires size > FIRST_INDEX && !Live(Run(a, size), size, name)
    ensures
      var t := |Run(a, size)|;
      var log := Run(a + [name] + b, size);
      var more := |log| - (t + 1);
      && more >= 0
      && (more < size ==> Owns(log, size, IndexAt(t, size), name))
      && (more == size ==> !Owns(log, size, IndexAt(t, size), name))
  {
    var t := |Run(a, size)|;
    var log := Run(a + [name] + b, size);
    assert (a + [name])[..|a|] == a;
    assert Run(a + [name], size) == Run(a, size) + [name];
    RunGrows(a + [name], b, size);
    assert log[t] == name;
    RunFresh(a + [name] + b, size);
    var index := IndexAt(t, size);
    if |log| - (t + 1) < size {
      assert Holds(log, size, index, name, t);
    } else if |log| - (t + 1) == size {
      SameIndex(t, t + size, size);
      assert Holds(log, size, index, log[t + size], t + size);
      if Owns(log, size, index, name) {
        OwnerUnique(log, size, index, name, log[t + size]);
      }
    }
  }

  // ----- the two maps

  /** Both maps say who owns what. */
  ghost predicate MapsOk(log: seq<Bytes>, size: nat, byName: map<Bytes, nat>, byIndex: map<nat, Bytes>)
    requires size > FIRST_INDEX
  {
    && (forall name, i: nat :: (name in byName && byName[name] == i) <==> Owns(log, size, i, name))
    && (forall i: nat, name :: (i in byIndex && byIndex[i] == name) <==> Owns(log, size, i, name))
  }

  /** A new name takes its index from whoever held it; everyone else keeps theirs. */
  lemma OwnersAfter(log: seq<Bytes>, size: nat, name: Bytes, i: nat, n: Bytes)
    requires size > FIRST_INDEX && !Live(log, size, name)
    ensures
      var index := IndexAt(|log|, size);
      Owns(log + [name], size, i, n) <==> (i == index && n == name) || (i != index && Owns(log, size, i, n))
  {
    var log', index := log + [name], IndexAt(|log|, size);
    if t: nat :| Holds(log', size, i, n, t) {
      if t < |log| {
        SameIndex(t, |log|, size);
        assert Holds(log, size, i, n, t);
      }
    }
    if i == index && n == name {
      assert Holds(log', size, i, n, |log|);
    }
    if t: nat :| i != index && Holds(log, size, i, n, t) {
      SameIndex(t, |log|, size);
      assert Holds(log', size, i, n, t);
    }
  }

  /** What `index_for` writes keeps both maps right. */
  lemma MapsAfter(log: seq<Bytes>, size: nat, name: Bytes, byName: map<Bytes, nat>, byIndex: map<nat, Bytes>)
    requires size > FIRST_INDEX && Fresh(log, size) && MapsOk(log, size, byName, byIndex) && !Live(log, size, name)
    ensures
      var index := IndexAt(|log|, size);
      var kept := if index in byIndex then byName - {byIndex[index]} else byName;
      MapsOk(log + [name], size, kept[name := index], byIndex[index := name])
  {
    var index := IndexAt(|log|, size);
    var kept := if index in byIndex then byName - {byIndex[index]} else byName;
    var byName', byIndex' := kept[name := index], byIndex[index := name];
    forall n, i: nat
      ensures (n in byName' && byName'[n] == i) <==> Owns(log + [name], size, i, n)
      ensures (i in byIndex' && byIndex'[i] == n) <==> Owns(log + [name], size, i, n)
    {
      OwnersAfter(log, size, name, i, n);
      OwnerIsLive(log, size, i, n);
      if index in byIndex && n == byIndex[index] && Owns(log, size, i, n) {
        IndexUnique(log, size, n, i, index);
      }
      if Owns(log, size, index, n) {
        assert index in byIndex && byIndex[index] == n;
      }
    }
  }

  // ----- the allocator

  class FakeIp {
    const v4Base: nat
    const v4Size: nat
    const v6Base: nat
    var next: nat
    var byName: map<Bytes, nat>
    var byIndex: map<nat, Bytes>
    ghost var asked: seq<Bytes>

    /** The history of new names. */
    ghost function Log(): seq<Bytes>
      reads this
    {
      Run(asked, v4Size)
    }

    ghost predicate Valid()
      reads this
    {
      && v4Size >= 4 && (exists m: nat :: v4Size * m == U32)
      && v4Base + v4Size <= U32 && v6Base + v4Size <= V4_FLAG * 2
      && next == (FIRST_INDEX + |Log()|) % U32
      && MapsOk(Log(), v4Size, byName, byIndex)
    }

    function Base(v4: bool): nat {
      if v4 then v4Base else v6Base
    }

    /** The address stands for the name. */
    ghost predicate Names(ip: Ip, name: Bytes)
      requires Valid()
      reads this
    {
      ip.addr >= Base(ip.v4) && Owns(Log(), v4Size, ip.addr - Base(ip.v4), name)
    }

    lemma OneName(ip: Ip, a: Bytes, b: Bytes)
      requires Valid() && Names(ip, a) && Names(ip, b)
      ensures a == b
    {
      OwnerUnique(Log(), v4Size, ip.addr - Base(ip.v4), a, b);
    }

    constructor (base: nat, bits: nat, base6: nat)
      requires base + Pow2(32 - Clamp(bits)) <= U32 && base6 + Pow2(32 - Clamp(bits)) <= V4_FLAG * 2
      ensures Valid() && asked == [] && v4Base == base && v6Base == base6
      ensures v4Size == if bits <= 8 then 0x100_0000 else if bits <= 30 then Pow2(32 - bits) else 4
      ensures next == 2 && byName == map[] && byIndex == map[]
    {
      v4Base, v4Size, v6Base := base, Pow2(32 - Clamp(bits)), base6;
      next, byName, byIndex := FIRST_INDEX, map[], map[];
      asked := [];
      new;
      SizeDivides(Clamp(bits));
      SizeBounds();
    }

    /** The two maps undo each other, and hold at most as many names as there are addresses. */
    lemma MapsAreInverse()
      requires Valid()
      ensures forall name :: name in byName ==> byName[name] in byIndex && byIndex[byName[name]] == name
      ensures forall i :: i in byIndex ==> byIndex[i] in byName && byName[byIndex[i]] == i
      ensures |byIndex| <= v4Size && |byName| == |byIndex|
    {
      assert forall name :: name in byName ==> Owns(Log(), v4Size, byName[name], name);
      assert forall i :: i in byIndex ==> Owns(Log(), v4Size, i, byIndex[i]);
      forall i | i in byIndex
        ensures i in Below(v4Size)
      {
        var t: nat :| Holds(Log(), v4Size, i, byIndex[i], t);
      }
      SubsetCount(byIndex.Keys, Below(v4Size));
      InverseCount(byName, byIndex);
      InverseCount(byIndex, byName);
    }

    method IndexFor(name: Bytes) returns (index: nat)
      requires Valid()
      modifies this`next, this`byName, this`byIndex, this`asked
      ensures Valid() && asked == old(asked) + [name]
      ensures Owns(Log(), v4Size, index, name)
      ensures !Live(old(Log()), v4Size, name) ==> index == (2 + |old(Log())|) % v4Size
    {
      ghost var log := Log();
      assert (asked + [name])[..|asked|] == asked;
      if name in byName {
        index := byName[name];
        assert Owns(log, v4Size, index, name);
        ghost var t: nat :| Holds(log, v4Size, index, name, t);
        assert Held(log, v4Size, t) && log[t] == name;
        asked := asked + [name];
        return;
      }
      assert !Live(log, v4Size, name) by {
        if t: nat :| Held(log, v4Size, t) && log[t] == name {
          assert Holds(log, v4Size, IndexAt(t, v4Size), name, t);
          assert Owns(log, v4Size, IndexAt(t, v4Size), name);
        }
      }
      index := next % Max(v4Size, 4);
      NextIndex(|log|, v4Size);
      IndexIsMod(|log|, v4Size);
      RunFresh(asked, v4Size);
      MapsAfter(log, v4Size, name, byName, byIndex);
      next := (next + 1) % U32;
      if index in byIndex {
        byName := byName - {byIndex[index]};
      }
      byIndex := byIndex[index := name];
      byName := byName[name := index];
      asked := asked + [name];
      OwnersAfter(log, v4Size, name, index, name);
    }

    /** The address for a name. */
    method Allocate(name: Bytes, qtype: nat) returns (ip: Ip)
      requires Valid()
      modifies this`next, this`byName, this`byIndex, this`asked
      ensures Valid() && asked == old(asked) + [name]
      ensures ip.v4 == (qtype != QTYPE_AAAA) && Names(ip, name)
      ensures ip.v4 ==> v4Base <= ip.addr < v4Base + v4Size
      ensures !ip.v4 ==> v6Base <= ip.addr < v6Base + v4Size
      ensures !Live(old(Log()), v4Size, name) ==>
        ip.addr == (2 + |old(Log())|) % v4Size + if ip.v4 then v4Base else v6Base
    {
      var index := IndexFor(name);
      assert index < v4Size by {
        ghost var t: nat :| Holds(Log(), v4Size, index, name, t);
      }
      if qtype == QTYPE_AAAA {
        ip := Ip(false, v6Base + index);
      } else {
        ip := Ip(true, v4Base + index);
      }
    }

    /** The name behind an address; none when no name is. */
    method Lookup(ip: Ip) returns (r: Option<Bytes>)
      requires Valid()
      ensures r.Some? ==> Names(ip, r.value)
      ensures r.None? ==> forall name :: !Names(ip, name)
    {
      if ip.addr < Base(ip.v4) || ip.addr - Base(ip.v4) >= v4Size {
        return None;
      }
      var index: nat := ip.addr - Base(ip.v4);
      if index in byIndex {
        assert Owns(Log(), v4Size, index, byIndex[index]);
        r := Some(byIndex[index]);
      } else {
        r := None;
      }
    }
  }

  function Clamp(bits: nat): nat {
    Max(8, Min(bits, 30))
  }

  lemma SizeBounds()
    ensures Pow2(24) == 0x100_0000 && Pow2(2) == 4
  {
    Pow2Words();
    Pow2Add(8, 24);
  }

  lemma SizeDivides(bits: nat)
    requires 8 <= bits <= 30
    ensures Pow2(32 - bits) >= 4 && Pow2(32 - bits) * Pow2(bits) == U32
  {
    Pow2Words();
    Pow2Add(32 - bits, bits);
    Pow2Monotone(2, 32 - bits);
  }

  /** The counter, wrapped at 2^32, yields the next index. */
  lemma NextIndex(t: nat, size: nat)
    requires size > FIRST_INDEX && exists m: nat :: size * m == U32
    ensures (FIRST_INDEX + t) % U32 % size == IndexAt(t, size)
    ensures ((FIRST_INDEX + t) % U32 + 1) % U32 == (FIRST_INDEX + t + 1) % U32
  {
    var m: nat :| size * m == U32;
    WrapHarmless(FIRST_INDEX + t, size, m);
    IndexIsMod(t, size);
    WrappedStep(FIRST_INDEX + t);
  }

  lemma WrappedStep(x: nat)
    ensures (x % U32 + 1) % U32 == (x + 1) % U32
  {
    var q := x / U32;
    assert x == q * U32 + x % U32;
  }

  // ----- counting

  function Below(n: nat): (s: set<nat>)
    ensures |s| == n && forall i :: i in s <==> 0 <= i < n
  {
    if n == 0 then {} else Below(n - 1) + {n - 1}
  }

  lemma SubsetCount<T>(s: set<T>, t: set<T>)
    requires s <= t
    ensures |s| <= |t|
  {
    assert t == s + (t - s);
  }

  lemma {:induction false} InverseCount<A, B>(f: map<A, B>, g: map<B, A>)
    requires forall a :: a in f ==> f[a] in g && g[f[a]] == a
    ensures |f| <= |g|
  {
    InjectiveCount(f, f.Keys, g.Keys);
  }

  lemma {:induction false} InjectiveCount<A, B>(f: map<A, B>, s: set<A>, t: set<B>)
    requires s <= f.Keys && forall a :: a in s ==> f[a] in t
    requires forall a, b :: a in s && b in s && f[a] == f[b] ==> a == b
    ensures |s| <= |t|
    decreases s
  {
    if a :| a in s {
      InjectiveCount(f, s - {a}, t - {f[a]});
    }
  }
}
