/** Pairing two lists key by key: the `r`-th of a key here with the `r`-th of it there. */
module Pairing {
  import opened Common

  function Count<T(==)>(s: seq<T>, x: T): nat {
    if s == [] then 0 else Count(s[..|s| - 1], x) + if s[|s| - 1] == x then 1 else 0
  }

  /** The place of the `r`-th `x`, from zero. */
  function Nth<T(==)>(s: seq<T>, x: T, r: nat): (j: Option<nat>)
    ensures j.Some? ==> j.value < |s|
  {
    if s == [] then None
    else
      var front := s[..|s| - 1];
      if r < Count(front, x) then Nth(front, x, r)
      else if r == Count(front, x) && s[|s| - 1] == x then Some(|s| - 1)
      else None
  }

  /** Place `j` has no partner: at least as many of its key come before it as there are
      partners. */
  predicate Unpaired<T(==)>(partners: seq<Option<T>>, keys: seq<T>, j: nat)
    requires j < |keys|
  {
    Count(keys[..j], keys[j]) >= Count(partners, Some(keys[j]))
  }

  lemma {:induction false} CountMonotone<T>(s: seq<T>, x: T, i: nat, j: nat)
    requires i <= j <= |s|
    ensures Count(s[..i], x) <= Count(s[..j], x)
    decreases j - i
  {
    if i < j {
      CountMonotone(s, x, i, j - 1);
      CountStep(s, x, j - 1);
    }
  }

  lemma CountStep<T>(s: seq<T>, x: T, j: nat)
    requires j < |s|
    ensures Count(s[..j + 1], x) == Count(s[..j], x) + if s[j] == x then 1 else 0
  {
    assert s[..j + 1][..j] == s[..j];
  }

  lemma CountAppend<T>(s: seq<T>, y: T, x: T)
    ensures Count(s + [y], x) == Count(s, x) + if x == y then 1 else 0
  {
    assert (s + [y])[..|s|] == s;
  }

  /** `Nth` finds exactly the place with `r` of its kind before it. */
  lemma {:induction false} NthIs<T>(s: seq<T>, x: T, r: nat, j: nat)
    ensures Nth(s, x, r) == Some(j) <==> (j < |s| && s[j] == x && Count(s[..j], x) == r)
    ensures Nth(s, x, r).None? <==> Count(s, x) <= r
  {
    if s != [] {
      var n := |s| - 1;
      NthIs(s[..n], x, r, j);
      if j < n {
        assert s[..n][..j] == s[..j];
        CountMonotone(s, x, j + 1, n);
        CountStep(s, x, j);
      }
    }
  }

  lemma CountBefore<T>(s: seq<T>, x: T, j: nat)
    requires j < |s| && s[j] == x
    ensures Count(s[..j], x) < Count(s, x)
  {
    CountStep(s, x, j);
    CountMonotone(s, x, j + 1, |s|);
    assert s[..|s|] == s;
  }

  /** The first unpaired place of a key is that of its next partner. */
  ghost predicate FirstUnpaired<T>(partners: seq<Option<T>>, keys: seq<T>, x: T, r: Option<nat>) {
    && (r.None? ==> forall j :: 0 <= j < |keys| && keys[j] == x ==> !Unpaired(partners, keys, j))
    && (r.Some? ==>
      && r.value < |keys| && keys[r.value] == x && Unpaired(partners, keys, r.value)
      && forall j :: 0 <= j < r.value && keys[j] == x ==> !Unpaired(partners, keys, j))
  }

  lemma FirstUnpairedIsNth<T>(partners: seq<Option<T>>, keys: seq<T>, x: T, r: Option<nat>)
    requires FirstUnpaired(partners, keys, x, r)
    ensures r == Nth(keys, x, Count(partners, Some(x)))
  {
    var count := Count(partners, Some(x));
    var nth := Nth(keys, x, count);
    if nth.Some? {
      NthIs(keys, x, count, nth.value);
      assert Unpaired(partners, keys, nth.value);
    }
    if r.Some? {
      NthIs(keys, x, count, r.value);
      CountBefore(keys, x, r.value);
      if nth.Some? && nth.value > r.value {
        CountStep(keys, x, r.value);
        CountMonotone(keys, x, r.value + 1, nth.value);
      }
    }
  }

  /** Another partner pairs off exactly the next place of its key, if there is one. */
  lemma OnePaired<T>(partners: seq<Option<T>>, keys: seq<T>, x: T, k: nat)
    requires k < |keys|
    ensures Unpaired(partners + [Some(x)], keys, k) <==>
      (Unpaired(partners, keys, k) && Nth(keys, x, Count(partners, Some(x))) != Some(k))
  {
    CountAppend(partners, Some(x), Some(keys[k]));
    NthIs(keys, x, Count(partners, Some(x)), k);
  }

  lemma NonePaired<T>(partners: seq<Option<T>>, keys: seq<T>, k: nat)
    requires k < |keys|
    ensures Unpaired(partners + [None], keys, k) <==> Unpaired(partners, keys, k)
  {
    CountAppend(partners, None, Some(keys[k]));
  }

  // ----- what stays unpaired, weighed

  /** The items at unpaired places below `m`, with their multiplicity. */
  function Left<T(==), V(==)>(partners: seq<Option<T>>, keys: seq<T>, items: seq<V>, m: nat): multiset<V>
    requires m <= |keys| == |items|
  {
    if m == 0 then multiset{}
    else
      Left(partners, keys, items, m - 1)
      + if Unpaired(partners, keys, m - 1) then multiset{items[m - 1]} else multiset{}
  }

  /** With no partners everything is left. */
  lemma {:induction false} LeftAll<T, V>(keys: seq<T>, items: seq<V>, m: nat)
    requires m <= |keys| == |items|
    ensures Left([], keys, items, m) == multiset(items[..m])
  {
    if m > 0 {
      LeftAll(keys, items, m - 1);
      assert items[..m] == items[..m - 1] + [items[m - 1]];
      assert Unpaired([], keys, m - 1);
    }
  }

  /** One more partner takes exactly its counterpart away. */
  lemma {:induction false} LeftFewer<T, V>(partners: seq<Option<T>>, keys: seq<T>, items: seq<V>, x: T, m: nat)
    requires m <= |keys| == |items|
    ensures
      var r := Nth(keys, x, Count(partners, Some(x)));
      Left(partners, keys, items, m) == Left(partners + [Some(x)], keys, items, m)
        + if r.Some? && r.value < m then multiset{items[r.value]} else multiset{}
  {
    if m > 0 {
      LeftFewer(partners, keys, items, x, m - 1);
      OnePaired(partners, keys, x, m - 1);
      NthIs(keys, x, Count(partners, Some(x)), m - 1);
      var r := Nth(keys, x, Count(partners, Some(x)));
      if r == Some(m - 1) {
        assert Unpaired(partners, keys, m - 1);
      }
    }
  }

  lemma {:induction false} LeftSame<T, V>(partners: seq<Option<T>>, keys: seq<T>, items: seq<V>, m: nat)
    requires m <= |keys| == |items|
    ensures Left(partners + [None], keys, items, m) == Left(partners, keys, items, m)
  {
    if m > 0 {
      LeftSame(partners, keys, items, m - 1);
      NonePaired(partners, keys, m - 1);
    }
  }
}
