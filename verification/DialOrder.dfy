/** The order in which the addresses of a server are tried. */
module DialOrder {
  import opened Common

  datatype Addr = Addr(v6: bool, host: nat, port: nat)

  // ----- the order

  /** The addresses of one family, in order. */
  function Family(addrs: seq<Addr>, v6: bool): (r: seq<Addr>)
    ensures |r| <= |addrs|
  {
    if addrs == [] then []
    else (if addrs[0].v6 == v6 then [addrs[0]] else []) + Family(addrs[1..], v6)
  }

  function Head<T>(s: seq<T>): seq<T> {
    if s == [] then [] else [s[0]]
  }

  function Tail<T>(s: seq<T>): seq<T> {
    if s == [] then [] else s[1..]
  }

  /** One from each list in turn; what is left of the longer one at the end. */
  function Woven<T>(a: seq<T>, b: seq<T>): seq<T>
    decreases |a| + |b|
  {
    if a == [] && b == [] then [] else Head(a) + Head(b) + Woven(Tail(a), Tail(b))
  }

  function FirstFamily(addrs: seq<Addr>): bool {
    addrs != [] && addrs[0].v6
  }

  function Interleaved(addrs: seq<Addr>): seq<Addr> {
    var v6 := FirstFamily(addrs);
    Woven(Family(addrs, v6), Family(addrs, !v6))
  }

  function Reverse<T>(s: seq<T>): (r: seq<T>)
    ensures |r| == |s| && forall k :: 0 <= k < |s| ==> r[k] == s[|s| - 1 - k]
  {
    seq(|s|, k requires 0 <= k < |s| => s[|s| - 1 - k])
  }

  ghost predicate IsReverse<T>(stack: seq<T>, s: seq<T>) {
    |stack| == |s| && forall k :: 0 <= k < |s| ==> stack[|s| - 1 - k] == s[k]
  }

  /** Popping the end of a reversed list is taking its head. */
  method Pop<T>(stack: seq<T>, ghost s: seq<T>) returns (top: seq<T>, rest: seq<T>)
    requires IsReverse(stack, s)
    ensures top == Head(s) && IsReverse(rest, Tail(s))
  {
    if stack == [] {
      return [], stack;
    }
    return [stack[|stack| - 1]], stack[..|stack| - 1];
  }

  lemma WovenStep<T>(out: seq<T>, a: seq<T>, b: seq<T>)
    requires a != [] || b != []
    ensures out + Head(a) + Head(b) + Woven(Tail(a), Tail(b)) == out + Woven(a, b)
    ensures |Tail(a)| + |Tail(b)| < |a| + |b|
  {}

  /** Popping the two stacks in turn. */
  method Weave<T(==)>(front: seq<T>, back: seq<T>) returns (out: seq<T>)
    ensures out == Woven(front, back)
  {
    var same, other := Reverse(front), Reverse(back);
    ghost var a, b := front, back;
    ghost var whole := Woven(a, b);
    out := [];
    while same != [] || other != []
      invariant IsReverse(same, a) && IsReverse(other, b)
      invariant out + Woven(a, b) == whole
      decreases |a| + |b|
    {
      WovenStep(out, a, b);
      var first, second: seq<T>;
      first, same := Pop(same, a);
      second, other := Pop(other, b);
      out := out + first + second;
      a, b := Tail(a), Tail(b);
    }
  }

  method Interleave(addrs: seq<Addr>) returns (out: seq<Addr>)
    ensures out == Interleaved(addrs)
  {
    var v6 := addrs != [] && addrs[0].v6;
    out := Weave(Family(addrs, v6), Family(addrs, !v6));
  }

  lemma {:induction false} FamilyAppends(a: seq<Addr>, b: seq<Addr>, v6: bool)
    ensures Family(a + b, v6) == Family(a, v6) + Family(b, v6)
  {
    if a == [] {
      assert a + b == b;
    } else {
      assert (a + b)[1..] == a[1..] + b;
      FamilyAppends(a[1..], b, v6);
    }
  }

  ghost predicate AllOf(s: seq<Addr>, v6: bool) {
    forall k :: 0 <= k < |s| ==> s[k].v6 == v6
  }

  lemma {:induction false} FamilyIsOne(addrs: seq<Addr>, v6: bool)
    ensures AllOf(Family(addrs, v6), v6)
  {
    if addrs != [] {
      FamilyIsOne(addrs[1..], v6);
    }
  }

  lemma {:induction false} FamilyOfOne(addrs: seq<Addr>, v6: bool, other: bool)
    requires AllOf(addrs, v6)
    ensures Family(addrs, other) == if other == v6 then addrs else []
  {
    if addrs != [] {
      FamilyOfOne(addrs[1..], v6, other);
    }
  }

  lemma {:induction false} FamiliesAreAll(addrs: seq<Addr>, v6: bool)
    ensures multiset(Family(addrs, v6)) + multiset(Family(addrs, !v6)) == multiset(addrs)
  {
    if addrs != [] {
      var rest := addrs[1..];
      FamiliesAreAll(rest, v6);
      assert addrs == [addrs[0]] + rest;
      assert multiset(addrs) == multiset{addrs[0]} + multiset(rest);
      var f := addrs[0].v6;
      assert Family(addrs, f) == [addrs[0]] + Family(rest, f) && Family(addrs, !f) == [] + Family(rest, !f);
    }
  }

  lemma HeadTail<T>(s: seq<T>)
    ensures Head(s) + Tail(s) == s
    ensures |Tail(s)| <= |s| && (s != [] ==> |Tail(s)| < |s|)
  {}

  lemma {:induction false} WovenFamily(a: seq<Addr>, b: seq<Addr>, v6: bool, f: bool)
    requires AllOf(a, v6) && AllOf(b, !v6)
    ensures Family(Woven(a, b), f) == if f == v6 then a else b
    decreases |a| + |b|
  {
    if a != [] || b != [] {
      HeadTail(a);
      HeadTail(b);
      WovenFamily(Tail(a), Tail(b), v6, f);
      FamilyAppends(Head(a) + Head(b), Woven(Tail(a), Tail(b)), f);
      FamilyAppends(Head(a), Head(b), f);
      FamilyOfOne(Head(a), v6, f);
      FamilyOfOne(Head(b), !v6, f);
    }
  }

  lemma {:induction false} WovenIsAll<T>(a: seq<T>, b: seq<T>)
    ensures multiset(Woven(a, b)) == multiset(a) + multiset(b)
    decreases |a| + |b|
  {
    if a != [] || b != [] {
      HeadTail(a);
      HeadTail(b);
      WovenIsAll(Tail(a), Tail(b));
      assert multiset(a) == multiset(Head(a)) + multiset(Tail(a));
      assert multiset(b) == multiset(Head(b)) + multiset(Tail(b));
    }
  }

  /** The order is a permutation that keeps each family's own order. */
  lemma InterleavedPermutes(addrs: seq<Addr>, v6: bool)
    ensures multiset(Interleaved(addrs)) == multiset(addrs)
    ensures Family(Interleaved(addrs), v6) == Family(addrs, v6)
  {
    var first := FirstFamily(addrs);
    FamilyIsOne(addrs, first);
    FamilyIsOne(addrs, !first);
    FamiliesAreAll(addrs, first);
    WovenFamily(Family(addrs, first), Family(addrs, !first), first, v6);
    WovenIsAll(Family(addrs, first), Family(addrs, !first));
  }

  lemma {:induction false} WovenAt<T>(a: seq<T>, b: seq<T>, k: nat)
    requires k < Min(|a|, |b|)
    ensures |Woven(a, b)| > 2 * k + 1 && Woven(a, b)[2 * k] == a[k] && Woven(a, b)[2 * k + 1] == b[k]
    decreases k
  {
    var rest := Woven(Tail(a), Tail(b));
    assert Woven(a, b) == [a[0], b[0]] + rest;
    if k > 0 {
      WovenAt(Tail(a), Tail(b), k - 1);
      assert rest[2 * (k - 1)] == a[k] && rest[2 * (k - 1) + 1] == b[k];
      assert Woven(a, b)[2 * k] == rest[2 * k - 2] && Woven(a, b)[2 * k + 1] == rest[2 * k - 1];
    }
  }

  /** Families alternate while both last, beginning with that of the first address. */
  lemma InterleavedAlternates(addrs: seq<Addr>, k: nat)
    requires k < Min(|Family(addrs, true)|, |Family(addrs, false)|)
    ensures addrs != []
    ensures
      var order, first := Interleaved(addrs), addrs[0].v6;
      |order| > 2 * k + 1 && order[2 * k].v6 == first && order[2 * k + 1].v6 == !first
  {
    var first := FirstFamily(addrs);
    FamilyIsOne(addrs, first);
    FamilyIsOne(addrs, !first);
    WovenAt(Family(addrs, first), Family(addrs, !first), k);
  }
}
