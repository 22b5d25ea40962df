/** What a refresh promises: nobody else's nodes are touched, every incoming node arrives
    once, as many ids as possible survive, and none is handed out twice. */
module MergeLaws {
  import opened Common
  import opened Servers
  import opened Pairing
  import opened SubscriptionMerge

  // ----- other people's nodes

  /** The nodes that are not of the subscription, in order. */
  function Foreign(nodes: seq<Node>, sub: string): seq<Node> {
    if nodes == [] then []
    else
      var n := nodes[|nodes| - 1];
      Foreign(nodes[..|nodes| - 1], sub) + if Own(n, sub) then [] else [n]
  }

  lemma {:induction false} ForeignAppends(a: seq<Node>, b: seq<Node>, sub: string)
    ensures Foreign(a + b, sub) == Foreign(a, sub) + Foreign(b, sub)
    decreases |b|
  {
    if b == [] {
      assert a + b == a;
    } else {
      assert (a + b)[..|a + b| - 1] == a + b[..|b| - 1];
      ForeignAppends(a, b[..|b| - 1], sub);
    }
  }

  lemma {:induction false} NewAreOwn(marks: seq<Option<string>>, keys: seq<string>, news: seq<Node>,
      sub: string, m: nat)
    requires m <= |keys| == |news| && forall k :: 0 <= k < |news| ==> Own(news[k], sub)
    ensures Foreign(Added(marks, keys, news, m), sub) == []
  {
    if m > 0 {
      NewAreOwn(marks, keys, news, sub, m - 1);
      ForeignAppends(Added(marks, keys, news, m - 1), IfNew(marks, keys, news, m - 1), sub);
      OneForeign(news[m - 1], sub);
    }
  }

  lemma OneForeign(n: Node, sub: string)
    ensures Foreign([n], sub) == if Own(n, sub) then [] else [n]
  {
    assert [n][..0] == [] && Foreign([], sub) == [];
  }

  lemma {:induction false} KeptForeign(existing: seq<Node>, keys: seq<string>, news: seq<Node>, sub: string)
    requires |keys| == |news| && forall k :: 0 <= k < |news| ==> Own(news[k], sub)
    ensures Foreign(Kept(existing, keys, news, sub), sub) == Foreign(existing, sub)
  {
    if existing != [] {
      var before, node := existing[..|existing| - 1], existing[|existing| - 1];
      KeptForeign(before, keys, news, sub);
      RefreshedForeign(Marks(before, sub), node, keys, news, sub);
      ForeignAppends(Kept(before, keys, news, sub), Refreshed(Marks(before, sub), node, keys, news, sub), sub);
    }
  }

  lemma RefreshedForeign(marks: seq<Option<string>>, node: Node, keys: seq<string>, news: seq<Node>, sub: string)
    requires |keys| == |news| && forall k :: 0 <= k < |news| ==> Own(news[k], sub)
    ensures Foreign(Refreshed(marks, node, keys, news, sub), sub) == if Own(node, sub) then [] else [node]
  {}

  /** Manual servers and those of other subscriptions stay, unchanged and in order. */
  lemma ForeignUntouched(existing: seq<Node>, incoming: seq<Node>, sub: string)
    ensures Foreign(Merged(existing, incoming, sub), sub) == Foreign(existing, sub)
  {
    var news := Adopted(incoming, sub);
    var keys := Keys(news);
    ForeignAppends(Kept(existing, keys, news, sub), Added(Marks(existing, sub), keys, news, |news|), sub);
    KeptForeign(existing, keys, news, sub);
    NewAreOwn(Marks(existing, sub), keys, news, sub, |news|);
  }

  // ----- every incoming node, once

  /** A node but for its id. */
  function Bare(n: Node): Node {
    n.(id := "")
  }

  function Bares(nodes: seq<Node>): (r: seq<Node>)
    ensures |r| == |nodes| && forall k :: 0 <= k < |r| ==> r[k] == Bare(nodes[k])
  {
    seq(|nodes|, k requires 0 <= k < |nodes| => Bare(nodes[k]))
  }

  /** The nodes of the subscription, but for their ids, with their multiplicity. */
  function OwnBare(nodes: seq<Node>, sub: string): multiset<Node> {
    if nodes == [] then multiset{}
    else
      var n := nodes[|nodes| - 1];
      OwnBare(nodes[..|nodes| - 1], sub) + if Own(n, sub) then multiset{Bare(n)} else multiset{}
  }

  lemma {:induction false} OwnBareAppends(a: seq<Node>, b: seq<Node>, sub: string)
    ensures OwnBare(a + b, sub) == OwnBare(a, sub) + OwnBare(b, sub)
    decreases |b|
  {
    if b == [] {
      assert a + b == a;
    } else {
      assert (a + b)[..|a + b| - 1] == a + b[..|b| - 1];
      OwnBareAppends(a, b[..|b| - 1], sub);
    }
  }

  lemma OneBare(n: Node, sub: string)
    ensures OwnBare([n], sub) == if Own(n, sub) then multiset{Bare(n)} else multiset{}
  {
    assert [n][..0] == [];
    assert OwnBare([], sub) == multiset{};
  }

  lemma {:induction false} AddedBare(marks: seq<Option<string>>, keys: seq<string>, news: seq<Node>,
      sub: string, m: nat)
    requires m <= |keys| == |news| && forall k :: 0 <= k < |news| ==> Own(news[k], sub)
    ensures OwnBare(Added(marks, keys, news, m), sub) == Left(marks, keys, Bares(news), m)
  {
    if m > 0 {
      AddedBare(marks, keys, news, sub, m - 1);
      OwnBareAppends(Added(marks, keys, news, m - 1), IfNew(marks, keys, news, m - 1), sub);
      OneBare(news[m - 1], sub);
    }
  }

  /** An existing node brings into the list what it takes from the new ones. */
  lemma RefreshedBare(marks: seq<Option<string>>, node: Node, keys: seq<string>, news: seq<Node>, sub: string)
    requires |keys| == |news| && forall k :: 0 <= k < |news| ==> Own(news[k], sub)
    ensures
      OwnBare(Refreshed(marks, node, keys, news, sub), sub) + Left(marks + [Mark(node, sub)], keys, Bares(news), |news|)
      == Left(marks, keys, Bares(news), |news|)
  {
    var one := Refreshed(marks, node, keys, news, sub);
    if Own(node, sub) {
      LeftFewer(marks, keys, Bares(news), Fingerprint(node), |news|);
      if one != [] {
        OneBare(one[0], sub);
      }
    } else {
      LeftSame(marks, keys, Bares(news), |news|);
      OneBare(node, sub);
    }
  }

  lemma {:induction false} OwnConserved(existing: seq<Node>, keys: seq<string>, news: seq<Node>, sub: string)
    requires |keys| == |news| && forall k :: 0 <= k < |news| ==> Own(news[k], sub)
    ensures OwnBare(Kept(existing, keys, news, sub), sub) + Left(Marks(existing, sub), keys, Bares(news), |news|)
      == multiset(Bares(news))
  {
    if existing == [] {
      LeftAll(keys, Bares(news), |news|);
      assert Bares(news)[..|news|] == Bares(news) && Marks([], sub) == [];
    } else {
      var n := |existing| - 1;
      var before, node := existing[..n], existing[n];
      OwnConserved(before, keys, news, sub);
      RefreshedBare(Marks(before, sub), node, keys, news, sub);
      OwnBareAppends(Kept(before, keys, news, sub), Refreshed(Marks(before, sub), node, keys, news, sub), sub);
      MarksStep(existing, sub, n);
      assert existing[..n + 1] == existing;
    }
  }

  /** Every incoming node is in the list exactly once, as the provider describes it. */
  lemma EachIncomingOnce(existing: seq<Node>, incoming: seq<Node>, sub: string)
    ensures OwnBare(Merged(existing, incoming, sub), sub) == multiset(Bares(Adopted(incoming, sub)))
  {
    var news := Adopted(incoming, sub);
    var keys, marks := Keys(news), Marks(existing, sub);
    OwnConserved(existing, keys, news, sub);
    AddedBare(marks, keys, news, sub, |news|);
    OwnBareAppends(Kept(existing, keys, news, sub), Added(marks, keys, news, |news|), sub);
  }

  // ----- ids

  /** A refreshed node keeps its id, its subscription and its fingerprint. */
  lemma RefreshedMark(marks: seq<Option<string>>, node: Node, keys: seq<string>, news: seq<Node>, sub: string)
    requires keys == Keys(news) && forall k :: 0 <= k < |news| ==> Own(news[k], sub)
    requires Refreshed(marks, node, keys, news, sub) != []
    ensures Marks(Refreshed(marks, node, keys, news, sub), sub) == [Mark(node, sub)]
    ensures Ids(Refreshed(marks, node, keys, news, sub)) == [node.id]
  {
    if Own(node, sub) {
      var key := Fingerprint(node);
      var j := Nth(keys, key, Count(marks, Some(key))).value;
      NthIs(keys, key, Count(marks, Some(key)), j);
    }
  }

  lemma RefreshedCount(marks: seq<Option<string>>, node: Node, keys: seq<string>, news: seq<Node>, sub: string)
    requires keys == Keys(news)
    ensures Refreshed(marks, node, keys, news, sub) == [] <==>
      (Mark(node, sub).Some? && Count(keys, Mark(node, sub).value) <= Count(marks, Mark(node, sub)))
  {
    if Own(node, sub) {
      NthIs(keys, Fingerprint(node), Count(marks, Mark(node, sub)), 0);
    }
  }

  /** Of each fingerprint as many ids survive as there are nodes of it on both sides. */
  lemma {:induction false} KeptCount(existing: seq<Node>, keys: seq<string>, news: seq<Node>, sub: string, key: string)
    requires keys == Keys(news) && forall k :: 0 <= k < |news| ==> Own(news[k], sub)
    ensures Count(Marks(Kept(existing, keys, news, sub), sub), Some(key)) ==
      Min(Count(Marks(existing, sub), Some(key)), Count(keys, key))
  {
    if existing == [] {
      assert Marks([], sub) == [];
    } else {
      var n := |existing| - 1;
      var before, node := existing[..n], existing[n];
      var kept, one := Kept(before, keys, news, sub), Refreshed(Marks(before, sub), node, keys, news, sub);
      KeptCount(before, keys, news, sub, key);
      assert existing[..n + 1] == existing;
      MarksStep(existing, sub, n);
      RefreshedCount(Marks(before, sub), node, keys, news, sub);
      if one == [] {
        assert kept + one == kept;
      } else {
        MarksAppend(kept, one, sub);
        RefreshedMark(Marks(before, sub), node, keys, news, sub);
      }
      CountsTogether(Marks(before, sub), Marks(kept, sub), keys, Mark(node, sub), key);
    }
  }

  /** A mark is kept as long as there are counterparts left. */
  lemma CountsTogether(marks: seq<Option<string>>, kept: seq<Option<string>>, keys: seq<string>,
      mark: Option<string>, key: string)
    requires Count(kept, Some(key)) == Min(Count(marks, Some(key)), Count(keys, key))
    ensures
      var gone := mark.Some? && Count(keys, mark.value) <= Count(marks, mark);
      Count(if gone then kept else kept + [mark], Some(key)) == Min(Count(marks + [mark], Some(key)), Count(keys, key))
  {
    CountAppend(marks, mark, Some(key));
    CountAppend(kept, mark, Some(key));
  }

  /** `KeptCount` for the merge: the kept ones stand first, then the new ones. */
  lemma OldIdsSurvive(existing: seq<Node>, incoming: seq<Node>, sub: string, key: string)
    ensures
      var news := Adopted(incoming, sub);
      var kept := Kept(existing, Keys(news), news, sub);
      && kept <= Merged(existing, incoming, sub)
      && Subsequence(Ids(kept), Ids(existing))
      && Count(Marks(kept, sub), Some(key)) == Min(Count(Marks(existing, sub), Some(key)), Count(Keys(incoming), key))
  {
    var news := Adopted(incoming, sub);
    AdoptedKeys(incoming, sub);
    IdsKept(existing, Keys(news), news, sub);
    KeptCount(existing, Keys(news), news, sub, key);
  }

  lemma AdoptedKeys(incoming: seq<Node>, sub: string)
    ensures Keys(Adopted(incoming, sub)) == Keys(incoming)
  {}

  /** Surviving ids are old ones, in their old order, none of them twice. */
  lemma {:induction false} IdsKept(existing: seq<Node>, keys: seq<string>, news: seq<Node>, sub: string)
    requires keys == Keys(news) && forall k :: 0 <= k < |news| ==> Own(news[k], sub)
    ensures Subsequence(Ids(Kept(existing, keys, news, sub)), Ids(existing))
  {
    if existing != [] {
      var n := |existing| - 1;
      var before, node := existing[..n], existing[n];
      var kept, one := Kept(before, keys, news, sub), Refreshed(Marks(before, sub), node, keys, news, sub);
      IdsKept(before, keys, news, sub);
      assert existing == before + [node];
      if one != [] {
        RefreshedMark(Marks(before, sub), node, keys, news, sub);
      }
      IdsGrow(kept, before, node, one);
    }
  }

  lemma IdsGrow(some: seq<Node>, all: seq<Node>, node: Node, one: seq<Node>)
    requires Subsequence(Ids(some), Ids(all)) && (one == [] || Ids(one) == [node.id])
    ensures Subsequence(Ids(some + one), Ids(all + [node]))
  {
    IdsAppend(all, [node]);
    IdsAppend(some, one);
    SubsequenceGrows(Ids(some), Ids(all), node.id, Ids(one));
  }

  lemma {:induction false} IdsAdded(marks: seq<Option<string>>, keys: seq<string>, news: seq<Node>, m: nat)
    requires m <= |keys| == |news|
    ensures Subsequence(Ids(Added(marks, keys, news, m)), Ids(news[..m]))
  {
    if m > 0 {
      IdsAdded(marks, keys, news, m - 1);
      var added, one := Added(marks, keys, news, m - 1), IfNew(marks, keys, news, m - 1);
      assert news[..m] == news[..m - 1] + [news[m - 1]];
      IdsGrow(added, news[..m - 1], news[m - 1], one);
    }
  }

  lemma IdsMerged(existing: seq<Node>, incoming: seq<Node>, sub: string)
    ensures Subsequence(Ids(Merged(existing, incoming, sub)), Ids(existing) + Ids(incoming))
  {
    var news := Adopted(incoming, sub);
    var keys, marks := Keys(news), Marks(existing, sub);
    var kept, added := Kept(existing, keys, news, sub), Added(marks, keys, news, |news|);
    IdsKept(existing, keys, news, sub);
    IdsAdded(marks, keys, news, |news|);
    assert news[..|news|] == news && Ids(news) == Ids(incoming);
    SubsequenceMore(Ids(kept), Ids(existing), Ids(added), Ids(incoming));
    IdsAppend(kept, added);
  }

  /** If no two nodes share an id before, none do after. */
  lemma IdsStayUnique(existing: seq<Node>, incoming: seq<Node>, sub: string)
    requires Distinct(Ids(existing) + Ids(incoming))
    ensures Distinct(Ids(Merged(existing, incoming, sub)))
  {
    IdsMerged(existing, incoming, sub);
    SubsequenceDistinct(Ids(Merged(existing, incoming, sub)), Ids(existing) + Ids(incoming));
  }
}
