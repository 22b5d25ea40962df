/** Folding a freshly fetched subscription into the server list. */
module SubscriptionMerge {
  import opened Common
  import opened Servers
  import opened Pairing

  predicate Own(n: Node, sub: string) {
    n.sub == Some(sub)
  }

  /** What an existing node can be paired by: its fingerprint, if it is of the subscription. */
  function Mark(n: Node, sub: string): Option<string> {
    if Own(n, sub) then Some(Fingerprint(n)) else None
  }

  function Marks(nodes: seq<Node>, sub: string): (marks: seq<Option<string>>)
    ensures |marks| == |nodes| && forall k :: 0 <= k < |marks| ==> marks[k] == Mark(nodes[k], sub)
  {
    seq(|nodes|, k requires 0 <= k < |nodes| => Mark(nodes[k], sub))
  }

  lemma MarksAppend(a: seq<Node>, b: seq<Node>, sub: string)
    ensures Marks(a + b, sub) == Marks(a, sub) + Marks(b, sub)
  {}

  lemma MarksStep(nodes: seq<Node>, sub: string, i: nat)
    requires i < |nodes|
    ensures Marks(nodes[..i + 1], sub) == Marks(nodes[..i], sub) + [Mark(nodes[i], sub)]
  {
    assert nodes[..i + 1] == nodes[..i] + [nodes[i]];
    MarksAppend(nodes[..i], [nodes[i]], sub);
  }

  function Keys(nodes: seq<Node>): (keys: seq<string>)
    ensures |keys| == |nodes| && forall k :: 0 <= k < |keys| ==> keys[k] == Fingerprint(nodes[k])
  {
    seq(|nodes|, k requires 0 <= k < |nodes| => Fingerprint(nodes[k]))
  }

  /** The incoming nodes as they enter the list. */
  function Adopted(incoming: seq<Node>, sub: string): (r: seq<Node>)
    ensures |r| == |incoming| && forall k :: 0 <= k < |r| ==> r[k] == incoming[k].(sub := Some(sub))
  {
    seq(|incoming|, k requires 0 <= k < |incoming| => incoming[k].(sub := Some(sub)))
  }

  // ----- the merge, told by places; `news` are the adopted nodes and `keys` their fingerprints

  /** An existing node after the refresh: someone else's stays; the `r`-th of a fingerprint
      becomes the `r`-th incoming one, under its own id; without a counterpart it goes. */
  function Refreshed(marks: seq<Option<string>>, node: Node, keys: seq<string>, news: seq<Node>, sub: string): seq<Node>
    requires |keys| == |news|
  {
    if !Own(node, sub) then [node]
    else
      var key := Fingerprint(node);
      var j := Nth(keys, key, Count(marks, Some(key)));
      if j.None? then [] else [news[j.value].(id := node.id)]
  }

  function Kept(existing: seq<Node>, keys: seq<string>, news: seq<Node>, sub: string): seq<Node>
    requires |keys| == |news|
  {
    if existing == [] then []
    else
      var n := |existing| - 1;
      Kept(existing[..n], keys, news, sub) + Refreshed(Marks(existing[..n], sub), existing[n], keys, news, sub)
  }

  /** An incoming node without a partner enters the list as a new one. */
  function IfNew(marks: seq<Option<string>>, keys: seq<string>, news: seq<Node>, j: nat): seq<Node>
    requires j < |keys| == |news|
  {
    if Unpaired(marks, keys, j) then [news[j]] else []
  }

  /** The new ones among the first `m` incoming nodes. */
  function Added(marks: seq<Option<string>>, keys: seq<string>, news: seq<Node>, m: nat): seq<Node>
    requires m <= |keys| == |news|
  {
    if m == 0 then [] else Added(marks, keys, news, m - 1) + IfNew(marks, keys, news, m - 1)
  }

  function MergedBy(existing: seq<Node>, keys: seq<string>, news: seq<Node>, sub: string): seq<Node>
    requires |keys| == |news|
  {
    Kept(existing, keys, news, sub) + Added(Marks(existing, sub), keys, news, |news|)
  }

  function Merged(existing: seq<Node>, incoming: seq<Node>, sub: string): seq<Node> {
    var news := Adopted(incoming, sub);
    MergedBy(existing, Keys(news), news, sub)
  }

  // ----- the loop

  /** The slots once some existing nodes were seen: the unpaired ones are full. */
  ghost predicate SlotsAt(slots: seq<Option<Node>>, marks: seq<Option<string>>, keys: seq<string>, news: seq<Node>) {
    && |slots| == |keys| == |news|
    && forall j :: 0 <= j < |slots| ==> slots[j] == if Unpaired(marks, keys, j) then Some(news[j]) else None
  }

  predicate Matches(slot: Option<Node>, key: string) {
    slot.Some? && Fingerprint(slot.value) == key
  }

  method FindSlot(slots: seq<Option<Node>>, key: string) returns (r: Option<nat>)
    ensures r.None? ==> forall j :: 0 <= j < |slots| ==> !Matches(slots[j], key)
    ensures r.Some? ==> r.value < |slots| && Matches(slots[r.value], key)
    ensures r.Some? ==> forall j :: 0 <= j < r.value ==> !Matches(slots[j], key)
  {
    for j := 0 to |slots|
      invariant forall k :: 0 <= k < j ==> !Matches(slots[k], key)
    {
      if Matches(slots[j], key) {
        return Some(j);
      }
    }
    return None;
  }

  lemma SlotMatches(slots: seq<Option<Node>>, marks: seq<Option<string>>, keys: seq<string>, news: seq<Node>,
      key: string, j: nat)
    requires SlotsAt(slots, marks, keys, news) && keys == Keys(news) && j < |slots|
    ensures Matches(slots[j], key) <==> (keys[j] == key && Unpaired(marks, keys, j))
  {}

  /** The slot of the next counterpart is the first that matches. */
  method ClaimSlot(slots: seq<Option<Node>>, key: string, ghost marks: seq<Option<string>>,
      ghost keys: seq<string>, ghost news: seq<Node>)
    returns (r: Option<nat>)
    requires SlotsAt(slots, marks, keys, news) && keys == Keys(news)
    ensures r == Nth(keys, key, Count(marks, Some(key)))
    ensures r.Some? ==> slots[r.value] == Some(news[r.value])
  {
    r := FindSlot(slots, key);
    forall j | 0 <= j < |slots|
      ensures Matches(slots[j], key) <==> (keys[j] == key && Unpaired(marks, keys, j))
    {
      SlotMatches(slots, marks, keys, news, key, j);
    }
    assert FirstUnpaired(marks, keys, key, r);
    FirstUnpairedIsNth(marks, keys, key, r);
  }

  /** The slots after one more node of the subscription. */
  lemma SlotsAfterOwn(slots: seq<Option<Node>>, marks: seq<Option<string>>, keys: seq<string>, news: seq<Node>,
      key: string)
    requires SlotsAt(slots, marks, keys, news)
    ensures
      var r := Nth(keys, key, Count(marks, Some(key)));
      SlotsAt(if r.Some? then slots[r.value := None] else slots, marks + [Some(key)], keys, news)
  {
    forall k | 0 <= k < |slots|
      ensures Unpaired(marks + [Some(key)], keys, k) <==>
        (Unpaired(marks, keys, k) && Nth(keys, key, Count(marks, Some(key))) != Some(k))
    {
      OnePaired(marks, keys, key, k);
    }
  }

  lemma SlotsAfterForeign(slots: seq<Option<Node>>, marks: seq<Option<string>>, keys: seq<string>, news: seq<Node>)
    requires SlotsAt(slots, marks, keys, news)
    ensures SlotsAt(slots, marks + [None], keys, news)
  {
    forall k | 0 <= k < |slots|
      ensures Unpaired(marks + [None], keys, k) <==> Unpaired(marks, keys, k)
    {
      NonePaired(marks, keys, k);
    }
  }

  lemma KeptStep(existing: seq<Node>, keys: seq<string>, news: seq<Node>, sub: string, i: nat)
    requires i < |existing| && |keys| == |news|
    ensures Kept(existing[..i + 1], keys, news, sub) ==
      Kept(existing[..i], keys, news, sub) + Refreshed(Marks(existing[..i], sub), existing[i], keys, news, sub)
  {
    assert existing[..i + 1][..i] == existing[..i];
  }

  /** The first pass, over the existing nodes. */
  method Refresh(existing: seq<Node>, all: seq<Option<Node>>, sub: string, ghost keys: seq<string>,
      ghost news: seq<Node>)
    returns (merged: seq<Node>, slots: seq<Option<Node>>)
    requires SlotsAt(all, [], keys, news) && keys == Keys(news)
    ensures merged == Kept(existing, keys, news, sub)
    ensures SlotsAt(slots, Marks(existing, sub), keys, news)
  {
    slots, merged := all, [];
    for i := 0 to |existing|
      invariant merged == Kept(existing[..i], keys, news, sub)
      invariant SlotsAt(slots, Marks(existing[..i], sub), keys, news)
    {
      var node := existing[i];
      ghost var marks := Marks(existing[..i], sub);
      KeptStep(existing, keys, news, sub, i);
      MarksStep(existing, sub, i);
      if !Own(node, sub) {
        SlotsAfterForeign(slots, marks, keys, news);
        merged := merged + [node];
      } else {
        var key := Fingerprint(node);
        var slot := ClaimSlot(slots, key, marks, keys, news);
        SlotsAfterOwn(slots, marks, keys, news, key);
        if slot.Some? {
          var taken := slots[slot.value].value;
          slots := slots[slot.value := None];
          merged := merged + [taken.(id := node.id)];
        }
      }
    }
    assert existing[..|existing|] == existing;
  }

  /** What is left in the slots. */
  method Unclaimed(slots: seq<Option<Node>>, ghost marks: seq<Option<string>>, ghost keys: seq<string>,
      ghost news: seq<Node>)
    returns (rest: seq<Node>)
    requires SlotsAt(slots, marks, keys, news)
    ensures rest == Added(marks, keys, news, |news|)
  {
    rest := [];
    for j := 0 to |slots|
      invariant rest == Added(marks, keys, news, j)
    {
      if slots[j].Some? {
        rest := rest + [slots[j].value];
      }
    }
  }

  method Merge(existing: seq<Node>, incoming: seq<Node>, sub: string) returns (merged: seq<Node>)
    ensures merged == Merged(existing, incoming, sub)
  {
    ghost var news := Adopted(incoming, sub);
    var slots: seq<Option<Node>> := [];
    for j := 0 to |incoming|
      invariant |slots| == j && forall k :: 0 <= k < j ==> slots[k] == Some(news[k])
    {
      slots := slots + [Some(incoming[j].(sub := Some(sub)))];
    }
    merged, slots := Refresh(existing, slots, sub, Keys(news), news);
    var rest := Unclaimed(slots, Marks(existing, sub), Keys(news), news);
    merged := merged + rest;
  }
}
