/** The app's state, as far as the server list goes, and what changes it. */
module AppState {
  import opened Common
  import opened Servers
  import opened SubscriptionMerge
  import opened ServerOrder
  import opened IdRepair

  // ----- taking out and putting back

  /** `remove(from)`, then `insert(to, …)`. */
  function Moved<T>(s: seq<T>, from: nat, to: nat): (r: seq<T>)
    requires from < |s| && to < |s|
    ensures |r| == |s|
  {
    var rest := s[..from] + s[from + 1..];
    rest[..to] + [s[from]] + rest[to..]
  }

  method MoveElement<T>(s: seq<T>, from: nat, to: nat) returns (r: seq<T>)
    requires from < |s| && to < |s|
    ensures r == Moved(s, from, to)
  {
    var moved := s[from];
    r := s[..from] + s[from + 1..];
    r := r[..to] + [moved] + r[to..];
  }

  /** The element stands at its new place, and the others as they stood to one another. */
  lemma MovedIs<T>(s: seq<T>, from: nat, to: nat)
    requires from < |s| && to < |s|
    ensures Moved(s, from, to)[to] == s[from]
    ensures Moved(s, from, to)[..to] + Moved(s, from, to)[to + 1..] == s[..from] + s[from + 1..]
  {
    var rest := s[..from] + s[from + 1..];
    assert rest == rest[..to] + rest[to..];
    assert Moved(s, from, to)[..to] == rest[..to] && Moved(s, from, to)[to + 1..] == rest[to..];
  }

  lemma MovedPermutes<T>(s: seq<T>, from: nat, to: nat)
    requires from < |s| && to < |s|
    ensures multiset(Moved(s, from, to)) == multiset(s)
  {
    var rest := s[..from] + s[from + 1..];
    Inserted(rest[..to], s[from], rest[to..]);
    Inserted(s[..from], s[from], s[from + 1..]);
    assert rest == rest[..to] + rest[to..];
    assert s == s[..from] + [s[from]] + s[from + 1..];
  }

  lemma Inserted<T>(a: seq<T>, x: T, b: seq<T>)
    ensures multiset(a + [x] + b) == multiset(a + b)[x := multiset(a + b)[x] + 1]
  {}

  function Clamp(to: int, n: nat): (r: nat)
    ensures n > 0 ==> r < n
  {
    if to < 0 || n == 0 then 0 else Min(to, n - 1)
  }

  function Distance(a: int, b: int): nat {
    if a <= b then b - a else a - b
  }

  /** The place nearest to the one asked for. */
  lemma ClampIsNearest(to: int, n: nat)
    ensures 0 <= to < n ==> Clamp(to, n) == to
    ensures forall k :: 0 <= k < n ==> Clamp(to, n) < n && Distance(Clamp(to, n), to) <= Distance(k, to)
  {
    forall k | 0 <= k < n
      ensures Distance(Clamp(to, n), to) <= Distance(k, to)
    {}
  }

  /** The first place of an id. */
  function Find(ids: seq<string>, id: string): (r: Option<nat>)
    ensures r.None? ==> forall k :: 0 <= k < |ids| ==> ids[k] != id
    ensures r.Some? ==> r.value < |ids| && ids[r.value] == id && forall k :: 0 <= k < r.value ==> ids[k] != id
  {
    if ids == [] then None
    else if ids[0] == id then Some(0)
    else
      var r := Find(ids[1..], id);
      if r.None? then None else Some(r.value + 1)
  }

  method PositionOf(ids: seq<string>, id: string) returns (r: Option<nat>)
    ensures r == Find(ids, id)
  {
    for k := 0 to |ids|
      invariant forall j :: 0 <= j < k ==> ids[j] != id
    {
      if ids[k] == id {
        return Some(k);
      }
    }
    return None;
  }

  // ----- the slots of a group

  /** The places of the nodes of a subscription, or of none, in order. */
  function Slots(nodes: seq<Node>, group: Option<string>): (slots: seq<nat>)
    ensures forall k :: 0 <= k < |slots| ==> slots[k] < |nodes| && nodes[slots[k]].sub == group
    ensures forall j, k :: 0 <= j < k < |slots| ==> slots[j] < slots[k]
    ensures forall i :: 0 <= i < |nodes| && nodes[i].sub == group ==> i in slots
  {
    if nodes == [] then []
    else
      var n := |nodes| - 1;
      Slots(nodes[..n], group) + if nodes[n].sub == group then [n] else []
  }

  function Members(nodes: seq<Node>, group: Option<string>): (r: seq<Node>)
    ensures |r| == |Slots(nodes, group)|
    ensures forall k :: 0 <= k < |r| ==> r[k] == nodes[Slots(nodes, group)[k]]
  {
    var slots := Slots(nodes, group);
    seq(|slots|, k requires 0 <= k < |slots| => nodes[slots[k]])
  }

  /** Everyone else, in order. */
  function Others(nodes: seq<Node>, group: Option<string>): seq<Node> {
    if nodes == [] then []
    else
      var n := nodes[|nodes| - 1];
      Others(nodes[..|nodes| - 1], group) + if n.sub == group then [] else [n]
  }

  /** Only the nodes of the group have changed places. */
  ghost predicate SamePlaces(a: seq<Node>, b: seq<Node>, group: Option<string>) {
    && |a| == |b|
    && (forall i :: 0 <= i < |a| ==> a[i].sub == b[i].sub)
    && (forall i :: 0 <= i < |a| && a[i].sub != group ==> a[i] == b[i])
  }

  lemma {:induction false} SameSlots(a: seq<Node>, b: seq<Node>, group: Option<string>)
    requires SamePlaces(a, b, group)
    ensures Slots(a, group) == Slots(b, group) && Others(a, group) == Others(b, group)
  {
    if a != [] {
      SameSlots(a[..|a| - 1], b[..|b| - 1], group);
    }
  }

  lemma {:induction false} SplitByGroup(nodes: seq<Node>, group: Option<string>)
    ensures multiset(nodes) == multiset(Members(nodes, group)) + multiset(Others(nodes, group))
  {
    if nodes != [] {
      var front, n := nodes[..|nodes| - 1], nodes[|nodes| - 1];
      SplitByGroup(front, group);
      assert nodes == front + [n];
      MembersStep(nodes, group);
    }
  }

  lemma MembersStep(nodes: seq<Node>, group: Option<string>)
    requires nodes != []
    ensures
      var front, n := nodes[..|nodes| - 1], nodes[|nodes| - 1];
      Members(nodes, group) == Members(front, group) + if n.sub == group then [n] else []
  {
    var front := nodes[..|nodes| - 1];
    assert Slots(nodes, group) == Slots(front, group) + if nodes[|nodes| - 1].sub == group then [|nodes| - 1] else [];
  }

  lemma WriteOne(nodes: seq<Node>, r: seq<Node>, slots: seq<nat>, k: nat, n: Node, group: Option<string>)
    requires slots == Slots(nodes, group) && SamePlaces(nodes, r, group) && k < |slots| && n.sub == group
    ensures SamePlaces(nodes, r[slots[k] := n], group)
    ensures forall j :: 0 <= j < k ==> r[slots[k] := n][slots[j]] == r[slots[j]]
  {}

  /** Writing the members of a group back in another order. */
  method WriteBack(nodes: seq<Node>, slots: seq<nat>, order: seq<Node>,
      ghost group: Option<string>) returns (r: seq<Node>)
    requires slots == Slots(nodes, group) && |order| == |slots|
    requires forall k :: 0 <= k < |order| ==> order[k].sub == group
    ensures SamePlaces(nodes, r, group) && Members(r, group) == order
  {
    r := nodes;
    for k := 0 to |slots|
      invariant SamePlaces(nodes, r, group)
      invariant forall j :: 0 <= j < k ==> r[slots[j]] == order[j]
    {
      WriteOne(nodes, r, slots, k, order[k], group);
      r := r[slots[k] := order[k]];
    }
    SameSlots(nodes, r, group);
  }

  /** The rank of a node in its group. */
  function Rank(nodes: seq<Node>, i: nat): (r: nat)
    requires i < |nodes|
    ensures r < |Slots(nodes, nodes[i].sub)| && Slots(nodes, nodes[i].sub)[r] == i
  {
    var slots := Slots(nodes, nodes[i].sub);
    var r: nat :| r < |slots| && slots[r] == i;
    r
  }

  method RankIn(nodes: seq<Node>, i: nat, slots: seq<nat>) returns (r: nat)
    requires i < |nodes| && slots == Slots(nodes, nodes[i].sub)
    ensures r == Rank(nodes, i)
  {
    r := 0;
    while slots[r] != i
      invariant r <= Rank(nodes, i)
      decreases Rank(nodes, i) - r
    {
      r := r + 1;
    }
  }

  /** The node at place `i` moves to rank `to` of its group, or the last one; the group keeps
      its places, everyone else theirs; nothing changes if it stands there already. */
  ghost predicate GroupMoved(before: seq<Node>, after: seq<Node>, i: nat, to: int, changed: bool)
    requires i < |before|
  {
    var group := before[i].sub;
    var members := Members(before, group);
    var place := Clamp(to, |members|);
    && SamePlaces(before, after, group)
    && changed == (Rank(before, i) != place)
    && Members(after, group) == Moved(members, Rank(before, i), place)
  }

  lemma MovedNowhere<T>(s: seq<T>, from: nat)
    requires from < |s|
    ensures Moved(s, from, from) == s
  {}

  lemma GroupMovedPermutes(before: seq<Node>, after: seq<Node>, i: nat, to: int, changed: bool)
    requires i < |before| && GroupMoved(before, after, i, to, changed)
    ensures multiset(after) == multiset(before)
    ensures !changed ==> after == before
  {
    var group := before[i].sub;
    var members := Members(before, group);
    MovedPermutes(members, Rank(before, i), Clamp(to, |members|));
    SplitByGroup(before, group);
    SplitByGroup(after, group);
    SameSlots(before, after, group);
    if !changed {
      MovedNowhere(members, Rank(before, i));
      SameMembers(before, after, group);
    }
  }

  lemma SameMembers(a: seq<Node>, b: seq<Node>, group: Option<string>)
    requires SamePlaces(a, b, group) && Slots(a, group) == Slots(b, group) && Members(a, group) == Members(b, group)
    ensures a == b
  {
    forall i | 0 <= i < |a|
      ensures a[i] == b[i]
    {
      if a[i].sub == group {
        var k :| 0 <= k < |Slots(a, group)| && Slots(a, group)[k] == i;
        assert Members(a, group)[k] == Members(b, group)[k];
      }
    }
  }

  lemma MovedInside(s: seq<Node>, from: nat, to: nat, group: Option<string>)
    requires from < |s| && to < |s| && forall k :: 0 <= k < |s| ==> s[k].sub == group
    ensures forall k :: 0 <= k < |s| ==> Moved(s, from, to)[k].sub == group
  {}

  method MoveIn(nodes: seq<Node>, at: nat, to: int) returns (r: seq<Node>, changed: bool)
    requires at < |nodes|
    ensures GroupMoved(nodes, r, at, to, changed)
  {
    var group := nodes[at].sub;
    var slots := Slots(nodes, group);
    var from := RankIn(nodes, at, slots);
    var place := Clamp(to, |slots|);
    var order := Members(nodes, group);
    ghost var moved := Moved(order, from, place);
    MovedInside(order, from, place, group);
    changed := from != place;
    if changed {
      order := MoveElement(order, from, place);
      r := WriteBack(nodes, slots, order, group);
    } else {
      MovedNowhere(order, from);
      r := nodes;
    }
    assert Members(r, group) == moved;
  }

  // ----- the state

  class State {
    var nodes: seq<Node>
    var subs: seq<Subscription>
    var activeId: string

    constructor (nodes: seq<Node>, subs: seq<Subscription>, activeId: string)
      ensures this.nodes == nodes && this.subs == subs && this.activeId == activeId
    {
      this.nodes, this.subs, this.activeId := nodes, subs, activeId;
    }

    /** The server the tunnel should use. */
    function ResolveActiveId(): string
      reads this
    {
      if activeId in Ids(nodes) then activeId else if nodes == [] then "" else nodes[0].id
    }

    method PinActive()
      modifies this`activeId
      ensures activeId == old(ResolveActiveId()) == ResolveActiveId()
      ensures (exists n :: n in nodes && n.id == old(activeId)) ==> activeId == old(activeId)
      ensures !(exists n :: n in nodes && n.id == old(activeId)) ==>
        activeId == if nodes == [] then "" else nodes[0].id
    {
      IdsOf(nodes, activeId);
      activeId := ResolveActiveId();
    }

    /** A subscription moves among the subscriptions; not if it is unknown or already there. */
    method MoveSubOrder(id: string, to: int) returns (order: Option<seq<string>>)
      modifies this`subs
      ensures
        var from := Find(SubIds(old(subs)), id);
        var place := Clamp(to, |old(subs)|);
        if from.None? || from.value == place then order.None? && subs == old(subs)
        else order == Some(SubIds(subs)) && subs == Moved(old(subs), from.value, place)
    {
      var from := PositionOf(SubIds(subs), id);
      if from.None? {
        return None;
      }
      var place := Clamp(to, |subs|);
      if from.value == place {
        return None;
      }
      subs := MoveElement(subs, from.value, place);
      order := Some(SubIds(subs));
    }

    /** A server moves within its group. */
    method MoveWithinGroup(id: string, to: int) returns (changed: bool)
      modifies this`nodes
      ensures
        var at := Find(Ids(old(nodes)), id);
        if at.None? then !changed && nodes == old(nodes) else GroupMoved(old(nodes), nodes, at.value, to, changed)
    {
      var at := PositionOf(Ids(nodes), id);
      if at.None? {
        return false;
      }
      nodes, changed := MoveIn(nodes, at.value, to);
    }

    /** A section moves; its servers go with it, and the list is again what is shown. */
    method ReorderSub(id: string, to: int)
      modifies this
      ensures ResolveActiveId() == old(ResolveActiveId())
      ensures
        var from := Find(SubIds(old(subs)), id);
        var place := Clamp(to, |old(subs)|);
        if from.None? || from.value == place then subs == old(subs) && nodes == old(nodes) && activeId == old(activeId)
        else
          && subs == Moved(old(subs), from.value, place)
          && nodes == Reflowed(old(nodes), SubIds(subs)) == Flat(RenderGroups(old(nodes), subs))
          && activeId == old(ResolveActiveId())
          && (Distinct(SubIds(subs)) && "" !in SubIds(subs) ==>
            nodes == Flat(RenderGroups(nodes, subs)) && multiset(nodes) == multiset(old(nodes)))
    {
      var order := MoveSubOrder(id, to);
      if order.None? {
        return;
      }
      PinActive();
      ghost var before := nodes;
      nodes := Reflow(nodes, order.value);
      ShownIsReflowed(before, subs);
      ReflowKeepsIds(before, order.value, activeId);
      if Distinct(SubIds(subs)) && "" !in SubIds(subs) {
        ShownAsListed(before, subs);
        ReflowPermutes(before, order.value);
      }
    }

    /** A server moves; the server in use stays the same. */
    method ReorderNode(id: string, to: int)
      modifies this
      ensures ResolveActiveId() == old(ResolveActiveId()) == activeId
      ensures multiset(nodes) == multiset(old(nodes)) && subs == old(subs)
    {
      PinActive();
      ghost var before := nodes;
      var changed := MoveWithinGroup(id, to);
      if Find(Ids(before), id).Some? {
        GroupMovedPermutes(before, nodes, Find(Ids(before), id).value, to, changed);
      }
      SameIds(before, nodes, activeId);
    }

    /** A refreshed subscription enters the list. */
    method RefreshSubscription(incoming: seq<Node>, id: string)
      modifies this`nodes
      ensures nodes == Merged(old(nodes), incoming, id)
    {
      nodes := Merge(nodes, incoming, id);
    }

    /** Loading: every row gets an id of its own.  `uuids` are the random ids at hand. */
    method RepairIds(uuids: seq<string>) returns (repaired: bool)
      requires Unused(Ids(nodes), uuids)
      modifies this`nodes
      ensures Repaired(old(nodes), nodes) && Distinct(Ids(nodes))
      ensures repaired <==> !Distinct(Ids(old(nodes)))
      ensures !repaired ==> nodes == old(nodes)
    {
      ghost var before := nodes;
      nodes, repaired := Repair(nodes, uuids);
      RepairIs(before, uuids, nodes);
    }
  }

  lemma {:induction false} SectionHas(nodes: seq<Node>, order: seq<string>, g: string, n: Node)
    ensures n in Section(nodes, order, g) <==> (n in nodes && Group(n, order) == g)
  {
    if nodes != [] {
      var front := nodes[..|nodes| - 1];
      SectionHas(front, order, g, n);
      assert nodes == front + [nodes[|nodes| - 1]];
    }
  }

  lemma {:induction false} SectionsHave(nodes: seq<Node>, order: seq<string>, ids: seq<string>, n: Node)
    ensures n in Sections(nodes, order, ids) <==> (n in nodes && Group(n, order) in ids)
  {
    if ids != [] {
      var front := ids[..|ids| - 1];
      SectionsHave(nodes, order, front, n);
      SectionHas(nodes, order, ids[|ids| - 1], n);
      assert ids == front + [ids[|ids| - 1]];
    }
  }

  lemma IdsOf(nodes: seq<Node>, id: string)
    ensures id in Ids(nodes) <==> exists n :: n in nodes && n.id == id
  {
    if id in Ids(nodes) {
      var k :| 0 <= k < |nodes| && Ids(nodes)[k] == id;
      assert nodes[k] in nodes;
    }
    if n :| n in nodes && n.id == id {
      var k :| 0 <= k < |nodes| && nodes[k] == n;
      assert Ids(nodes)[k] == id;
    }
  }

  /** Whatever the sections, no server's id is lost and none appears. */
  lemma ReflowKeepsIds(nodes: seq<Node>, order: seq<string>, id: string)
    ensures id in Ids(nodes) <==> id in Ids(Reflowed(nodes, order))
    ensures nodes == [] <==> Reflowed(nodes, order) == []
  {
    forall n
      ensures n in nodes <==> n in Reflowed(nodes, order)
    {
      SectionsHave(nodes, order, order, n);
      SectionHas(nodes, order, "", n);
    }
    if nodes == [] {
      SectionsEmpty(order, order);
    } else {
      assert nodes[0] in Reflowed(nodes, order);
    }
    IdsOf(nodes, id);
    IdsOf(Reflowed(nodes, order), id);
  }

  lemma SameIds(a: seq<Node>, b: seq<Node>, id: string)
    requires multiset(a) == multiset(b)
    ensures id in Ids(a) <==> id in Ids(b)
    ensures a == [] <==> b == []
  {
    assert forall n :: n in a <==> n in multiset(a);
    assert forall n :: n in b <==> n in multiset(b);
    IdsOf(a, id);
    IdsOf(b, id);
    assert |a| == |multiset(a)| && |b| == |multiset(b)|;
  }
}
