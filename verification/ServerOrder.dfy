/** The order of the server list: sections by subscription, and moving things about. */
module ServerOrder {
  import opened Common
  import opened Servers
  import opened Pairing

  datatype Subscription = Subscription(id: string, name: string)

  function SubIds(subs: seq<Subscription>): (ids: seq<string>)
    ensures |ids| == |subs| && forall k :: 0 <= k < |ids| ==> ids[k] == subs[k].id
  {
    seq(|subs|, k requires 0 <= k < |subs| => subs[k].id)
  }

  // ----- sections

  /** The section of a server; without a known subscription, the user's own. */
  function Group(n: Node, order: seq<string>): string {
    if n.sub.Some? && n.sub.value in order then n.sub.value else ""
  }

  function Section(nodes: seq<Node>, order: seq<string>, id: string): seq<Node> {
    if nodes == [] then []
    else
      var n := nodes[|nodes| - 1];
      Section(nodes[..|nodes| - 1], order, id) + if Group(n, order) == id then [n] else []
  }

  /** The sections of some ids, one after the other. */
  function Sections(nodes: seq<Node>, order: seq<string>, ids: seq<string>): seq<Node> {
    if ids == [] then []
    else Sections(nodes, order, ids[..|ids| - 1]) + Section(nodes, order, ids[|ids| - 1])
  }

  function Reflowed(nodes: seq<Node>, order: seq<string>): seq<Node> {
    Sections(nodes, order, order) + Section(nodes, order, "")
  }

  method Reflow(nodes: seq<Node>, order: seq<string>) returns (reflowed: seq<Node>)
    ensures reflowed == Reflowed(nodes, order)
  {
    reflowed := [];
    for k := 0 to |order|
      invariant reflowed == Sections(nodes, order, order[..k])
    {
      assert order[..k + 1][..k] == order[..k];
      reflowed := reflowed + Section(nodes, order, order[k]);
    }
    assert order[..|order|] == order;
    reflowed := reflowed + Section(nodes, order, "");
  }

  // ----- what the sections promise

  lemma {:induction false} SectionAppends(a: seq<Node>, b: seq<Node>, order: seq<string>, id: string)
    ensures Section(a + b, order, id) == Section(a, order, id) + Section(b, order, id)
    decreases |b|
  {
    if b == [] {
      assert a + b == a;
    } else {
      assert (a + b)[..|a + b| - 1] == a + b[..|b| - 1];
      SectionAppends(a, b[..|b| - 1], order, id);
    }
  }

  lemma SectionOne(n: Node, order: seq<string>, id: string)
    ensures Section([n], order, id) == if Group(n, order) == id then [n] else []
  {
    assert [n][..0] == [];
    assert Section([], order, id) == [];
  }

  lemma {:induction false} SectionTwice(nodes: seq<Node>, order: seq<string>, g: string, h: string)
    ensures Section(Section(nodes, order, g), order, h) == if g == h then Section(nodes, order, g) else []
  {
    if nodes != [] {
      var front, n := nodes[..|nodes| - 1], nodes[|nodes| - 1];
      SectionTwice(front, order, g, h);
      var one := if Group(n, order) == g then [n] else [];
      SectionAppends(Section(front, order, g), one, order, h);
      SectionOne(n, order, h);
    }
  }

  lemma {:induction false} SectionOfSections(nodes: seq<Node>, order: seq<string>, ids: seq<string>, h: string)
    requires Distinct(ids)
    ensures Section(Sections(nodes, order, ids), order, h) == if h in ids then Section(nodes, order, h) else []
  {
    if ids != [] {
      var front, g := ids[..|ids| - 1], ids[|ids| - 1];
      SectionOfSections(nodes, order, front, h);
      SectionAppends(Sections(nodes, order, front), Section(nodes, order, g), order, h);
      SectionTwice(nodes, order, g, h);
    }
  }

  /** Reflowing is stable: every section keeps its servers, in their order. */
  lemma ReflowStable(nodes: seq<Node>, order: seq<string>, id: string)
    requires Distinct(order) && "" !in order
    ensures Section(Reflowed(nodes, order), order, id) == Section(nodes, order, id)
  {
    SectionAppends(Sections(nodes, order, order), Section(nodes, order, ""), order, id);
    SectionOfSections(nodes, order, order, id);
    SectionTwice(nodes, order, "", id);
    if id !in order && id != "" {
      SectionUnknown(nodes, order, id);
    }
  }

  lemma {:induction false} SectionUnknown(nodes: seq<Node>, order: seq<string>, id: string)
    requires id !in order && id != ""
    ensures Section(nodes, order, id) == []
  {
    if nodes != [] {
      SectionUnknown(nodes[..|nodes| - 1], order, id);
    }
  }

  lemma {:induction false} SectionsSame(a: seq<Node>, b: seq<Node>, order: seq<string>, ids: seq<string>)
    requires forall id :: Section(a, order, id) == Section(b, order, id)
    ensures Sections(a, order, ids) == Sections(b, order, ids)
  {
    if ids != [] {
      SectionsSame(a, b, order, ids[..|ids| - 1]);
    }
  }

  /** Reflowing twice is reflowing once. */
  lemma ReflowIdempotent(nodes: seq<Node>, order: seq<string>)
    requires Distinct(order) && "" !in order
    ensures Reflowed(Reflowed(nodes, order), order) == Reflowed(nodes, order)
  {
    forall id
      ensures Section(Reflowed(nodes, order), order, id) == Section(nodes, order, id)
    {
      ReflowStable(nodes, order, id);
    }
    SectionsSame(Reflowed(nodes, order), nodes, order, order);
  }

  // ----- the sections, told by the subscriptions of the servers

  /** The server belongs to the `k`-th subscription, or behind all of them if to none that is
      known. */
  ghost predicate Belongs(n: Node, order: seq<string>, k: nat) {
    && k <= |order| && (k < |order| ==> n.sub == Some(order[k]))
    && (k == |order| ==> forall j :: 0 <= j < k ==> n.sub != Some(order[j]))
  }

  ghost function Belonging(nodes: seq<Node>, order: seq<string>, k: nat): seq<Node> {
    if nodes == [] then []
    else
      var n := nodes[|nodes| - 1];
      Belonging(nodes[..|nodes| - 1], order, k) + if Belongs(n, order, k) then [n] else []
  }

  /** Every subscription's servers stand together, in its place among the subscriptions. */
  ghost predicate InSections(nodes: seq<Node>, order: seq<string>) {
    forall i, j, a: nat, b: nat ::
      0 <= i < j < |nodes| && Belongs(nodes[i], order, a) && Belongs(nodes[j], order, b) ==> a <= b
  }

  function SectionId(order: seq<string>, k: nat): string {
    if k < |order| then order[k] else ""
  }

  lemma BelongsIs(n: Node, order: seq<string>, k: nat)
    requires Distinct(order) && "" !in order && k <= |order|
    ensures Belongs(n, order, k) <==> Group(n, order) == SectionId(order, k)
  {}

  lemma {:induction false} BelongingIs(nodes: seq<Node>, order: seq<string>, k: nat)
    requires Distinct(order) && "" !in order && k <= |order|
    ensures Belonging(nodes, order, k) == Section(nodes, order, SectionId(order, k))
  {
    if nodes != [] {
      BelongingIs(nodes[..|nodes| - 1], order, k);
      BelongsIs(nodes[|nodes| - 1], order, k);
    }
  }

  lemma {:induction false} InSection(nodes: seq<Node>, order: seq<string>, id: string)
    ensures forall n :: n in Section(nodes, order, id) ==> Group(n, order) == id
  {
    if nodes != [] {
      InSection(nodes[..|nodes| - 1], order, id);
    }
  }

  /** All belong to one of the first `m` subscriptions, and in order. */
  ghost predicate UpTo(nodes: seq<Node>, order: seq<string>, m: nat) {
    && InSections(nodes, order)
    && forall i, a: nat :: 0 <= i < |nodes| && Belongs(nodes[i], order, a) ==> a < m
  }

  lemma OneMoreSection(nodes: seq<Node>, order: seq<string>, m: nat, more: seq<Node>)
    requires Distinct(order) && "" !in order && m <= |order| && UpTo(nodes, order, m)
    requires forall n :: n in more ==> Group(n, order) == SectionId(order, m)
    ensures UpTo(nodes + more, order, m + 1)
  {
    var all := nodes + more;
    forall i, a: nat | 0 <= i < |all| && Belongs(all[i], order, a)
      ensures a <= m && (i < |nodes| ==> a < m) && (i >= |nodes| ==> a == m)
    {
      if i < |nodes| {
        assert all[i] == nodes[i];
      } else {
        assert all[i] in more;
        BelongsIs(all[i], order, a);
      }
    }
    forall i, j, a: nat, b: nat | 0 <= i < j < |all| && Belongs(all[i], order, a) && Belongs(all[j], order, b)
      ensures a <= b
    {
      if j < |nodes| {
        assert Belongs(nodes[i], order, a) && Belongs(nodes[j], order, b);
      }
    }
  }

  lemma {:induction false} SectionsUpTo(nodes: seq<Node>, order: seq<string>, m: nat)
    requires Distinct(order) && "" !in order && m <= |order|
    ensures UpTo(Sections(nodes, order, order[..m]), order, m)
  {
    if m > 0 {
      SectionsUpTo(nodes, order, m - 1);
      assert order[..m][..m - 1] == order[..m - 1];
      InSection(nodes, order, order[m - 1]);
      OneMoreSection(Sections(nodes, order, order[..m - 1]), order, m - 1, Section(nodes, order, order[m - 1]));
    }
  }

  /** The servers are sorted by subscription, and those of one keep their order. */
  lemma ReflowSorts(nodes: seq<Node>, order: seq<string>)
    requires Distinct(order) && "" !in order
    ensures InSections(Reflowed(nodes, order), order)
    ensures forall k: nat :: k <= |order| ==> Belonging(Reflowed(nodes, order), order, k) == Belonging(nodes, order, k)
  {
    SectionsUpTo(nodes, order, |order|);
    assert order[..|order|] == order;
    InSection(nodes, order, "");
    OneMoreSection(Sections(nodes, order, order), order, |order|, Section(nodes, order, ""));
    forall k: nat | k <= |order|
      ensures Belonging(Reflowed(nodes, order), order, k) == Belonging(nodes, order, k)
    {
      BelongingIs(nodes, order, k);
      BelongingIs(Reflowed(nodes, order), order, k);
      ReflowStable(nodes, order, SectionId(order, k));
    }
  }

  /** `after` holds `k` more of `n` than `before`. */
  ghost predicate Gained(before: seq<Node>, after: seq<Node>, n: Node, k: nat) {
    multiset(after) == multiset(before)[n := multiset(before)[n] + k]
  }

  lemma GainTogether(a: seq<Node>, a': seq<Node>, b: seq<Node>, n: Node, k: nat, more: seq<Node>)
    requires Gained(a, a', n, k) && (more == [] || more == [n])
    ensures Gained(a + b, a' + (b + more), n, k + |more|)
  {
    assert a' + (b + more) == a' + b + more;
  }

  /** One more server at the end comes up once for every mention of its section. */
  lemma {:induction false} SectionsGrow(nodes: seq<Node>, n: Node, order: seq<string>, ids: seq<string>, k: nat)
    requires k == Count(ids, Group(n, order))
    ensures Gained(Sections(nodes, order, ids), Sections(nodes + [n], order, ids), n, k)
  {
    if ids != [] {
      var front, g := ids[..|ids| - 1], ids[|ids| - 1];
      var before := Count(front, Group(n, order));
      var one := if Group(n, order) == g then [n] else [];
      SectionsGrow(nodes, n, order, front, before);
      SectionGrows(nodes, n, order, g);
      assert k == before + |one|;
      GainTogether(Sections(nodes, order, front), Sections(nodes + [n], order, front), Section(nodes, order, g), n,
        before, one);
    }
  }

  lemma SectionGrows(nodes: seq<Node>, n: Node, order: seq<string>, id: string)
    ensures Section(nodes + [n], order, id) == Section(nodes, order, id) + if Group(n, order) == id then [n] else []
  {
    SectionAppends(nodes, [n], order, id);
    SectionOne(n, order, id);
  }

  lemma {:induction false} CountDistinct(s: seq<string>, x: string)
    ensures Count(s, x) > 0 <==> x in s
    ensures Distinct(s) ==> Count(s, x) <= 1
  {
    if s != [] {
      var front := s[..|s| - 1];
      CountDistinct(front, x);
      assert s == front + [s[|s| - 1]];
    }
  }

  /** Reflowing loses and doubles nothing. */
  lemma {:induction false} ReflowPermutes(nodes: seq<Node>, order: seq<string>)
    requires Distinct(order) && "" !in order
    ensures multiset(Reflowed(nodes, order)) == multiset(nodes)
  {
    if nodes == [] {
      SectionsEmpty(order, order);
    } else {
      var front, n := nodes[..|nodes| - 1], nodes[|nodes| - 1];
      ReflowPermutes(front, order);
      assert nodes == front + [n];
      CountDistinct(order, Group(n, order));
      ReflowGrows(front, n, order, Count(order, Group(n, order)));
    }
  }

  /** One more server at the end, after reflowing. */
  lemma ReflowGrows(nodes: seq<Node>, n: Node, order: seq<string>, k: nat)
    requires k == Count(order, Group(n, order))
    ensures Gained(Reflowed(nodes, order), Reflowed(nodes + [n], order), n,
      k + if Group(n, order) == "" then 1 else 0)
  {
    SectionsGrow(nodes, n, order, order, k);
    SectionGrows(nodes, n, order, "");
    GainTogether(Sections(nodes, order, order), Sections(nodes + [n], order, order), Section(nodes, order, ""), n, k,
      if Group(n, order) == "" then [n] else []);
  }

  lemma {:induction false} SectionsEmpty(order: seq<string>, ids: seq<string>)
    ensures Sections([], order, ids) == []
  {
    if ids != [] {
      SectionsEmpty(order, ids[..|ids| - 1]);
    }
  }

  /** A server without a subscription, or of one. */
  function Sample(sub: Option<string>): Node {
    Node("", "", Vless, "", 0, "", "", "", "", "", sub)
  }

  /** It does so for every list exactly when no section is mentioned twice and none is named
      like the user's own. */
  lemma ReflowPermutesIff(order: seq<string>)
    ensures (forall nodes :: multiset(Reflowed(nodes, order)) == multiset(nodes)) <==> Distinct(order) && "" !in order
  {
    if Distinct(order) && "" !in order {
      forall nodes
        ensures multiset(Reflowed(nodes, order)) == multiset(nodes)
      {
        ReflowPermutes(nodes, order);
      }
    } else if "" in order {
      Doubled(Sample(None), order);
    } else {
      var i, j :| 0 <= i < j < |order| && order[i] == order[j];
      Twice(order, i, j);
      Doubled(Sample(Some(order[i])), order);
    }
  }

  lemma {:induction false} Twice(s: seq<string>, i: nat, j: nat)
    requires i < j < |s| && s[i] == s[j]
    ensures Count(s, s[i]) >= 2
  {
    var front := s[..|s| - 1];
    if j == |s| - 1 {
      assert front[i] == s[i];
      CountDistinct(front, s[i]);
    } else {
      Twice(front, i, j);
    }
  }

  lemma Doubled(n: Node, order: seq<string>)
    requires
      || Count(order, Group(n, order)) + (if Group(n, order) == "" then 1 else 0) >= 2
      || (Group(n, order) == "" && "" in order)
    ensures multiset(Reflowed([n], order)) != multiset([n])
  {
    assert [] + [n] == [n];
    ReflowGrows([], n, order, Count(order, Group(n, order)));
    CountDistinct(order, "");
    assert multiset(Reflowed([n], order))[n] >= 2;
    assert multiset([n])[n] == 1;
  }

  // ----- the list as it is shown

  datatype NodeGroup = NodeGroup(sub: Option<Subscription>, nodes: seq<Node>)

  function SectionOf(n: Node, known: set<string>): string {
    if n.sub.Some? && n.sub.value in known then n.sub.value else ""
  }

  function Rows(nodes: seq<Node>, known: set<string>, id: string): seq<Node> {
    if nodes == [] then []
    else
      var n := nodes[|nodes| - 1];
      Rows(nodes[..|nodes| - 1], known, id) + if SectionOf(n, known) == id then [n] else []
  }

  function SubGroups(nodes: seq<Node>, known: set<string>, subs: seq<Subscription>): seq<NodeGroup> {
    if subs == [] then []
    else
      var s := subs[|subs| - 1];
      SubGroups(nodes, known, subs[..|subs| - 1]) + [NodeGroup(Some(s), Rows(nodes, known, s.id))]
  }

  /** `render_groups`, as far as the order goes: a group per subscription, then the user's
      own servers, if there are any. */
  function RenderGroups(nodes: seq<Node>, subs: seq<Subscription>): seq<NodeGroup> {
    var known := set s | s in subs :: s.id;
    var own := Rows(nodes, known, "");
    SubGroups(nodes, known, subs) + if own == [] then [] else [NodeGroup(None, own)]
  }

  function Flat(groups: seq<NodeGroup>): seq<Node> {
    if groups == [] then [] else Flat(groups[..|groups| - 1]) + groups[|groups| - 1].nodes
  }

  lemma {:induction false} RowsAreSection(nodes: seq<Node>, known: set<string>, order: seq<string>, id: string)
    requires forall x :: x in known <==> x in order
    ensures Rows(nodes, known, id) == Section(nodes, order, id)
  {
    if nodes != [] {
      RowsAreSection(nodes[..|nodes| - 1], known, order, id);
    }
  }

  lemma {:induction false} GroupsAreSections(nodes: seq<Node>, known: set<string>, order: seq<string>,
      subs: seq<Subscription>)
    requires forall x :: x in known <==> x in order
    ensures Flat(SubGroups(nodes, known, subs)) == Sections(nodes, order, SubIds(subs))
  {
    if subs != [] {
      var front, s := subs[..|subs| - 1], subs[|subs| - 1];
      GroupsAreSections(nodes, known, order, front);
      RowsAreSection(nodes, known, order, s.id);
      assert SubIds(subs)[..|subs| - 1] == SubIds(front);
      var groups := SubGroups(nodes, known, subs);
      assert groups[..|groups| - 1] == SubGroups(nodes, known, front);
    }
  }

  /** Every group shows the servers of the subscription it is headed by, in order; what is left is
      shown without a heading at the end, if there is anything. */
  lemma ShownUnderHeadings(nodes: seq<Node>, subs: seq<Subscription>)
    requires Distinct(SubIds(subs)) && "" !in SubIds(subs)
    ensures
      var groups, own := RenderGroups(nodes, subs), Belonging(nodes, SubIds(subs), |subs|);
      && |groups| == |subs| + (if own == [] then 0 else 1)
      && (own != [] ==> groups[|subs|] == NodeGroup(None, own))
      && forall k :: 0 <= k < |subs| ==> groups[k] == NodeGroup(Some(subs[k]), Belonging(nodes, SubIds(subs), k))
  {
    var known, order := set s | s in subs :: s.id, SubIds(subs);
    KnownAreIds(subs);
    RowsAreSection(nodes, known, order, "");
    BelongingIs(nodes, order, |subs|);
    GroupHeadings(nodes, known, subs);
    forall k | 0 <= k < |subs|
      ensures Rows(nodes, known, subs[k].id) == Belonging(nodes, order, k)
    {
      RowsAreSection(nodes, known, order, subs[k].id);
      BelongingIs(nodes, order, k);
    }
  }

  lemma {:induction false} GroupHeadings(nodes: seq<Node>, known: set<string>, subs: seq<Subscription>)
    ensures
      var groups := SubGroups(nodes, known, subs);
      |groups| == |subs| && forall k :: 0 <= k < |subs| ==>
        groups[k] == NodeGroup(Some(subs[k]), Rows(nodes, known, subs[k].id))
  {
    if subs != [] {
      GroupHeadings(nodes, known, subs[..|subs| - 1]);
    }
  }

  lemma KnownAreIds(subs: seq<Subscription>)
    ensures forall x :: x in (set s | s in subs :: s.id) <==> x in SubIds(subs)
  {
    var known, order := set s | s in subs :: s.id, SubIds(subs);
    forall x
      ensures x in known <==> x in order
    {
      if x in known {
        var s :| s in subs && s.id == x;
        var k :| 0 <= k < |subs| && subs[k] == s;
        assert order[k] == x;
      }
      if x in order {
        var k :| 0 <= k < |order| && order[k] == x;
        assert subs[k] in subs;
      }
    }
  }

  /** What is shown, read top to bottom, is the reflowed list. */
  lemma ShownIsReflowed(nodes: seq<Node>, subs: seq<Subscription>)
    ensures Flat(RenderGroups(nodes, subs)) == Reflowed(nodes, SubIds(subs))
  {
    var known := set s | s in subs :: s.id;
    var order := SubIds(subs);
    KnownAreIds(subs);
    GroupsAreSections(nodes, known, order, subs);
    RowsAreSection(nodes, known, order, "");
    var own := Rows(nodes, known, "");
    var groups := RenderGroups(nodes, subs);
    if own != [] {
      assert groups[..|groups| - 1] == SubGroups(nodes, known, subs);
    } else {
      assert groups == SubGroups(nodes, known, subs);
    }
  }

  /** A reflowed list is shown in its own order. */
  lemma ShownAsListed(nodes: seq<Node>, subs: seq<Subscription>)
    requires Distinct(SubIds(subs)) && "" !in SubIds(subs)
    ensures Flat(RenderGroups(Reflowed(nodes, SubIds(subs)), subs)) == Reflowed(nodes, SubIds(subs))
  {
    ShownIsReflowed(Reflowed(nodes, SubIds(subs)), subs);
    ReflowIdempotent(nodes, SubIds(subs));
  }
}
