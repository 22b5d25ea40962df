/** Which servers a refresh takes for the same one, told by their fields. */
module ServerIdentity {
  import opened Common
  import opened Servers
  import opened Pairing
  import opened SubscriptionMerge
  import opened MergeLaws

  // ----- text with bars

  /** The text before the first bar of one runs on into the other: `b` is `a`, a bar and what
      the rest behind `a` begins with. */
  ghost predicate RunsOn(a: string, x: string, b: string, y: string) {
    exists m :: RunsBy(a, x, b, y, m)
  }

  ghost predicate RunsBy(a: string, x: string, b: string, y: string, m: string) {
    b == a + "|" + m && x == m + "|" + y
  }

  /** Two texts with a bar are the same exactly if their parts are, or one part runs on. */
  lemma SameBarred(a: string, x: string, b: string, y: string)
    ensures a + "|" + x == b + "|" + y <==> (a == b && x == y) || RunsOn(a, x, b, y) || RunsOn(b, y, a, x)
  {
    var s, t := a + "|" + x, b + "|" + y;
    if s == t {
      if |a| < |b| {
        Overlap(a, x, b, y);
      } else if |b| < |a| {
        Overlap(b, y, a, x);
      } else {
        assert s[..|a|] == a && t[..|a|] == b && s[|a| + 1..] == x && t[|a| + 1..] == y;
      }
    }
    if m :| RunsBy(a, x, b, y, m) {
      BarsApart(a, m, y);
    }
    if m :| RunsBy(b, y, a, x, m) {
      BarsApart(b, m, x);
    }
  }

  lemma BarsApart(a: string, m: string, y: string)
    ensures a + "|" + (m + "|" + y) == (a + "|" + m) + "|" + y
  {}

  lemma Overlap(a: string, x: string, b: string, y: string)
    requires a + "|" + x == b + "|" + y && |a| < |b|
    ensures RunsOn(a, x, b, y)
  {
    var s, m := a + "|" + x, b[|a| + 1..];
    assert s[..|b|] == b && s[|b|] == '|' && s[|b| + 1..] == y;
    assert s[..|a|] == a && s[|a|] == '|' && s[|a| + 1..] == x;
    assert b == a + "|" + m;
    assert x == m + "|" + y;
    assert RunsBy(a, x, b, y, m);
  }

  lemma NoBarNoRun(a: string, x: string, b: string, y: string)
    requires '|' !in b
    ensures !RunsOn(a, x, b, y)
  {
    forall m
      ensures !RunsBy(a, x, b, y, m)
    {
      assert (a + "|" + m)[|a|] == '|';
    }
  }

  /** Parts without bars are told apart. */
  lemma BarSplit(a: string, x: string, b: string, y: string)
    requires '|' !in a && '|' !in b
    ensures a + "|" + x == b + "|" + y <==> a == b && x == y
  {
    SameBarred(a, x, b, y);
    NoBarNoRun(a, x, b, y);
    NoBarNoRun(b, y, a, x);
  }

  // ----- the parts

  lemma {:induction false} DecimalIsPlain(n: nat)
    ensures Decimal(n) != "" && forall c :: c in Decimal(n) ==> '0' <= c <= '9'
  {
    if n >= 10 {
      DecimalIsPlain(n / 10);
    }
  }

  lemma {:induction false} DecimalIsOne(m: nat, n: nat)
    ensures Decimal(m) == Decimal(n) <==> m == n
  {
    if Decimal(m) == Decimal(n) {
      DecimalIsPlain(m / 10);
      DecimalIsPlain(n / 10);
      var d := Decimal(m);
      assert d[|d| - 1] == '0' + (m % 10) as char == '0' + (n % 10) as char;
      if m >= 10 && n >= 10 {
        assert d[..|d| - 1] == Decimal(m / 10) == Decimal(n / 10);
        DecimalIsOne(m / 10, n / 10);
      }
    }
  }

  function Named(s: string): Protocol {
    if s == "vless" then Vless
    else if s == "vmess" then Vmess
    else if s == "trojan" then Trojan
    else if s == "shadowsocks" then Shadowsocks
    else if s == "hysteria2" then Hysteria2
    else if s == "tuic" then Tuic
    else if s == "wireguard" then Wireguard
    else if s == "amneziawg" then Amneziawg
    else if s == "masque" then Masque
    else Veil
  }

  lemma NameIsOne(p: Protocol)
    ensures Named(SingboxName(p)) == p && '|' !in SingboxName(p)
  {
    match p
    case Vless =>
    case Vmess =>
    case Trojan =>
    case Shadowsocks =>
    case Hysteria2 =>
    case Tuic =>
    case Wireguard =>
    case Amneziawg =>
    case Masque =>
    case Veil =>
  }

  // ----- when two servers are taken for one

  /** How a client is known to its server: by its own key, by user and password, or by its uuid
      or, without one, its password. */
  ghost function Login(n: Node): string {
    match n.protocol
    case Amneziawg => n.privateKey
    case Masque => n.username + ":" + n.password
    case _ => if n.uuid != "" then n.uuid else n.password
  }

  /** Login and path, and before them the port, as they follow the address. */
  ghost function BehindPort(n: Node): string {
    Login(n) + "|" + n.path
  }

  ghost function BehindAddress(n: Node): string {
    Decimal(n.port) + "|" + BehindPort(n)
  }

  ghost predicate LoginRunsOn(a: Node, b: Node) {
    RunsOn(Login(a), a.path, Login(b), b.path)
  }

  ghost predicate AddressRunsOn(a: Node, b: Node) {
    RunsOn(a.address, BehindAddress(a), b.address, BehindAddress(b))
  }

  /** The same protocol, address, port, login and path; or a bar inside one address or login
      makes it run on into what follows in the other. */
  ghost predicate Alike(a: Node, b: Node) {
    && a.protocol == b.protocol
    && (|| (&& a.address == b.address && a.port == b.port
            && ((Login(a) == Login(b) && a.path == b.path) || LoginRunsOn(a, b) || LoginRunsOn(b, a)))
        || AddressRunsOn(a, b) || AddressRunsOn(b, a))
  }

  lemma FingerprintText(n: Node)
    ensures Fingerprint(n) == SingboxName(n.protocol) + "|" + (n.address + "|" + BehindAddress(n))
  {
    BarredMore(Credential(n), [n.path]);
    BarredMore(Decimal(n.port), [Credential(n), n.path]);
    BarredMore(n.address, [Decimal(n.port), Credential(n), n.path]);
    BarredMore(SingboxName(n.protocol), [n.address, Decimal(n.port), Credential(n), n.path]);
  }

  lemma BarredMore(first: string, rest: seq<string>)
    requires rest != []
    ensures Barred([first] + rest) == first + "|" + Barred(rest)
  {
    assert ([first] + rest)[1..] == rest;
  }

  /** Two servers share a fingerprint exactly if they are alike. */
  lemma FingerprintIsAlike(a: Node, b: Node)
    ensures Fingerprint(a) == Fingerprint(b) <==> Alike(a, b)
  {
    FingerprintText(a);
    FingerprintText(b);
    NameIsOne(a.protocol);
    NameIsOne(b.protocol);
    BarSplit(SingboxName(a.protocol), a.address + "|" + BehindAddress(a),
      SingboxName(b.protocol), b.address + "|" + BehindAddress(b));
    SameBarred(a.address, BehindAddress(a), b.address, BehindAddress(b));
    DecimalIsPlain(a.port);
    DecimalIsPlain(b.port);
    DecimalIsOne(a.port, b.port);
    BarSplit(Decimal(a.port), BehindPort(a), Decimal(b.port), BehindPort(b));
    SameBarred(Login(a), a.path, Login(b), b.path);
  }

  /** No bar in what identifies the server, and no colon in a user's name. */
  ghost predicate Plain(n: Node) {
    && '|' !in n.address && '|' !in n.privateKey && '|' !in n.username && '|' !in n.password && '|' !in n.uuid
    && ':' !in n.username
  }

  /** The same server, field by field. */
  ghost predicate SameServer(a: Node, b: Node) {
    && a.protocol == b.protocol && a.address == b.address && a.port == b.port && a.path == b.path
    && match a.protocol
       case Amneziawg => a.privateKey == b.privateKey
       case Masque => a.username == b.username && a.password == b.password
       case _ => (if a.uuid == "" then a.password else a.uuid) == (if b.uuid == "" then b.password else b.uuid)
  }

  lemma ColonSplit(a: string, x: string, b: string, y: string)
    requires ':' !in a && ':' !in b
    ensures a + ":" + x == b + ":" + y <==> a == b && x == y
  {
    var s, t := a + ":" + x, b + ":" + y;
    assert forall i :: 0 <= i < |a| ==> s[i] == a[i] && a[i] in a;
    assert forall i :: 0 <= i < |b| ==> t[i] == b[i] && b[i] in b;
    assert s[|a|] == ':' && t[|b|] == ':';
    assert s[..|a|] == a && t[..|b|] == b && s[|a| + 1..] == x && t[|b| + 1..] == y;
  }

  /** Without bars in the fields, servers are paired exactly if they are the same. */
  lemma PlainAlike(a: Node, b: Node)
    requires Plain(a) && Plain(b)
    ensures Alike(a, b) <==> SameServer(a, b)
  {
    NoBarNoRun(a.address, BehindAddress(a), b.address, BehindAddress(b));
    NoBarNoRun(b.address, BehindAddress(b), a.address, BehindAddress(a));
    NoBarNoRun(Login(a), a.path, Login(b), b.path);
    NoBarNoRun(Login(b), b.path, Login(a), a.path);
    ColonSplit(a.username, a.password, b.username, b.password);
  }

  /** A bar in an address can make two different servers one: "x" with the uuid "1|p" and
      "x|1" with the uuid "p", both on port 1. */
  lemma BarCollides(a: Node, b: Node)
    requires a.protocol == b.protocol == Vless && a.uuid == "1|p" && b.uuid == "p" && a.path == b.path
    requires a.address == "x" && b.address == "x|1" && a.port == b.port == 1
    ensures Fingerprint(a) == Fingerprint(b) && !SameServer(a, b)
  {
    var m := "1";
    assert Decimal(1) == "1";
    assert BehindAddress(a) == "1" + "|" + ("1|p" + "|" + a.path);
    assert BehindAddress(b) == "1" + "|" + ("p" + "|" + b.path);
    assert BehindAddress(a) == m + "|" + BehindAddress(b);
    assert b.address == a.address + "|" + m;
    assert RunsBy(a.address, BehindAddress(a), b.address, BehindAddress(b), m);
    FingerprintIsAlike(a, b);
  }

  // ----- what a refresh keeps

  /** How many nodes of the subscription are taken for `x`. */
  ghost function AlikeCount(nodes: seq<Node>, sub: string, x: Node): nat {
    if nodes == [] then 0
    else
      var n := nodes[|nodes| - 1];
      AlikeCount(nodes[..|nodes| - 1], sub, x) + if n.sub == Some(sub) && Alike(n, x) then 1 else 0
  }

  lemma {:induction false} AlikeCountIs(nodes: seq<Node>, sub: string, x: Node)
    ensures AlikeCount(nodes, sub, x) == Count(Marks(nodes, sub), Some(Fingerprint(x)))
  {
    if nodes != [] {
      var front, n := nodes[..|nodes| - 1], nodes[|nodes| - 1];
      AlikeCountIs(front, sub, x);
      FingerprintIsAlike(n, x);
      assert nodes[..|nodes|] == nodes;
      MarksStep(nodes, sub, |nodes| - 1);
      CountAppend(Marks(front, sub), Mark(n, sub), Some(Fingerprint(x)));
    } else {
      assert Marks(nodes, sub) == [];
    }
  }

  /** What becomes of a node behind `before`: somebody else's is as it was; one of the subscription
      keeps its id, and is the incoming one with as many like it before it. */
  ghost predicate Stays(before: seq<Node>, old': Node, new': Node, news: seq<Node>, sub: string) {
    if old'.sub != Some(sub) then new' == old'
    else Alike(old', new') && exists j :: 0 <= j < |news| && Renews(before, old', new', news, sub, j)
  }

  ghost predicate Renews(before: seq<Node>, old': Node, new': Node, news: seq<Node>, sub: string, j: nat)
    requires j < |news|
  {
    new' == news[j].(id := old'.id) && AlikeCount(news[..j], sub, old') == AlikeCount(before, sub, old')
  }

  ghost predicate Stood(existing: seq<Node>, kept: seq<Node>, news: seq<Node>, sub: string, places: seq<nat>) {
    && |places| == |kept|
    && (forall k :: 0 <= k < |places| ==> places[k] < |existing|)
    && (forall j, k :: 0 <= j < k < |places| ==> places[j] < places[k])
    && (forall k :: 0 <= k < |kept| ==> Stays(existing[..places[k]], existing[places[k]], kept[k], news, sub))
  }

  lemma {:induction false} KeptStood(existing: seq<Node>, keys: seq<string>, news: seq<Node>, sub: string)
    returns (places: seq<nat>)
    requires keys == Keys(news) && forall k :: 0 <= k < |news| ==> Own(news[k], sub)
    ensures Stood(existing, Kept(existing, keys, news, sub), news, sub, places)
  {
    if existing == [] {
      places := [];
    } else {
      var n := |existing| - 1;
      var before, node := existing[..n], existing[n];
      var one := Refreshed(Marks(before, sub), node, keys, news, sub);
      places := KeptStood(before, keys, news, sub);
      if one != [] {
        RefreshedStays(before, node, keys, news, sub);
        StoodMore(existing, Kept(before, keys, news, sub), news, sub, places, one[0]);
        places := places + [n];
        assert one == [one[0]];
      } else {
        assert Kept(before, keys, news, sub) + one == Kept(before, keys, news, sub);
        StoodStill(existing, Kept(before, keys, news, sub), news, sub, places);
      }
    }
  }

  lemma RefreshedStays(before: seq<Node>, node: Node, keys: seq<string>, news: seq<Node>, sub: string)
    requires keys == Keys(news) && forall k :: 0 <= k < |news| ==> Own(news[k], sub)
    requires Refreshed(Marks(before, sub), node, keys, news, sub) != []
    ensures
      var one := Refreshed(Marks(before, sub), node, keys, news, sub);
      |one| == 1 && Stays(before, node, one[0], news, sub)
  {
    if Own(node, sub) {
      var key, r := Fingerprint(node), AlikeCount(before, sub, node);
      AlikeCountIs(before, sub, node);
      var j := Nth(keys, key, r).value;
      NthIs(keys, key, r, j);
      AlikeCountIs(news[..j], sub, node);
      MarksAreKeys(news[..j], sub, key);
      assert Keys(news[..j]) == keys[..j];
      var one := news[j].(id := node.id);
      assert Fingerprint(one) == Fingerprint(news[j]);
      FingerprintIsAlike(node, one);
      assert Renews(before, node, one, news, sub, j);
    }
  }

  lemma StoodStill(existing: seq<Node>, kept: seq<Node>, news: seq<Node>, sub: string, places: seq<nat>)
    requires existing != [] && Stood(existing[..|existing| - 1], kept, news, sub, places)
    ensures Stood(existing, kept, news, sub, places)
  {
    forall k | 0 <= k < |places|
      ensures existing[..|existing| - 1][..places[k]] == existing[..places[k]]
    {}
  }

  lemma StoodMore(existing: seq<Node>, kept: seq<Node>, news: seq<Node>, sub: string, places: seq<nat>, one: Node)
    requires existing != [] && Stood(existing[..|existing| - 1], kept, news, sub, places)
    requires Stays(existing[..|existing| - 1], existing[|existing| - 1], one, news, sub)
    ensures Stood(existing, kept + [one], news, sub, places + [|existing| - 1])
  {
    StoodStill(existing, kept, news, sub, places);
  }

  /** The ids a refresh keeps.  The kept nodes stand first, in their old order; each has the id of
      an old node, and stays on a server like that one, the first on the first of its like; the
      others are new, in the order they came in.  Of every server as many nodes stay as there are
      on both sides. */
  lemma IdsStayOnServers(existing: seq<Node>, incoming: seq<Node>, sub: string)
    returns (kept: seq<Node>, places: seq<nat>, added: seq<nat>)
    ensures kept <= Merged(existing, incoming, sub)
    ensures Stood(existing, kept, Adopted(incoming, sub), sub, places)
    ensures Picked(Merged(existing, incoming, sub)[|kept|..], Adopted(incoming, sub), added)
    ensures forall x ::
      AlikeCount(kept, sub, x) == Min(AlikeCount(existing, sub, x), AlikeCount(Adopted(incoming, sub), sub, x))
  {
    var news := Adopted(incoming, sub);
    var keys := Keys(news);
    kept := Kept(existing, keys, news, sub);
    places := KeptStood(existing, keys, news, sub);
    added := AddedAreNew(Marks(existing, sub), keys, news, |news|);
    assert Merged(existing, incoming, sub)[|kept|..] == Added(Marks(existing, sub), keys, news, |news|);
    forall x
      ensures AlikeCount(kept, sub, x) == Min(AlikeCount(existing, sub, x), AlikeCount(news, sub, x))
    {
      AlikeCountIs(kept, sub, x);
      AlikeCountIs(existing, sub, x);
      AlikeCountIs(news, sub, x);
      KeptCount(existing, keys, news, sub, Fingerprint(x));
      MarksAreKeys(news, sub, Fingerprint(x));
    }
  }

  lemma {:induction false} MarksAreKeys(news: seq<Node>, sub: string, key: string)
    requires forall k :: 0 <= k < |news| ==> Own(news[k], sub)
    ensures Count(Marks(news, sub), Some(key)) == Count(Keys(news), key)
  {
    if news != [] {
      var n := |news| - 1;
      MarksAreKeys(news[..n], sub, key);
      assert Marks(news, sub)[..n] == Marks(news[..n], sub) && Keys(news)[..n] == Keys(news[..n]);
    }
  }

  /** `some` are those of `all` at the places given, in order. */
  ghost predicate Picked(some: seq<Node>, all: seq<Node>, places: seq<nat>) {
    && |places| == |some|
    && (forall k :: 0 <= k < |places| ==> places[k] < |all| && some[k] == all[places[k]])
    && (forall j, k :: 0 <= j < k < |places| ==> places[j] < places[k])
  }

  lemma {:induction false} AddedAreNew(marks: seq<Option<string>>, keys: seq<string>, news: seq<Node>, m: nat)
    returns (places: seq<nat>)
    requires m <= |keys| == |news|
    ensures Picked(Added(marks, keys, news, m), news, places) && forall k :: 0 <= k < |places| ==> places[k] < m
  {
    places := [];
    if m > 0 {
      places := AddedAreNew(marks, keys, news, m - 1);
      if Unpaired(marks, keys, m - 1) {
        places := places + [m - 1];
      }
    }
  }

  /** With plain fields an id stays on the very same server. */
  lemma PlainIdsStay(before: seq<Node>, old': Node, new': Node, news: seq<Node>, sub: string)
    requires Stays(before, old', new', news, sub) && Plain(old') && Plain(new')
    ensures new'.id == old'.id && SameServer(old', new')
  {
    PlainAlike(old', new');
  }
}
