/** The servers of the list, and lists of them. */
module Servers {
  import opened Common

  datatype Protocol =
    Vless | Vmess | Trojan | Shadowsocks | Hysteria2 | Tuic | Wireguard | Amneziawg | Masque | Veil

  /** A server; `name` stands for the settings nothing here looks at. */
  datatype Node = Node(
    id: string, name: string, protocol: Protocol, address: string, port: nat,
    uuid: string, password: string, path: string, privateKey: string, username: string,
    sub: Option<string>)

  function SingboxName(p: Protocol): string {
    match p
    case Vless => "vless"
    case Vmess => "vmess"
    case Trojan => "trojan"
    case Shadowsocks => "shadowsocks"
    case Hysteria2 => "hysteria2"
    case Tuic => "tuic"
    case Wireguard => "wireguard"
    case Amneziawg => "amneziawg"
    case Masque => "masque"
    case Veil => "veil"
  }

  function Decimal(n: nat): string {
    if n < 10 then ['0' + n as char] else Decimal(n / 10) + ['0' + (n % 10) as char]
  }

  function Credential(n: Node): string {
    if n.protocol == Amneziawg then n.privateKey
    else if n.protocol == Masque then n.username + ":" + n.password
    else if n.uuid == "" then n.password
    else n.uuid
  }

  function Barred(parts: seq<string>): string {
    if parts == [] then ""
    else if |parts| == 1 then parts[0]
    else parts[0] + "|" + Barred(parts[1..])
  }

  /** What a server is known by across refreshes: not its id, name or subscription. */
  function Fingerprint(n: Node): string {
    Barred([SingboxName(n.protocol), n.address, Decimal(n.port), Credential(n), n.path])
  }

  function Ids(nodes: seq<Node>): (ids: seq<string>)
    ensures |ids| == |nodes| && forall k :: 0 <= k < |ids| ==> ids[k] == nodes[k].id
  {
    seq(|nodes|, k requires 0 <= k < |nodes| => nodes[k].id)
  }

  lemma IdsAppend(a: seq<Node>, b: seq<Node>)
    ensures Ids(a + b) == Ids(a) + Ids(b)
  {}

  ghost predicate Distinct<T(!new)>(s: seq<T>) {
    forall i, j :: 0 <= i < j < |s| ==> s[i] != s[j]
  }

  /** `a` is `b` with some elements left out. */
  ghost predicate Subsequence<T(!new)>(a: seq<T>, b: seq<T>) {
    a == [] || (b != [] &&
      (Subsequence(a, b[..|b| - 1]) || (a[|a| - 1] == b[|b| - 1] && Subsequence(a[..|a| - 1], b[..|b| - 1]))))
  }

  lemma {:induction false} SubsequenceIn<T(!new)>(a: seq<T>, b: seq<T>, x: T)
    requires Subsequence(a, b) && x in a
    ensures x in b
    decreases |b|
  {
    var front := b[..|b| - 1];
    if Subsequence(a, front) {
      SubsequenceIn(a, front, x);
    } else if x != a[|a| - 1] {
      SubsequenceIn(a[..|a| - 1], front, x);
    }
  }

  lemma {:induction false} SubsequenceDistinct<T(!new)>(a: seq<T>, b: seq<T>)
    requires Subsequence(a, b) && Distinct(b)
    ensures Distinct(a)
    decreases |b|
  {
    if a != [] {
      var front := b[..|b| - 1];
      if Subsequence(a, front) {
        SubsequenceDistinct(a, front);
      } else {
        SubsequenceDistinct(a[..|a| - 1], front);
        if a[|a| - 1] in a[..|a| - 1] {
          SubsequenceIn(a[..|a| - 1], front, a[|a| - 1]);
        }
      }
    }
  }

  lemma SubsequenceGrows<T(!new)>(a: seq<T>, b: seq<T>, x: T, one: seq<T>)
    requires Subsequence(a, b) && (one == [] || one == [x])
    ensures Subsequence(a + one, b + [x])
  {
    assert (b + [x])[..|b|] == b;
    if one == [] {
      assert a + one == a;
    } else {
      assert (a + [x])[..|a|] == a;
    }
  }

  lemma {:induction false} SubsequenceMore<T(!new)>(a: seq<T>, b: seq<T>, c: seq<T>, d: seq<T>)
    requires Subsequence(a, b) && Subsequence(c, d)
    ensures Subsequence(a + c, b + d)
    decreases |d|
  {
    if d == [] {
      assert b + d == b && a + c == a;
    } else {
      assert (b + d)[..|b + d| - 1] == b + d[..|d| - 1];
      if Subsequence(c, d[..|d| - 1]) {
        SubsequenceMore(a, b, c, d[..|d| - 1]);
      } else {
        SubsequenceMore(a, b, c[..|c| - 1], d[..|d| - 1]);
        assert (a + c)[..|a + c| - 1] == a + c[..|c| - 1];
      }
    }
  }
}
