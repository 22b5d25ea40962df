/** The server name in a TLS ClientHello (section 3 of RFC 6066). */
module ClientHello {
  import opened Common
  import opened BigEndian

  predicate HostByte(b: byte) {
    48 <= b <= 57 || 65 <= b <= 90 || 97 <= b <= 122 || b == 46 || b == 45 || b == 95
  }

  predicate ValidHost(name: Bytes) {
    0 < |name| <= 253 && forall i :: 0 <= i < |name| ==> HostByte(name[i])
  }

  function HostOf(name: Bytes): Option<Bytes> {
    if ValidHost(LowerAll(name)) then Some(LowerAll(name)) else None
  }

  /** The name inside a server_name extension. */
  function ListedName(list: Bytes): Option<Bytes> {
    match U16At(list, 3)
    case None => None
    case Some(n) => if |list| < 5 + n then None else HostOf(list[5..5 + n])
  }

  /** The first server_name extension from place `i` on. */
  function ExtensionName(body: Bytes, i: nat, end: nat): Option<Bytes>
    requires end <= |body|
    decreases end - i
  {
    if i + 4 > end then None
    else
      var kind, len := U16At(body, i).value, U16At(body, i + 2).value;
      if kind == 0 then
        if |body| < i + 4 + len then None else ListedName(body[i + 4..i + 4 + len])
      else ExtensionName(body, i + 4 + len, end)
  }

  /** Where the extensions start: after version, random, session, ciphers and compression. */
  function ExtensionsAt(body: Bytes): Option<nat> {
    if |body| <= 34 then None
    else
      var i := 35 + (body[34] as nat);
      match U16At(body, i)
      case None => None
      case Some(ciphers) =>
        var j := i + 2 + ciphers;
        if |body| <= j then None else Some(j + 1 + (body[j] as nat))
  }

  /** The name in a ClientHello, from the version field on. */
  function HelloName(body: Bytes): Option<Bytes> {
    var i := ExtensionsAt(body);
    if i.None? || U16At(body, i.value).None? then None
    else ExtensionName(body, i.value + 2, ExtensionsEnd(body, i.value))
  }

  /** Where the extensions end: where their length says, or with the hello. */
  function ExtensionsEnd(body: Bytes, i: nat): (end: nat)
    requires U16At(body, i).Some?
    ensures end <= |body|
  {
    Min(i + 2 + U16At(body, i).value, |body|)
  }

  method FindExtensions(body: Bytes) returns (r: Option<nat>)
    ensures r == ExtensionsAt(body)
  {
    var i: nat := 34;
    if i >= |body| {
      return None;
    }
    i := i + 1 + body[i];
    var ciphers := U16At(body, i);
    if ciphers.None? {
      return None;
    }
    i := i + 2 + ciphers.value;
    if i >= |body| {
      return None;
    }
    r := Some(i + 1 + body[i]);
  }

  lemma ExtensionStep(body: Bytes, i: nat, end: nat)
    requires end <= |body|
    ensures i + 4 > end ==> ExtensionName(body, i, end) == None
    ensures i + 4 <= end ==>
      var kind, len := U16At(body, i).value, U16At(body, i + 2).value;
      ExtensionName(body, i, end) ==
        if kind != 0 then ExtensionName(body, i + 4 + len, end)
        else if |body| < i + 4 + len then None
        else ListedName(body[i + 4..i + 4 + len])
  {}

  method ReadList(list: Bytes) returns (r: Option<Bytes>)
    ensures r == ListedName(list)
  {
    var n := U16At(list, 3);
    if n.None? || |list| < 5 + n.value {
      return None;
    }
    var name := LowerAll(list[5..5 + n.value]);
    return if ValidHost(name) then Some(name) else None;
  }

  method ScanExtensions(body: Bytes, from: nat, end: nat) returns (r: Option<Bytes>)
    requires end <= |body|
    ensures r == ExtensionName(body, from, end)
  {
    var i := from;
    while i + 4 <= end
      invariant ExtensionName(body, from, end) == ExtensionName(body, i, end)
      decreases end - i
    {
      ExtensionStep(body, i, end);
      var kind, len := U16At(body, i).value, U16At(body, i + 2).value;
      if kind == 0 {
        if |body| < i + 4 + len {
          return None;
        }
        r := ReadList(body[i + 4..i + 4 + len]);
        return;
      }
      i := i + 4 + len;
    }
    ExtensionStep(body, i, end);
    r := None;
  }

  /** `sni_in_hello`. */
  method SniInHello(body: Bytes) returns (r: Option<Bytes>)
    ensures r == HelloName(body)
  {
    var start := FindExtensions(body);
    if start.None? {
      return None;
    }
    var i: nat := start.value;
    var total := U16At(body, i);
    if total.None? {
      return None;
    }
    r := ScanExtensions(body, i + 2, Min(i + 2 + total.value, |body|));
  }

  // ----- what a client sends

  datatype Extension = Extension(kind: nat, data: Bytes)
  {
    predicate Valid() {
      kind < 0x1_0000 && |data| < 0x1_0000
    }

    function Bytes(): Bytes {
      ToBytes(kind, 2) + ToBytes(|data|, 2) + data
    }
  }

  function ExtensionsBytes(es: seq<Extension>): Bytes {
    if es == [] then [] else es[0].Bytes() + ExtensionsBytes(es[1..])
  }

  datatype Hello = Hello(
    version: Bytes, random: Bytes, session: Bytes, ciphers: Bytes, compression: Bytes, extensions: seq<Extension>)
  {
    ghost predicate Valid() {
      && |version| == 2 && |random| == 32 && |session| < 0x100 && |ciphers| < 0x1_0000 && |compression| < 0x100
      && |ExtensionsBytes(extensions)| < 0x1_0000
      && forall i :: 0 <= i < |extensions| ==> extensions[i].Valid()
    }

    function Head(): Bytes
      requires Valid()
    {
      version + random + [|session|] + session + ToBytes(|ciphers|, 2) + ciphers + [|compression|] + compression
    }

    function Body(): Bytes
      requires Valid()
    {
      Head() + ToBytes(|ExtensionsBytes(extensions)|, 2) + ExtensionsBytes(extensions)
    }
  }

  /** A server_name extension that lists one host name, with whatever follows it. */
  function ServerName(name: Bytes, more: Bytes): Bytes
    requires |name| + |more| < 0xfff0
  {
    ToBytes(|name| + 3 + |more|, 2) + [0] + ToBytes(|name|, 2) + name + more
  }

  lemma U16Bytes(v: nat, before: Bytes, after: Bytes)
    requires v < 0x1_0000
    ensures U16At(before + ToBytes(v, 2) + after, |before|) == Some(v)
  {
    var d := before + ToBytes(v, 2) + after;
    assert d[|before|..|before| + 2] == ToBytes(v, 2);
    TwoBytes(v);
  }

  lemma ByteIn(body: Bytes, a: Bytes, x: byte, rest: Bytes)
    requires body == a + [x] + rest
    ensures |body| > |a| && body[|a|] == x
  {}

  lemma SessionAt(h: Hello)
    requires h.Valid()
    ensures |h.Body()| > 34 && h.Body()[34] == |h.session|
  {
    var a, b, c, d := h.session, ToBytes(|h.ciphers|, 2), h.ciphers, [|h.compression|];
    var tail := ToBytes(|ExtensionsBytes(h.extensions)|, 2);
    var rest := a + b + c + d + h.compression + tail + ExtensionsBytes(h.extensions);
    assert h.Body() == (h.version + h.random) + [|h.session|] + rest;
    ByteIn(h.Body(), h.version + h.random, |h.session|, rest);
  }

  lemma CiphersAt(h: Hello)
    requires h.Valid()
    ensures U16At(h.Body(), 35 + |h.session|) == Some(|h.ciphers|)
  {
    var before := h.version + h.random + [|h.session|] + h.session;
    var rest := h.ciphers + [|h.compression|] + h.compression + ToBytes(|ExtensionsBytes(h.extensions)|, 2)
      + ExtensionsBytes(h.extensions);
    assert h.Body() == before + ToBytes(|h.ciphers|, 2) + rest;
    U16Bytes(|h.ciphers|, before, rest);
  }

  lemma CompressionAt(h: Hello)
    requires h.Valid()
    ensures
      var i := 37 + |h.session| + |h.ciphers|;
      |h.Body()| > i && h.Body()[i] == |h.compression|
  {
    var before := h.version + h.random + [|h.session|] + h.session + ToBytes(|h.ciphers|, 2) + h.ciphers;
    var rest := h.compression + ToBytes(|ExtensionsBytes(h.extensions)|, 2) + ExtensionsBytes(h.extensions);
    assert h.Body() == before + [|h.compression|] + rest;
    ByteIn(h.Body(), before, |h.compression|, rest);
  }

  /** The head of a hello is as long as the reader computes. */
  lemma HeadRead(h: Hello)
    requires h.Valid()
    ensures ExtensionsAt(h.Body()) == Some(|h.Head()|)
  {
    SessionAt(h);
    CiphersAt(h);
    CompressionAt(h);
    AtPlaces(h.Body(), |h.session|, |h.ciphers|, |h.compression|);
    assert |h.Head()| == 38 + |h.session| + |h.ciphers| + |h.compression|;
  }

  /** The three lengths, each where the one before it says. */
  lemma AtPlaces(body: Bytes, session: nat, ciphers: nat, compression: nat)
    requires |body| > 34 && body[34] == session && U16At(body, 35 + session) == Some(ciphers)
    requires |body| > 37 + session + ciphers && body[37 + session + ciphers] == compression
    ensures ExtensionsAt(body) == Some(38 + session + ciphers + compression)
  {}

  /** What the extensions of a hello say: the first one of kind zero decides. */
  function NameOf(es: seq<Extension>): Option<Bytes> {
    if es == [] then None
    else if es[0].kind == 0 then ListedName(es[0].data)
    else NameOf(es[1..])
  }

  lemma ExtensionHead(e: Extension, before: Bytes, rest: Bytes)
    requires e.Valid()
    ensures
      var body, i := before + (e.Bytes() + rest), |before|;
      && U16At(body, i) == Some(e.kind) && U16At(body, i + 2) == Some(|e.data|)
      && |body| >= i + 4 + |e.data| && body[i + 4..i + 4 + |e.data|] == e.data
      && |e.Bytes()| == 4 + |e.data|
  {
    var body := before + (e.Bytes() + rest);
    var kind, len := ToBytes(e.kind, 2), ToBytes(|e.data|, 2);
    assert body == before + kind + (len + e.data + rest);
    U16Bytes(e.kind, before, len + e.data + rest);
    assert body == (before + kind) + len + (e.data + rest);
    U16Bytes(|e.data|, before + kind, e.data + rest);
    assert body[|before| + 4..|before| + 4 + |e.data|] == e.data;
  }

  /** The extensions from place `i` to the end give this name. */
  ghost predicate NamedFrom(body: Bytes, i: nat, name: Option<Bytes>) {
    ExtensionName(body, i, |body|) == name
  }

  lemma {:induction false} ExtensionsRead(es: seq<Extension>, before: Bytes, body: Bytes, i: nat)
    requires forall i :: 0 <= i < |es| ==> es[i].Valid()
    requires body == before + ExtensionsBytes(es) && i == |before|
    ensures NamedFrom(body, i, NameOf(es))
    decreases |es|
  {
    if es == [] {
      ExtensionStep(body, i, |body|);
    } else {
      var e, rest := es[0], ExtensionsBytes(es[1..]);
      ExtensionHead(e, before, rest);
      Reassociate(before, e.Bytes(), rest);
      ExtensionsRead(es[1..], before + e.Bytes(), body, i + 4 + |e.data|);
      ExtensionNext(body, i, e, NameOf(es[1..]));
    }
  }

  lemma ExtensionNext(body: Bytes, i: nat, e: Extension, name: Option<Bytes>)
    requires U16At(body, i) == Some(e.kind) && U16At(body, i + 2) == Some(|e.data|)
    requires |body| >= i + 4 + |e.data| && body[i + 4..i + 4 + |e.data|] == e.data
    requires NamedFrom(body, i + 4 + |e.data|, name)
    ensures NamedFrom(body, i, if e.kind == 0 then ListedName(e.data) else name)
  {
    ExtensionStep(body, i, |body|);
  }

  /** Reading a hello finds the first server_name extension, whatever comes before it. */
  lemma HelloRead(h: Hello)
    requires h.Valid()
    ensures HelloName(h.Body()) == NameOf(h.extensions)
  {
    HeadRead(h);
    var total := |ExtensionsBytes(h.extensions)|;
    U16Bytes(total, h.Head(), ExtensionsBytes(h.extensions));
    ExtensionsRead(h.extensions, h.Head() + ToBytes(total, 2), h.Body(), |h.Head()| + 2);
    NameFrom(h.Body(), |h.Head()|, total, NameOf(h.extensions));
  }

  lemma NameFrom(body: Bytes, i: nat, total: nat, name: Option<Bytes>)
    requires ExtensionsAt(body) == Some(i) && U16At(body, i) == Some(total) && |body| == i + 2 + total
    requires NamedFrom(body, i + 2, name)
    ensures HelloName(body) == name
  {
    assert ExtensionsEnd(body, i) == |body|;
  }

  /** An extension that is cut before its name ends has none. */
  lemma ServerNameCut(name: Bytes, more: Bytes, k: nat)
    requires |name| + |more| < 0xfff0 && k < 5 + |name|
    ensures ListedName(ServerName(name, more)[..k]) == None
  {
    var list := ServerName(name, more);
    if k >= 5 {
      assert list == (ToBytes(|name| + 3 + |more|, 2) + [0]) + ToBytes(|name|, 2) + (name + more);
      U16Bytes(|name|, ToBytes(|name| + 3 + |more|, 2) + [0], name + more);
      assert list[..k][3..5] == list[3..5];
    }
  }

  lemma ServerNameRead(name: Bytes, more: Bytes)
    requires |name| + |more| < 0xfff0
    ensures ListedName(ServerName(name, more)) == HostOf(name)
  {
    var list := ServerName(name, more);
    var before := ToBytes(|name| + 3 + |more|, 2) + [0];
    assert list == before + ToBytes(|name|, 2) + (name + more);
    U16Bytes(|name|, before, name + more);
    assert list[5..5 + |name|] == name;
  }

  /** The host name a client announces is the one found, in lower case, behind any other
      extensions; a name that is no host name is dropped. */
  lemma AnnouncedNameFound(h: Hello, e: nat, name: Bytes, more: Bytes)
    requires h.Valid() && e < |h.extensions| && |name| + |more| < 0xfff0
    requires h.extensions[e] == Extension(0, ServerName(name, more))
    requires forall i :: 0 <= i < e ==> h.extensions[i].kind != 0
    ensures HelloName(h.Body()) == if IsHostName(name) then Some(LowerAll(name)) else None
  {
    HelloRead(h);
    FirstNamed(h.extensions, e);
    ServerNameRead(name, more);
    HostNameIs(name);
  }

  predicate HostCharacter(c: char) {
    'a' <= c <= 'z' || 'A' <= c <= 'Z' || '0' <= c <= '9' || c in ".-_"
  }

  /** One to 253 letters, digits, dots, hyphens and underscores. */
  ghost predicate IsHostName(name: Bytes) {
    1 <= |name| <= 253 && forall i :: 0 <= i < |name| ==> HostCharacter(name[i] as char)
  }

  lemma HostNameIs(name: Bytes)
    ensures IsHostName(name) <==> ValidHost(LowerAll(name))
  {
    forall i | 0 <= i < |name|
      ensures HostCharacter(name[i] as char) <==> HostByte(LowerAll(name)[i])
    {}
  }

  lemma {:induction false} FirstNamed(es: seq<Extension>, e: nat)
    requires e < |es| && es[e].kind == 0 && forall i :: 0 <= i < e ==> es[i].kind != 0
    ensures NameOf(es) == ListedName(es[e].data)
  {
    if e > 0 {
      FirstNamed(es[1..], e - 1);
    }
  }
}
