/** The control API: requests out of a stream that comes in pieces. */
module ClashApi {
  import opened Common
  import opened Words
  import opened Framing
  import opened Sessions
  import opened ClashQuery

  const CR: byte := 13
  const LF: byte := 10
  const COLON: byte := 58
  const MARK: byte := 63

  datatype Request = Request(method': Bytes, path: Bytes, query: map<Bytes, Bytes>, authorized: bool, body: Bytes)

  // ----- text

  predicate Continues(b: Bytes, i: nat, n: nat) {
    i + n <= |b| && forall k :: i <= k < i + n ==> 128 <= b[k] < 192
  }

  /** How many bytes the character at the front takes; zero if there is none. */
  function CharSize(b: Bytes): (n: nat)
    ensures n <= |b|
  {
    if b == [] then 0
    else if b[0] < 0x80 then 1
    else if 0xC2 <= b[0] < 0xE0 then if Continues(b, 1, 1) then 2 else 0
    else if 0xE0 <= b[0] < 0xF0 then
      if Continues(b, 1, 2) && (b[0] == 0xE0 ==> b[1] >= 0xA0) && (b[0] == 0xED ==> b[1] < 0xA0) then 3 else 0
    else if 0xF0 <= b[0] < 0xF5 then
      if Continues(b, 1, 3) && (b[0] == 0xF0 ==> b[1] >= 0x90) && (b[0] == 0xF4 ==> b[1] < 0x90) then 4 else 0
    else 0
  }

  predicate Utf8(b: Bytes) {
    b == [] || (CharSize(b) > 0 && Utf8(b[CharSize(b)..]))
  }

  predicate Blank(b: byte) {
    b == SPACE || 9 <= b <= 13
  }

  function TrimStart(s: Bytes): (r: Bytes)
    ensures |r| <= |s| && (r != [] ==> !Blank(r[0]))
  {
    if s != [] && Blank(s[0]) then TrimStart(s[1..]) else s
  }

  function Trim(s: Bytes): Bytes {
    TrimEnd(TrimStart(s))
  }

  function TrimEnd(s: Bytes): Bytes {
    if s != [] && Blank(s[|s| - 1]) then TrimEnd(s[..|s| - 1]) else s
  }

  predicate IsLineEnd(s: Bytes, i: nat) {
    i + 2 <= |s| && s[i] == CR && s[i + 1] == LF
  }

  /** The first line ending from place `i` on, or the length. */
  function LineEnd(s: Bytes, i: nat): (j: nat)
    requires i <= |s|
    ensures i <= j <= |s| && (j < |s| ==> IsLineEnd(s, j))
    decreases |s| - i
  {
    if i == |s| || IsLineEnd(s, i) then i else LineEnd(s, i + 1)
  }

  function Lines(s: Bytes): (r: seq<Bytes>)
    ensures r != []
  {
    var i := LineEnd(s, 0);
    if i == |s| then [s] else [s[..i]] + Lines(s[i + 2..])
  }

  /** `split_whitespace`, up to three words. */
  function NextWord(s: Bytes): (Bytes, Bytes) {
    var t := TrimStart(s);
    var n := WordLength(t);
    (t[..n], t[n..])
  }

  function WordLength(s: Bytes): (n: nat)
    ensures n <= |s|
  {
    if s == [] || Blank(s[0]) then 0 else 1 + WordLength(s[1..])
  }

  // ----- the head

  predicate IsDigit(b: byte) {
    48 <= b <= 57
  }

  /** `parse::<usize>`; none if it is not a number or too large. */
  function Number(s: Bytes): Option<nat> {
    var digits := if s != [] && s[0] == PLUS then s[1..] else s;
    if digits == [] then None else DigitsFrom(digits, 0)
  }

  function DigitsFrom(s: Bytes, v: nat): Option<nat>
    decreases |s|
  {
    if s == [] then Some(v)
    else if !IsDigit(s[0]) || 10 * v + (s[0] - 48) as nat >= U64 then None
    else DigitsFrom(s[1..], 10 * v + (s[0] - 48) as nat)
  }

  const CONTENT_LENGTH: Bytes := [99, 111, 110, 116, 101, 110, 116, 45, 108, 101, 110, 103, 116, 104]
  const AUTHORIZATION: Bytes := [97, 117, 116, 104, 111, 114, 105, 122, 97, 116, 105, 111, 110]
  const CONNECTION: Bytes := [99, 111, 110, 110, 101, 99, 116, 105, 111, 110]
  const CLOSE: Bytes := [99, 108, 111, 115, 101]
  const BEARER: Bytes := [66, 101, 97, 114, 101, 114, 32]
  const HTTP_1_0: Bytes := [72, 84, 84, 80, 47, 49, 46, 48]

  /** What the header lines settle. */
  datatype Settings = Settings(length: nat, authorized: bool, keepAlive: bool)

  function AfterLine(s: Settings, line: Bytes, secret: Bytes): Settings {
    var parts := SplitOnce(line, COLON);
    if parts.None? then s
    else
      var name, value := LowerAll(parts.value.0), Trim(parts.value.1);
      if name == CONTENT_LENGTH then
        s.(length := if Number(value).Some? then Number(value).value else 0)
      else if name == AUTHORIZATION then
        s.(authorized := (BEARER <= value && Trim(value[|BEARER|..]) == secret) || secret == [])
      else if name == CONNECTION then
        s.(keepAlive := LowerAll(value) != CLOSE)
      else s
  }

  function AfterLines(s: Settings, lines: seq<Bytes>, secret: Bytes): Settings
    decreases |lines|
  {
    if lines == [] then s else AfterLines(AfterLine(s, lines[0], secret), lines[1..], secret)
  }

  datatype Head = Head(method': Bytes, target: Bytes, settings: Settings)

  function HeadOf(head: Bytes, secret: Bytes): Option<Head> {
    if !Utf8(head) then None
    else
      var lines := Lines(head);
      var m := NextWord(lines[0]);
      var t := NextWord(m.1);
      var v := NextWord(t.1);
      if m.0 == [] || t.0 == [] then None
      else
        var start := Settings(0, secret == [], v.0 != HTTP_1_0);
        Some(Head(m.0, t.0, AfterLines(start, lines[1..], secret)))
  }

  // ----- the request

  predicate IsHeadEnd(s: Bytes, i: nat) {
    i + 4 <= |s| && s[i] == CR && s[i + 1] == LF && s[i + 2] == CR && s[i + 3] == LF
  }

  /** The first blank line from place `i` on. */
  function HeadEnd(s: Bytes, i: nat): (r: Option<nat>)
    ensures r.Some? ==> i <= r.value && IsHeadEnd(s, r.value) && forall k :: i <= k < r.value ==> !IsHeadEnd(s, k)
    ensures r.None? ==> forall k :: i <= k ==> !IsHeadEnd(s, k)
    decreases |s| - i
  {
    if i + 4 > |s| then None else if IsHeadEnd(s, i) then Some(i) else HeadEnd(s, i + 1)
  }

  function Build(head: Head, body: Bytes): Request {
    var at := SplitOnce(head.target, MARK);
    var path := if at.Some? then at.value.0 else head.target;
    var query := if at.Some? then at.value.1 else [];
    Request(head.method', path, QueryOf(query), head.settings.authorized, body)
  }

  method BuildRequest(head: Head, body: Bytes) returns (r: Request)
    ensures r == Build(head, body)
  {
    var at := SplitOnce(head.target, MARK);
    var path, text := if at.Some? then at.value.0 else head.target, if at.Some? then at.value.1 else [];
    var query := ReadQuery(text);
    r := Request(head.method', path, query, head.settings.authorized, body);
  }

  /** The rest of the request, once its head is known to end at place `end`. */
  function WithHead(buf: Bytes, end: nat, head: Option<Head>): (o: Outcome<Request>)
    requires end + 4 <= |buf|
    ensures o.Got? ==> 0 < o.used <= |buf|
  {
    if head.None? then Incomplete
    else
      var total := end + 4 + head.value.settings.length;
      if total >= U64 then Crash
      else if |buf| < total then Incomplete
      else Got(Build(head.value, buf[end + 4..total]), head.value.settings.keepAlive, total)
  }

  function Parsed(buf: Bytes, secret: Bytes): (o: Outcome<Request>)
    ensures o.Got? ==> 0 < o.used <= |buf|
  {
    var end := HeadEnd(buf, 0);
    if end.None? then Incomplete else WithHead(buf, end.value, HeadOf(buf[..end.value], secret))
  }

  method ReadHead(text: Bytes, secret: Bytes) returns (r: Option<Head>)
    ensures r == HeadOf(text, secret)
  {
    if !Utf8(text) {
      return None;
    }
    var lines := Lines(text);
    var m := NextWord(lines[0]);
    var t := NextWord(m.1);
    var v := NextWord(t.1);
    if m.0 == [] || t.0 == [] {
      return None;
    }
    var settings := ReadLines(Settings(0, secret == [], v.0 != HTTP_1_0), lines[1..], secret);
    return Some(Head(m.0, t.0, settings));
  }

  method Parse(buf: Bytes, secret: Bytes) returns (o: Outcome<Request>)
    ensures o == Parsed(buf, secret)
  {
    var end := FindHeadEnd(buf);
    if end.None? {
      return Incomplete;
    }
    var head := ReadHead(buf[..end.value], secret);
    if head.None? {
      return Incomplete;
    }
    var total := end.value + 4 + head.value.settings.length;
    if total >= U64 {
      return Crash;
    }
    if |buf| < total {
      return Incomplete;
    }
    var r := BuildRequest(head.value, buf[end.value + 4..total]);
    o := Got(r, head.value.settings.keepAlive, total);
  }

  method FindHeadEnd(buf: Bytes) returns (r: Option<nat>)
    ensures r == HeadEnd(buf, 0)
  {
    var i := 0;
    while i + 4 <= |buf|
      invariant HeadEnd(buf, 0) == HeadEnd(buf, i)
    {
      if IsHeadEnd(buf, i) {
        return Some(i);
      }
      i := i + 1;
    }
    return None;
  }

  method ReadLines(start: Settings, lines: seq<Bytes>, secret: Bytes) returns (s: Settings)
    ensures s == AfterLines(start, lines, secret)
  {
    s := start;
    for k := 0 to |lines|
      invariant AfterLines(s, lines[k..], secret) == AfterLines(start, lines, secret)
    {
      s := AfterLine(s, lines[k], secret);
    }
  }

  // ----- pieces

  lemma HeadEndStays(buf: Bytes, more: Bytes)
    requires HeadEnd(buf, 0).Some?
    ensures HeadEnd(buf + more, 0) == HeadEnd(buf, 0)
  {
    var end := HeadEnd(buf, 0).value;
    assert IsHeadEnd(buf + more, end);
    var far := HeadEnd(buf + more, 0);
    assert forall k :: 0 <= k < end ==> !IsHeadEnd(buf, k);
    assert far.Some? && far.value <= end;
    assert IsHeadEnd(buf, far.value);
  }

  lemma WithHeadStable(buf: Bytes, more: Bytes, end: nat, head: Option<Head>)
    requires end + 4 <= |buf|
    ensures
      var o, far := WithHead(buf, end, head), WithHead(buf + more, end, head);
      && (!o.Incomplete? ==> far == o)
      && (far.Got? && far.used <= |buf| ==> far == o)
  {
    if head.Some? {
      var total := end + 4 + head.value.settings.length;
      if total <= |buf| {
        assert (buf + more)[end + 4..total] == buf[end + 4..total];
      }
    }
  }

  /** What has been read of a request is not changed by what follows it. */
  lemma ParseStable(buf: Bytes, more: Bytes, secret: Bytes)
    requires !Parsed(buf, secret).Incomplete?
    ensures Parsed(buf + more, secret) == Parsed(buf, secret)
  {
    HeadEndStays(buf, more);
    var end := HeadEnd(buf, 0).value;
    assert (buf + more)[..end] == buf[..end];
    WithHeadStable(buf, more, end, HeadOf(buf[..end], secret));
  }

  /** A request is read from as many bytes as it takes. */
  lemma ParseNeeds(buf: Bytes, more: Bytes, secret: Bytes)
    requires Parsed(buf + more, secret).Got? && Parsed(buf + more, secret).used <= |buf|
    ensures Parsed(buf, secret) == Parsed(buf + more, secret)
  {
    var end := HeadEnd(buf + more, 0).value;
    UsedBeyondHead(buf + more, secret);
    assert IsHeadEnd(buf, end);
    HeadEndStays(buf, more);
    assert (buf + more)[..end] == buf[..end];
    WithHeadStable(buf, more, end, HeadOf(buf[..end], secret));
  }

  lemma UsedBeyondHead(buf: Bytes, secret: Bytes)
    requires Parsed(buf, secret).Got?
    ensures HeadEnd(buf, 0).value + 4 <= Parsed(buf, secret).used
  {}

  function Parser(secret: Bytes): Bytes -> Outcome<Request> {
    (buf: Bytes) => Parsed(buf, secret)
  }

  lemma ParsedIsStable(secret: Bytes)
    ensures Stable(Parser(secret))
  {
    var parse := Parser(secret);
    forall buf, more | !parse(buf).Incomplete?
      ensures parse(buf + more) == parse(buf)
    {
      ParseStable(buf, more, secret);
    }
    forall buf, more | parse(buf + more).Got? && parse(buf + more).used <= |buf|
      ensures parse(buf) == parse(buf + more)
    {
      ParseNeeds(buf, more, secret);
    }
  }

  /** `session`: however the bytes come in, the same requests are answered, in order, if none
      of them is too long; otherwise no others.  It crashes only where the stream holds a request
      whose length is too much for a machine word. */
  method Session(stream: Stream, secret: Bytes) returns (requests: seq<Request>, crashed: bool)
    modifies stream
    ensures
      var parse, all := Parser(secret), Arriving(old(stream.chunks));
      && Stable(parse) && requests <= Requests(parse, all)
      && (AllFit(parse, all) ==> requests == Requests(parse, all))
      && (crashed ==> Crashes(parse, all) && requests == Requests(parse, all))
      && (AllFit(parse, all) && CrashFits(parse, all) ==> crashed)
  {
    ParsedIsStable(secret);
    requests, crashed := Serve(stream, Parser(secret));
  }
}
