/** Requests as a client writes them, and what becomes of them. */
module ClashRequests {
  import opened Common
  import opened Words
  import opened ClashQuery
  import opened Framing
  import opened Sessions
  import opened ClashApi

  // ----- numbers

  function Decimal(v: nat): (d: Bytes)
    ensures d != []
  {
    if v < 10 then [48 + v] else Decimal(v / 10) + [48 + v % 10]
  }

  lemma {:induction false} DecimalIsPlain(v: nat)
    ensures forall b :: b in Decimal(v) ==> IsDigit(b)
  {
    if v >= 10 {
      DecimalIsPlain(v / 10);
    }
  }

  lemma {:induction false} OneMoreDigit(s: Bytes, v: nat, d: byte)
    requires IsDigit(d) && DigitsFrom(s, v).Some?
    ensures DigitsFrom(s + [d], v) ==
      var w := 10 * DigitsFrom(s, v).value + (d - 48);
      if w < U64 then Some(w) else None
    decreases |s|
  {
    if s == [] {
      assert (s + [d])[1..] == [];
    } else {
      assert (s + [d])[1..] == s[1..] + [d];
      OneMoreDigit(s[1..], 10 * v + (s[0] - 48), d);
    }
  }

  /** A number is read as it was written. */
  lemma {:induction false} DecimalRoundTrip(v: nat)
    requires v < U64
    ensures DigitsFrom(Decimal(v), 0) == Some(v)
  {
    if v < 10 {
      assert Decimal(v)[1..] == [];
    } else {
      DecimalRoundTrip(v / 10);
      OneMoreDigit(Decimal(v / 10), 0, 48 + v % 10);
    }
  }

  lemma NumberRoundTrip(v: nat)
    requires v < U64
    ensures Number(Decimal(v)) == Some(v)
  {
    DecimalRoundTrip(v);
    DecimalIsPlain(v);
    assert Decimal(v)[0] in Decimal(v);
  }

  /** What a row of digits stands for. */
  function ValueOf(digits: Bytes): int {
    if digits == [] then 0 else 10 * ValueOf(digits[..|digits| - 1]) + (digits[|digits| - 1] as int - 48)
  }

  ghost predicate Digits(s: Bytes) {
    forall b :: b in s ==> 48 <= b <= 57
  }

  lemma {:induction false} NoMoreDigit(s: Bytes, v: nat, d: byte)
    requires DigitsFrom(s, v).None? || !IsDigit(d)
    ensures DigitsFrom(s + [d], v).None?
    decreases |s|
  {
    if s == [] {
      assert (s + [d])[0] == d;
    } else {
      assert (s + [d])[1..] == s[1..] + [d];
      if IsDigit(s[0]) && 10 * v + (s[0] - 48) < U64 {
        NoMoreDigit(s[1..], 10 * v + (s[0] - 48), d);
      }
    }
  }

  lemma {:induction false} DigitsRead(s: Bytes)
    ensures Digits(s) ==> ValueOf(s) >= 0
    ensures DigitsFrom(s, 0) == if Digits(s) && ValueOf(s) < U64 then Some(ValueOf(s)) else None
  {
    if s != [] {
      var n := |s| - 1;
      var front, d := s[..n], s[n];
      assert s == front + [d];
      DigitsRead(front);
      assert forall b :: b in front ==> b in s;
      assert d in s && forall b :: b in s ==> b in front || b == d;
      if DigitsFrom(front, 0).Some? && IsDigit(d) {
        OneMoreDigit(front, 0, d);
      } else {
        NoMoreDigit(front, 0, d);
      }
    }
  }

  /** A number is a plus sign if any and digits, at least one, of a value that fits a word. */
  lemma NumberIs(s: Bytes, v: nat)
    ensures Number(s) == Some(v) <==>
      v < 0x1_0000_0000_0000_0000
      && exists digits :: digits != [] && Digits(digits) && ValueOf(digits) == v && (s == digits || s == [43] + digits)
  {
    var digits := if s != [] && s[0] == PLUS then s[1..] else s;
    DigitsRead(digits);
    assert s == digits || s == [43] + digits;
    if d :| d != [] && Digits(d) && ValueOf(d) == v && (s == d || s == [43] + d) {
      assert s == [43] + d ==> s[1..] == d;
      assert d[0] in d;
      assert d == digits;
    }
  }

  // ----- text

  /** A text as bytes, one for each character. */
  function Ascii(s: string): (b: Bytes)
    ensures |b| == |s| && forall i :: 0 <= i < |s| && s[i] < 256 as char ==> b[i] == s[i] as int
  {
    seq(|s|, i requires 0 <= i < |s| => s[i] as int % 256)
  }

  lemma Constants()
    ensures CONTENT_LENGTH == Ascii("content-length") && AUTHORIZATION == Ascii("authorization")
    ensures CONNECTION == Ascii("connection") && CLOSE == Ascii("close")
    ensures BEARER == Ascii("Bearer ") && HTTP_1_0 == Ascii("HTTP/1.0")
  {}

  /** The same but for upper and lower case. */
  ghost predicate SameText(a: Bytes, b: Bytes) {
    |a| == |b| && forall i :: 0 <= i < |a| ==> Lower(a[i]) == Lower(b[i])
  }

  ghost predicate Blanks(s: Bytes) {
    forall b :: b in s ==> White(b)
  }

  ghost predicate White(b: byte) {
    b == 32 || 9 <= b <= 13
  }

  /** `t` is `s` without the blanks around it. */
  ghost predicate TrimmedTo(s: Bytes, t: Bytes) {
    exists lead, trail :: TrimmedBy(s, t, lead, trail)
  }

  ghost predicate TrimmedBy(s: Bytes, t: Bytes, lead: Bytes, trail: Bytes) {
    && Blanks(lead) && Blanks(trail) && s == lead + t + trail
    && (t != [] ==> !White(t[0]) && !White(t[|t| - 1]))
  }

  lemma {:induction false} StartBlanks(s: Bytes) returns (lead: Bytes)
    ensures Blanks(lead) && s == lead + TrimStart(s)
  {
    if s != [] && Blank(s[0]) {
      var first, rest := s[0], s[1..];
      var more := StartBlanks(rest);
      lead := [first] + more;
      BlanksGrow(more, first);
      assert s == [first] + rest && TrimStart(s) == TrimStart(rest);
      Reassociate([first], more, TrimStart(rest));
    } else {
      lead := [];
    }
  }

  lemma BlanksGrow(s: Bytes, b: byte)
    requires Blanks(s) && White(b)
    ensures Blanks(s + [b]) && Blanks([b] + s)
  {}

  lemma {:induction false} EndBlanks(s: Bytes) returns (trail: Bytes)
    ensures Blanks(trail) && s == TrimEnd(s) + trail
    ensures TrimEnd(s) != [] ==> !Blank(TrimEnd(s)[|TrimEnd(s)| - 1])
  {
    if s != [] && Blank(s[|s| - 1]) {
      var front, last := s[..|s| - 1], s[|s| - 1];
      var more := EndBlanks(front);
      trail := more + [last];
      BlanksGrow(more, last);
      assert s == front + [last] && TrimEnd(s) == TrimEnd(front);
      Reassociate(TrimEnd(front), more, [last]);
    } else {
      trail := [];
    }
  }

  lemma {:induction false} StartSkips(lead: Bytes, t: Bytes)
    requires Blanks(lead) && (t != [] ==> !Blank(t[0]))
    ensures TrimStart(lead + t) == t
  {
    if lead == [] {
      assert lead + t == t;
    } else {
      assert lead[0] in lead && forall b :: b in lead[1..] ==> b in lead;
      assert (lead + t)[1..] == lead[1..] + t;
      StartSkips(lead[1..], t);
    }
  }

  lemma {:induction false} EndSkips(t: Bytes, trail: Bytes)
    requires Blanks(trail) && (t != [] ==> !Blank(t[|t| - 1]))
    ensures TrimEnd(t + trail) == t
  {
    if trail == [] {
      assert t + trail == t;
    } else {
      var n := |trail| - 1;
      assert trail[n] in trail && forall b :: b in trail[..n] ==> b in trail;
      assert (t + trail)[..|t| + n] == t + trail[..n];
      EndSkips(t, trail[..n]);
    }
  }

  lemma {:induction false} AllBlank(s: Bytes)
    requires Blanks(s)
    ensures TrimStart(s) == []
  {
    StartSkips(s, []);
    assert s + [] == s;
  }

  /** `trim` takes away exactly the blanks around. */
  lemma TrimIs(s: Bytes, t: Bytes)
    ensures Trim(s) == t <==> TrimmedTo(s, t)
  {
    var lead := StartBlanks(s);
    var trail := EndBlanks(TrimStart(s));
    assert s == lead + Trim(s) + trail;
    if Trim(s) != [] {
      assert TrimStart(s)[0] == Trim(s)[0];
    }
    assert TrimmedBy(s, Trim(s), lead, trail);
    if TrimmedTo(s, t) {
      var lead', trail' :| TrimmedBy(s, t, lead', trail');
      TrimUnique(t, lead', trail');
    }
  }

  lemma TrimUnique(t: Bytes, lead: Bytes, trail: Bytes)
    requires TrimmedBy(lead + t + trail, t, lead, trail)
    ensures Trim(lead + t + trail) == t
  {
    if t == [] {
      assert lead + t + trail == lead + trail;
      AllBlank(lead + trail);
    } else {
      assert lead + t + trail == lead + (t + trail) && (t + trail)[0] == t[0];
      StartSkips(lead, t + trail);
      EndSkips(t, trail);
    }
  }

  // ----- a request with any headers

  /** A word of visible ASCII characters. */
  ghost predicate IsWord(s: Bytes) {
    s != [] && forall b :: b in s ==> 33 <= b < 127
  }

  datatype Header = Header(name: Bytes, value: Bytes)
  {
    ghost predicate Valid() {
      ':' as byte !in name && '\r' as byte !in name && '\r' as byte !in value
    }

    function Line(): Bytes {
      name + [':' as byte] + value
    }
  }

  /** The head of a request: method, target, perhaps a version, and headers. */
  datatype Sent = Sent(method': Bytes, target: Bytes, version: Option<Bytes>, headers: seq<Header>)
  {
    ghost predicate Valid() {
      && IsWord(method') && IsWord(target) && (version.Some? ==> IsWord(version.value))
      && (forall k :: 0 <= k < |headers| ==> headers[k].Valid())
      && Utf8(Text())
    }

    function First(): Bytes {
      method' + [' ' as byte] + target + if version.Some? then [' ' as byte] + version.value else []
    }

    function Text(): Bytes {
      First() + HeaderLines(headers)
    }

    /** With the blank line. */
    function Opening(): Bytes {
      Text() + HEAD_END
    }
  }

  const HEAD_END: Bytes := ['\r' as byte, '\n' as byte, '\r' as byte, '\n' as byte]

  function HeaderLines(headers: seq<Header>): Bytes {
    if headers == [] then [] else ['\r' as byte, '\n' as byte] + headers[0].Line() + HeaderLines(headers[1..])
  }

  function LinesOf(headers: seq<Header>): (r: seq<Bytes>)
    ensures |r| == |headers| && forall k :: 0 <= k < |r| ==> r[k] == headers[k].Line()
  {
    seq(|headers|, k requires 0 <= k < |headers| => headers[k].Line())
  }

  // ----- what the headers settle

  /** Header `k` is the last of that name, in any letter case. */
  ghost predicate IsLast(headers: seq<Header>, name: Bytes, k: nat) {
    && k < |headers| && SameText(headers[k].name, name)
    && forall j :: k < j < |headers| ==> !SameText(headers[j].name, name)
  }

  ghost predicate Absent(headers: seq<Header>, name: Bytes) {
    forall k :: 0 <= k < |headers| ==> !SameText(headers[k].name, name)
  }

  /** "Bearer " and the secret, with blanks around the one and the other. */
  ghost predicate Bears(value: Bytes, secret: Bytes) {
    exists text :: TrimmedTo(value, text) && Ascii("Bearer ") <= text && TrimmedTo(text[7..], secret)
  }

  ghost predicate SaysClose(value: Bytes) {
    exists text :: TrimmedTo(value, text) && SameText(text, Ascii("close"))
  }

  /** A number that fits a machine word, with blanks around it; anything else counts as zero. */
  ghost predicate Announces(value: Bytes, length: nat) {
    exists text :: TrimmedTo(value, text) && length == if Number(text).Some? then Number(text).value else 0
  }

  ghost function Bearing(secret: Bytes): (Bytes, bool) -> bool {
    (value, on) => on <==> secret == [] || Bears(value, secret)
  }

  ghost function Keeping(): (Bytes, bool) -> bool {
    (value, on) => on <==> !SaysClose(value)
  }

  ghost function Announcing(): (Bytes, nat) -> bool {
    (value, length: nat) => Announces(value, length)
  }

  /** The last header of a name tells what `v` is; without one it is what it was at the start. */
  ghost predicate Told<T>(v: T, start: T, headers: seq<Header>, name: Bytes, says: (Bytes, T) -> bool) {
    && (Absent(headers, name) ==> v == start)
    && (forall k: nat :: IsLast(headers, name, k) ==> says(headers[k].value, v))
  }

  /** Authorized exactly with an empty secret or if the last such header bears it; kept exactly
      if the last such header does not say close; as long as the last such header says. */
  ghost predicate SettledBy(s: Settings, start: Settings, headers: seq<Header>, secret: Bytes) {
    && Told(s.authorized, start.authorized, headers, Ascii("authorization"), Bearing(secret))
    && Told(s.keepAlive, start.keepAlive, headers, Ascii("connection"), Keeping())
    && Told(s.length, start.length, headers, Ascii("content-length"), Announcing())
  }

  ghost predicate LineTold<T>(v: T, start: T, h: Header, name: Bytes, says: (Bytes, T) -> bool) {
    if SameText(h.name, name) then says(h.value, v) else v == start
  }

  lemma LowerIsSame(name: Bytes, known: Bytes)
    requires forall i :: 0 <= i < |known| ==> Lower(known[i]) == known[i]
    ensures LowerAll(name) == known <==> SameText(name, known)
  {}

  /** One header line, told by its text. */
  lemma LineSettles(s: Settings, r: Settings, h: Header, secret: Bytes)
    requires h.Valid() && r == AfterLine(s, h.Line(), secret)
    ensures LineTold(r.authorized, s.authorized, h, Ascii("authorization"), Bearing(secret))
    ensures LineTold(r.keepAlive, s.keepAlive, h, Ascii("connection"), Keeping())
    ensures LineTold(r.length, s.length, h, Ascii("content-length"), Announcing())
  {
    Constants();
    LineIs(s, h, secret);
    LowerIsSame(h.name, AUTHORIZATION);
    LowerIsSame(h.name, CONNECTION);
    LowerIsSame(h.name, CONTENT_LENGTH);
    var text := Trim(h.value);
    TrimIs(h.value, text);
    TokenIs(h.value, text, secret);
    CloseIs(h.value, text);
    assert Announces(h.value, if Number(text).Some? then Number(text).value else 0);
  }

  lemma LineIs(s: Settings, h: Header, secret: Bytes)
    requires h.Valid()
    ensures
      var r, name, text := AfterLine(s, h.Line(), secret), LowerAll(h.name), Trim(h.value);
      && r.authorized == (if name == AUTHORIZATION then (BEARER <= text && Trim(text[7..]) == secret) || secret == []
                          else s.authorized)
      && r.keepAlive == (if name == CONNECTION then LowerAll(text) != CLOSE else s.keepAlive)
      && r.length == (if name != CONTENT_LENGTH then s.length
                      else if Number(text).Some? then Number(text).value else 0)
  {
    FirstMark(h.name, COLON, h.value);
  }

  lemma TokenIs(value: Bytes, text: Bytes, secret: Bytes)
    requires text == Trim(value)
    ensures BEARER <= text && Trim(text[|BEARER|..]) == secret <==> Bears(value, secret)
  {
    Constants();
    if BEARER <= text && Trim(text[|BEARER|..]) == secret {
      TrimIs(value, text);
      TrimIs(text[7..], secret);
    }
    if t :| TrimmedTo(value, t) && Ascii("Bearer ") <= t && TrimmedTo(t[7..], secret) {
      TrimIs(value, t);
      TrimIs(t[7..], secret);
    }
  }

  lemma CloseIs(value: Bytes, text: Bytes)
    requires text == Trim(value)
    ensures LowerAll(text) == CLOSE <==> SaysClose(value)
  {
    Constants();
    LowerIsSame(text, CLOSE);
    TrimIs(value, text);
    if t :| TrimmedTo(value, t) && SameText(t, Ascii("close")) {
      TrimIs(value, t);
    }
  }

  lemma AfterOne(s: Settings, h: Header, rest: seq<Header>, secret: Bytes)
    ensures AfterLines(s, LinesOf([h] + rest), secret)
      == AfterLines(AfterLine(s, h.Line(), secret), LinesOf(rest), secret)
  {
    assert LinesOf([h] + rest)[1..] == LinesOf(rest);
  }

  lemma {:induction false} HeadersSettle(start: Settings, headers: seq<Header>, secret: Bytes, s: Settings)
    requires forall k :: 0 <= k < |headers| ==> headers[k].Valid()
    requires s == AfterLines(start, LinesOf(headers), secret)
    ensures SettledBy(s, start, headers, secret)
    decreases |headers|
  {
    if headers != [] {
      var h, rest := headers[0], headers[1..];
      var next := AfterLine(start, h.Line(), secret);
      assert headers == [h] + rest;
      AfterOne(start, h, rest, secret);
      HeadersSettle(next, rest, secret, s);
      OneMoreLine(s, start, next, h, rest, secret);
    }
  }

  lemma OneMoreLine(s: Settings, start: Settings, next: Settings, h: Header, rest: seq<Header>, secret: Bytes)
    requires h.Valid() && next == AfterLine(start, h.Line(), secret) && SettledBy(s, next, rest, secret)
    ensures SettledBy(s, start, [h] + rest, secret)
  {
    LineSettles(start, next, h, secret);
    OneMoreHeader(s.authorized, start.authorized, next.authorized, h, rest, Ascii("authorization"), Bearing(secret));
    OneMoreHeader(s.keepAlive, start.keepAlive, next.keepAlive, h, rest, Ascii("connection"), Keeping());
    OneMoreHeader(s.length, start.length, next.length, h, rest, Ascii("content-length"), Announcing());
  }

  lemma FirstOrLater(h: Header, rest: seq<Header>, name: Bytes)
    ensures Absent([h] + rest, name) <==> Absent(rest, name) && !SameText(h.name, name)
    ensures forall k: nat :: IsLast([h] + rest, name, k + 1) <==> IsLast(rest, name, k)
    ensures IsLast([h] + rest, name, 0) <==> Absent(rest, name) && SameText(h.name, name)
  {
    var all := [h] + rest;
    assert all[0] == h && forall k :: 0 <= k < |rest| ==> all[k + 1] == rest[k];
    forall k: nat
      ensures IsLast(all, name, k + 1) <==> IsLast(rest, name, k)
    {
      LaterIsLast(h, rest, name, k);
    }
    if Absent(all, name) {
      forall k | 0 <= k < |rest|
        ensures !SameText(rest[k].name, name)
      {
        assert !SameText(all[k + 1].name, name);
      }
    }
    if IsLast(all, name, 0) {
      forall k | 0 <= k < |rest|
        ensures !SameText(rest[k].name, name)
      {
        assert !SameText(all[k + 1].name, name);
      }
    }
  }

  lemma LaterIsLast(h: Header, rest: seq<Header>, name: Bytes, k: nat)
    ensures IsLast([h] + rest, name, k + 1) <==> IsLast(rest, name, k)
  {
    var all := [h] + rest;
    assert forall j :: 0 <= j < |rest| ==> all[j + 1] == rest[j];
    if IsLast(all, name, k + 1) {
      forall j | k < j < |rest|
        ensures !SameText(rest[j].name, name)
      {
        assert !SameText(all[j + 1].name, name);
      }
    }
  }

  /** What one more header in front changes. */
  lemma OneMoreHeader<T>(
      v: T, start: T, next: T, h: Header, rest: seq<Header>, name: Bytes, says: (Bytes, T) -> bool)
    requires Told(v, next, rest, name, says) && LineTold(next, start, h, name, says)
    ensures Told(v, start, [h] + rest, name, says)
  {
    var all := [h] + rest;
    FirstOrLater(h, rest, name);
    forall k: nat | IsLast(all, name, k)
      ensures says(all[k].value, v)
    {
      if k > 0 {
        assert IsLast(all, name, (k - 1) + 1) && IsLast(rest, name, k - 1);
      }
    }
  }

  // ----- the head

  lemma {:induction false} AsciiIsUtf8(s: Bytes)
    requires forall b :: b in s ==> b < 128
    ensures Utf8(s)
  {
    if s != [] {
      assert s[0] in s && forall b :: b in s[1..] ==> b in s;
      assert CharSize(s) == 1;
      AsciiIsUtf8(s[1..]);
    }
  }

  lemma {:induction false} LineEndNone(s: Bytes, i: nat)
    requires i <= |s| && CR !in s[i..]
    ensures LineEnd(s, i) == |s|
    decreases |s| - i
  {
    if i < |s| {
      assert s[i..][0] == s[i] && s[i..][1..] == s[i + 1..];
      LineEndNone(s, i + 1);
    }
  }

  lemma {:induction false} LineEndFirst(a: Bytes, b: Bytes, i: nat)
    requires i <= |a| && CR !in a
    ensures LineEnd(a + [CR, LF] + b, i) == |a|
    decreases |a| - i
  {
    var s := a + [CR, LF] + b;
    if i < |a| {
      assert s[i] == a[i] && a[i] in a;
      LineEndFirst(a, b, i + 1);
    } else {
      assert IsLineEnd(s, i);
    }
  }

  /** The first line, and then the headers. */
  lemma {:induction false} LinesRead(first: Bytes, headers: seq<Header>)
    requires CR !in first && forall k :: 0 <= k < |headers| ==> headers[k].Valid()
    ensures Lines(first + HeaderLines(headers)) == [first] + LinesOf(headers)
    decreases |headers|
  {
    if headers == [] {
      assert first + HeaderLines(headers) == first && first[0..] == first;
      LineEndNone(first, 0);
    } else {
      var h, rest := headers[0], HeaderLines(headers[1..]);
      assert first + HeaderLines(headers) == first + [CR, LF] + (h.Line() + rest);
      LineEndFirst(first, h.Line() + rest, 0);
      var s := first + [CR, LF] + (h.Line() + rest);
      assert s[..|first|] == first && s[|first| + 2..] == h.Line() + rest;
      LinesRead(h.Line(), headers[1..]);
      assert [h.Line()] + LinesOf(headers[1..]) == LinesOf(headers);
    }
  }

  lemma {:induction false} WordEnds(w: Bytes, rest: Bytes)
    requires IsWord(w) && (rest == [] || Blank(rest[0]))
    ensures WordLength(w + rest) == |w|
  {
    assert w[0] in w;
    if |w| == 1 {
      assert (w + rest)[1..] == rest;
    } else {
      assert (w + rest)[1..] == w[1..] + rest && forall b :: b in w[1..] ==> b in w;
      WordEnds(w[1..], rest);
    }
  }

  lemma WordTaken(w: Bytes, rest: Bytes)
    requires IsWord(w) && (rest == [] || Blank(rest[0]))
    ensures NextWord(w + rest) == (w, rest)
  {
    assert w[0] in w;
    WordEnds(w, rest);
    assert (w + rest)[..|w|] == w && (w + rest)[|w|..] == rest;
  }

  /** A word behind a blank. */
  lemma NextTaken(w: Bytes, rest: Bytes)
    requires IsWord(w) && (rest == [] || Blank(rest[0]))
    ensures NextWord([SPACE] + (w + rest)) == (w, rest)
  {
    assert ([SPACE] + (w + rest))[1..] == w + rest && w[0] in w && (w + rest)[0] == w[0];
    WordTaken(w, rest);
  }

  /** The words of the first line. */
  lemma FirstLine(r: Sent)
    requires r.Valid()
    ensures
      var a := NextWord(r.First());
      var b := NextWord(a.1);
      a.0 == r.method' && b.0 == r.target && NextWord(b.1).0 == if r.version.Some? then r.version.value else []
  {
    var tail := if r.version.Some? then [SPACE] + (r.version.value + []) else [];
    assert r.version.Some? ==> r.version.value + [] == r.version.value;
    assert r.First() == r.method' + ([SPACE] + (r.target + tail));
    WordTaken(r.method', [SPACE] + (r.target + tail));
    NextTaken(r.target, tail);
    if r.version.Some? {
      NextTaken(r.version.value, []);
    }
  }

  /** What is settled before the headers. */
  function Start(r: Sent, secret: Bytes): Settings {
    Settings(0, secret == [], r.version != Some(Ascii("HTTP/1.0")))
  }

  function SettingsOf(r: Sent, secret: Bytes): Settings {
    AfterLines(Start(r, secret), LinesOf(r.headers), secret)
  }

  lemma HeadRead(r: Sent, secret: Bytes)
    requires r.Valid()
    ensures HeadOf(r.Text(), secret) == Some(Head(r.method', r.target, SettingsOf(r, secret)))
  {
    Constants();
    FirstIsPlain(r);
    LinesRead(r.First(), r.headers);
    FirstLine(r);
    var lines := [r.First()] + LinesOf(r.headers);
    assert lines[1..] == LinesOf(r.headers);
    assert (if r.version.Some? then r.version.value else []) != HTTP_1_0 <==> Start(r, secret).keepAlive;
  }

  lemma FirstIsPlain(r: Sent)
    requires r.Valid()
    ensures CR !in r.First() && r.First() != [] && r.First()[|r.First()| - 1] != CR
  {
    assert r.version.Some? ==> CR !in r.version.value;
  }

  // ----- the request

  /** The end of a head stands nowhere in the head. */
  lemma {:induction false} NoEndBefore(first: Bytes, headers: seq<Header>, rest: Bytes, k: nat)
    requires CR !in first && first != [] && forall j :: 0 <= j < |headers| ==> headers[j].Valid()
    requires k < |first| + |HeaderLines(headers)|
    ensures !IsHeadEnd(first + (HeaderLines(headers) + (HEAD_END + rest)), k)
    decreases |headers|
  {
    var more := HeaderLines(headers) + (HEAD_END + rest);
    var s := first + more;
    if k < |first| {
      assert s[k] == first[k];
    } else {
      var h, later := headers[0], HeaderLines(headers[1..]) + (HEAD_END + rest);
      assert more == [CR, LF] + (h.Line() + later);
      if k == |first| {
        assert s[k + 2] == h.Line()[0] != CR;
      } else if k == |first| + 1 {
        assert s[k] == LF;
      } else {
        NoEndBefore(h.Line(), headers[1..], rest, k - |first| - 2);
        SameEnd(first + [CR, LF], h.Line() + later, k - |first| - 2);
        assert first + [CR, LF] + (h.Line() + later) == s;
      }
    }
  }

  lemma SameEnd(a: Bytes, b: Bytes, k: nat)
    ensures IsHeadEnd(a + b, |a| + k) <==> IsHeadEnd(b, k)
  {}

  lemma {:induction false} EndFound(s: Bytes, i: nat, end: nat)
    requires i <= end && IsHeadEnd(s, end) && forall k :: i <= k < end ==> !IsHeadEnd(s, k)
    ensures HeadEnd(s, i) == Some(end)
    decreases end - i
  {
    if i < end {
      EndFound(s, i + 1, end);
    }
  }

  lemma OpeningRead(r: Sent, rest: Bytes)
    requires r.Valid()
    ensures HeadEnd(r.Opening() + rest, 0) == Some(|r.Text()|)
    ensures (r.Opening() + rest)[..|r.Text()|] == r.Text() && (r.Opening() + rest)[|r.Text()| + 4..] == rest
  {
    var s, end := r.Opening() + rest, |r.Text()|;
    FirstIsPlain(r);
    assert s == r.First() + (HeaderLines(r.headers) + (HEAD_END + rest));
    forall k | 0 <= k < end
      ensures !IsHeadEnd(s, k)
    {
      NoEndBefore(r.First(), r.headers, rest, k);
    }
    EndStands(r.Text(), rest);
    EndFound(s, 0, end);
  }

  lemma EndStands(text: Bytes, rest: Bytes)
    ensures IsHeadEnd(text + HEAD_END + rest, |text|)
  {
    assert (text + HEAD_END + rest)[|text|..|text| + 4] == HEAD_END;
    assert forall k :: 0 <= k < 4 ==> (text + HEAD_END + rest)[|text| + k] == HEAD_END[k];
  }

  /** What becomes of a request with any headers: method and target are those sent, the rest is
      settled by the headers; it crashes the session exactly if its head and the length announced
      are more than a machine word counts; else it is complete once as many bytes came. */
  lemma RequestRead(r: Sent, rest: Bytes, secret: Bytes)
    requires r.Valid()
    ensures
      var n, s := |r.Opening()|, SettingsOf(r, secret);
      && SettledBy(s, Start(r, secret), r.headers, secret)
      && Parsed(r.Opening() + rest, secret) ==
        if n + s.length >= U64 then Crash
        else if |rest| < s.length then Incomplete
        else Got(Build(Head(r.method', r.target, s), rest[..s.length]), s.keepAlive, n + s.length)
  {
    OpeningRead(r, rest);
    HeadRead(r, secret);
    HeadersSettle(Start(r, secret), r.headers, secret, SettingsOf(r, secret));
    ParsedWith(r.Opening() + rest, |r.Text()|, secret, Head(r.method', r.target, SettingsOf(r, secret)), rest);
  }

  lemma ParsedWith(s: Bytes, end: nat, secret: Bytes, head: Head, rest: Bytes)
    requires HeadEnd(s, 0) == Some(end) && HeadOf(s[..end], secret) == Some(head) && s[end + 4..] == rest
    ensures
      var v := head.settings.length;
      Parsed(s, secret) ==
        if end + 4 + v >= U64 then Crash
        else if |rest| < v then Incomplete
        else Got(Build(head, rest[..v]), head.settings.keepAlive, end + 4 + v)
  {
    var v := head.settings.length;
    if |rest| >= v {
      assert s[end + 4..end + 4 + v] == s[end + 4..][..v];
    }
  }

  /** The parts of a request: the path is the target up to a question mark, the query what is
      behind it. */
  lemma BuildIs(m: Bytes, path: Bytes, text: Bytes, s: Settings, body: Bytes)
    requires '?' as byte !in path
    ensures Build(Head(m, path + ['?' as byte] + text, s), body) == Request(m, path, QueryOf(text), s.authorized, body)
    ensures Build(Head(m, path, s), body) == Request(m, path, map[], s.authorized, body)
  {
    FirstMark(path, MARK, text);
    FirstMark([], AMPERSAND, []);
    OnePart(map[], []);
    assert QueryOf([]) == map[] by {
      FirstMark([], EQUALS, []);
    }
  }

  // ----- sessions

  /** What a client asks for. */
  datatype Ask = Ask(sent: Sent, body: Bytes)
  {
    /** Its headers announce the body that comes. */
    ghost predicate Valid(secret: Bytes) {
      && sent.Valid() && SettingsOf(sent, secret).length == |body|
      && |sent.Opening()| + |body| < U64
    }

    function Text(): Bytes {
      sent.Opening() + body
    }

    /** The request the session is to answer. */
    function Answered(secret: Bytes): Request {
      Build(Head(sent.method', sent.target, SettingsOf(sent, secret)), body)
    }

    function Keeps(secret: Bytes): bool {
      SettingsOf(sent, secret).keepAlive
    }
  }

  function Texts(asks: seq<Ask>): (r: seq<Bytes>)
    ensures |r| == |asks| && forall i :: 0 <= i < |asks| ==> r[i] == asks[i].Text()
  {
    seq(|asks|, i requires 0 <= i < |asks| => asks[i].Text())
  }

  function AllAnswered(asks: seq<Ask>, secret: Bytes): (r: seq<Request>)
    ensures |r| == |asks| && forall i :: 0 <= i < |asks| ==> r[i] == asks[i].Answered(secret)
  {
    seq(|asks|, i requires 0 <= i < |asks| => asks[i].Answered(secret))
  }

  lemma AskRead(a: Ask, rest: Bytes, secret: Bytes)
    requires a.Valid(secret)
    ensures Parsed(a.Text() + rest, secret) == Got(a.Answered(secret), a.Keeps(secret), |a.Text()|)
  {
    Reassociate(a.sent.Opening(), a.body, rest);
    RequestRead(a.sent, a.body + rest, secret);
    assert (a.body + rest)[..|a.body|] == a.body;
  }

  ghost predicate AllKept(asks: seq<Ask>, secret: Bytes) {
    forall i :: 0 <= i < |asks| ==> asks[i].Valid(secret) && asks[i].Keeps(secret)
  }

  /** The requests of a stream are those that were written into it, as long as none wants it
      closed, and then those of the rest; and it crashes the session where the rest does. */
  lemma AsksRead(asks: seq<Ask>, rest: Bytes, secret: Bytes)
    requires AllKept(asks, secret)
    ensures
      var stream := Concat(Texts(asks)) + rest;
      && Stable(Parser(secret))
      && Requests(Parser(secret), stream) == AllAnswered(asks, secret) + Requests(Parser(secret), rest)
      && Crashes(Parser(secret), stream) == Crashes(Parser(secret), rest)
  {
    ParsedIsStable(secret);
    forall i, more | 0 <= i < |asks|
      ensures GotAt(Parser(secret), Texts(asks)[i], more, AllAnswered(asks, secret)[i])
    {
      AskRead(asks[i], more, secret);
    }
    AllGot(Parser(secret), Texts(asks), AllAnswered(asks, secret), rest);
  }

  /** A request that wants the connection closed is the last one answered. */
  lemma CloseEndsSession(asks: seq<Ask>, last: Ask, rest: Bytes, secret: Bytes)
    requires AllKept(asks, secret) && last.Valid(secret) && !last.Keeps(secret)
    ensures
      var stream := Concat(Texts(asks)) + (last.Text() + rest);
      && Stable(Parser(secret))
      && Requests(Parser(secret), stream) == AllAnswered(asks, secret) + [last.Answered(secret)]
      && !Crashes(Parser(secret), stream)
  {
    AskRead(last, rest, secret);
    AsksRead(asks, last.Text() + rest, secret);
    ClosingOne(Parser(secret), last.Text() + rest, last.Answered(secret), |last.Text()|);
  }

  lemma ClosingOne(parse: Bytes -> Outcome<Request>, s: Bytes, r: Request, n: nat)
    requires Stable(parse) && parse(s) == Got(r, false, n)
    ensures Requests(parse, s) == [r] && !Crashes(parse, s)
  {}

  /** A request that announces too much crashes the session; what was asked before it has been
      answered, and nothing behind it is. */
  lemma CrashEndsSession(asks: seq<Ask>, r: Sent, rest: Bytes, secret: Bytes)
    requires AllKept(asks, secret) && r.Valid() && |r.Opening()| + SettingsOf(r, secret).length >= U64
    ensures
      var stream := Concat(Texts(asks)) + (r.Opening() + rest);
      && Stable(Parser(secret)) && Requests(Parser(secret), stream) == AllAnswered(asks, secret)
      && Crashes(Parser(secret), stream)
  {
    RequestRead(r, rest, secret);
    AsksRead(asks, r.Opening() + rest, secret);
  }

  /** A header that announces `v` bytes. */
  function LengthHeader(v: nat): Header {
    Header(Ascii("Content-Length"), [SPACE] + Decimal(v))
  }

  lemma LengthAnnounced(v: nat, length: nat)
    requires v < U64
    ensures Announces(LengthHeader(v).value, length) <==> length == v
  {
    var text, value := Decimal(v), LengthHeader(v).value;
    DecimalIsPlain(v);
    NumberRoundTrip(v);
    assert text[0] in text && text[|text| - 1] in text;
    assert value == [SPACE] + text + [];
    assert TrimmedBy(value, text, [SPACE], []);
    if t :| TrimmedTo(value, t) && length == if Number(t).Some? then Number(t).value else 0 {
      TrimIs(value, t);
      TrimIs(value, text);
    }
  }

  /** The one header there is tells the length. */
  lemma OneHeader(s: Settings, start: Settings, h: Header, secret: Bytes, v: nat)
    requires SettledBy(s, start, [h], secret) && SameText(h.name, Ascii("content-length"))
    requires v < U64 && h.value == LengthHeader(v).value
    ensures s.length == v
  {
    assert IsLast([h], Ascii("content-length"), 0);
    LengthAnnounced(v, s.length);
  }

  lemma PlainLength(v: nat)
    ensures LengthHeader(v).Valid() && SameText(LengthHeader(v).name, Ascii("content-length"))
    ensures forall b :: b in LengthHeader(v).Line() ==> b < 128
  {
    var h := LengthHeader(v);
    DecimalIsPlain(v);
    assert forall b :: b in h.value ==> b == SPACE || b in Decimal(v);
    assert forall b :: b in h.name ==> b < 128 && b != COLON && b != CR;
  }

  /** Such a request: "G / " with the largest length there is. */
  lemma LargestLengthCrashes(rest: Bytes, secret: Bytes)
    ensures
      var r := Sent([71], [47], None, [LengthHeader(U64 - 1)]);
      r.Valid() && Parsed(r.Opening() + rest, secret).Crash?
  {
    Overlong(LengthHeader(U64 - 1), rest, secret);
  }

  lemma Overlong(h: Header, rest: Bytes, secret: Bytes)
    requires h == LengthHeader(U64 - 1)
    ensures
      var r := Sent([71], [47], None, [h]);
      r.Valid() && Parsed(r.Opening() + rest, secret).Crash?
  {
    var r := Sent([71], [47], None, [h]);
    PlainLength(U64 - 1);
    assert HeaderLines([h]) == [CR, LF] + h.Line() + HeaderLines([]);
    AsciiIsUtf8(r.Text());
    RequestRead(r, rest, secret);
    OneHeader(SettingsOf(r, secret), Start(r, secret), h, secret, U64 - 1);
  }
}
