/** The query of a request: percent-decoded pairs. */
module ClashQuery {
  import opened Common

  const PERCENT: byte := 37
  const AMPERSAND: byte := 38
  const PLUS: byte := 43
  const EQUALS: byte := 61
  const SPACE: byte := 32

  type Pair = (Bytes, Bytes)

  /** The place of the first `mark`, or the length. */
  function IndexOf(s: Bytes, mark: byte): (i: nat)
    ensures i <= |s| && (i < |s| ==> s[i] == mark)
  {
    if s == [] || s[0] == mark then 0 else 1 + IndexOf(s[1..], mark)
  }

  /** `split_once`. */
  function SplitOnce(s: Bytes, mark: byte): Option<Pair> {
    var i := IndexOf(s, mark);
    if i == |s| then None else Some((s[..i], s[i + 1..]))
  }

  lemma {:induction false} FirstMark(a: Bytes, mark: byte, b: Bytes)
    requires mark !in a
    ensures IndexOf(a + [mark] + b, mark) == |a|
    ensures SplitOnce(a + [mark] + b, mark) == Some((a, b))
    ensures SplitOnce(a, mark) == None
  {
    var s := a + [mark] + b;
    assert s[..|a|] == a && s[|a| + 1..] == b;
    if a != [] {
      FirstMark(a[1..], mark, b);
      assert s[1..] == a[1..] + [mark] + b;
    }
  }

  // ----- percent signs

  function HexDigit(b: byte): (v: Option<nat>)
    ensures v.Some? ==> v.value < 16
  {
    if 48 <= b <= 57 then Some((b - 48) as nat)
    else if 65 <= b <= 70 then Some((b - 55) as nat)
    else if 97 <= b <= 102 then Some((b - 87) as nat)
    else None
  }

  /** `from_str_radix` on two characters: a plus sign may stand in front. */
  function HexByte(a: byte, b: byte): Option<byte> {
    var high := if a == PLUS then Some(0) else HexDigit(a);
    if high.None? || HexDigit(b).None? then None else Some(16 * high.value + HexDigit(b).value)
  }

  /** The byte at the front, and how much of the text it takes. */
  function Front(s: Bytes): (r: (byte, nat))
    requires s != []
    ensures 0 < r.1 <= |s|
  {
    if s[0] == PERCENT && |s| > 2 && HexByte(s[1], s[2]).Some? then (HexByte(s[1], s[2]).value, 3)
    else if s[0] == PLUS then (SPACE, 1)
    else (s[0], 1)
  }

  /** A percent sign that no number follows stands for itself. */
  function Decoded(s: Bytes): Bytes {
    if s == [] then [] else [Front(s).0] + Decoded(s[Front(s).1..])
  }

  /** A hexadecimal digit, in either letter case. */
  ghost predicate IsHex(b: byte, v: nat) {
    v < 16 && (b == "0123456789abcdef"[v] as int || b == "0123456789ABCDEF"[v] as int)
  }

  lemma HexDigitIs(b: byte, v: nat)
    ensures HexDigit(b) == Some(v) <==> IsHex(b, v)
  {}

  /** Two hexadecimal digits, or a plus sign and one. */
  ghost predicate Hex(a: byte, b: byte, v: nat) {
    exists high: nat, low: nat ::
      v == 16 * high + low && (IsHex(a, high) || (a == '+' as int && high == 0)) && IsHex(b, low)
  }

  lemma HexByteIs(a: byte, b: byte, v: nat)
    ensures v < 256 ==> (HexByte(a, b) == Some(v) <==> Hex(a, b, v))
  {
    forall d: nat
      ensures HexDigit(a) == Some(d) <==> IsHex(a, d)
      ensures HexDigit(b) == Some(d) <==> IsHex(b, d)
    {
      HexDigitIs(a, d);
      HexDigitIs(b, d);
    }
    if HexByte(a, b) == Some(v) {
      var high := if a == PLUS then 0 else HexDigit(a).value;
      assert v == 16 * high + HexDigit(b).value && (IsHex(a, high) || (a == '+' as int && high == 0));
    }
    if high: nat, low: nat :|
      v == 16 * high + low && (IsHex(a, high) || (a == '+' as int && high == 0)) && IsHex(b, low)
    {
      assert HexDigit(b) == Some(low);
      assert a == '+' as int ==> !IsHex(a, high);
    }
  }

  /** A percent sign with a number behind it is the byte of that number. */
  lemma DecodedNumber(a: byte, b: byte, v: byte, s: Bytes)
    requires Hex(a, b, v)
    ensures Decoded(['%' as byte, a, b] + s) == [v] + Decoded(s)
  {
    HexByteIs(a, b, v);
    var text := ['%' as byte, a, b] + s;
    assert Front(text) == (v, 3) && text[3..] == s;
  }

  /** One without a number is what it is; a plus sign is a blank; and so is everything else what
      it is. */
  lemma DecodedOther(c: byte, s: Bytes)
    requires c == '%' as int && |s| >= 2 ==> forall v: byte :: !Hex(s[0], s[1], v)
    ensures Decoded([c] + s) == [if c == '+' as int then ' ' as byte else c] + Decoded(s)
  {
    var text := [c] + s;
    assert text[1..] == s;
    if c == '%' as int && |s| >= 2 && HexByte(s[0], s[1]).Some? {
      HexByteIs(s[0], s[1], HexByte(s[0], s[1]).value);
    }
  }

  /** The byte at place `i`, and how much of the text it takes. */
  method Take(text: Bytes, i: nat) returns (b: byte, n: nat)
    requires i < |text|
    ensures (b, n) == Front(text[i..])
  {
    if text[i] == PERCENT && i + 2 < |text| {
      var v := HexByte(text[i + 1], text[i + 2]);
      if v.Some? {
        return v.value, 3;
      }
      return PERCENT, 1;
    }
    b, n := if text[i] == PLUS then SPACE else text[i], 1;
  }

  lemma DecodedStep(out: Bytes, text: Bytes, i: nat, b: byte, n: nat)
    requires i < |text| && (b, n) == Front(text[i..])
    ensures i + n <= |text| && out + Decoded(text[i..]) == out + [b] + Decoded(text[i + n..])
  {
    var s := text[i..];
    assert s[n..] == text[i + n..];
    assert Decoded(s) == [b] + Decoded(s[n..]);
  }

  method PercentDecode(text: Bytes) returns (out: Bytes)
    ensures out == Decoded(text)
  {
    out := [];
    var i := 0;
    while i < |text|
      invariant i <= |text| && out + Decoded(text[i..]) == Decoded(text)
    {
      var b, n := Take(text, i);
      DecodedStep(out, text, i, b, n);
      out := out + [b];
      i := i + n;
    }
  }

  function DigitOf(v: nat): (b: byte)
    requires v < 16
    ensures HexDigit(b) == Some(v) && b != PLUS && b != AMPERSAND && b != EQUALS
  {
    if v < 10 then 48 + v else 55 + v
  }

  /** Every byte as a number behind a percent sign. */
  function Encoded(s: Bytes): Bytes {
    if s == [] then [] else [PERCENT, DigitOf(s[0] / 16), DigitOf(s[0] % 16)] + Encoded(s[1..])
  }

  /** What is encoded comes back. */
  lemma {:induction false} PercentRoundTrip(s: Bytes)
    ensures Decoded(Encoded(s)) == s
    ensures AMPERSAND !in Encoded(s) && EQUALS !in Encoded(s)
  {
    if s != [] {
      PercentRoundTrip(s[1..]);
      var e := Encoded(s);
      assert e[1] == DigitOf(s[0] / 16) && e[2] == DigitOf(s[0] % 16) && e[3..] == Encoded(s[1..]);
      assert Front(e) == (s[0], 3);
    }
  }

  // ----- pairs

  /** `split`. */
  function SplitAll(s: Bytes, mark: byte): (r: seq<Bytes>)
    ensures r != []
  {
    var i := IndexOf(s, mark);
    if i == |s| then [s] else [s[..i]] + SplitAll(s[i + 1..], mark)
  }

  /** One more part of the query: a pair if it has an equals sign; a later value replaces an
      earlier one. */
  function WithPart(query: map<Bytes, Bytes>, part: Bytes): map<Bytes, Bytes> {
    var pair := SplitOnce(part, EQUALS);
    if pair.None? then query else query[Decoded(pair.value.0) := Decoded(pair.value.1)]
  }

  function WithParts(query: map<Bytes, Bytes>, parts: seq<Bytes>): map<Bytes, Bytes>
    decreases |parts|
  {
    if parts == [] then query else WithParts(WithPart(query, parts[0]), parts[1..])
  }

  function QueryOf(text: Bytes): map<Bytes, Bytes> {
    WithParts(map[], SplitAll(text, AMPERSAND))
  }

  method ReadQuery(text: Bytes) returns (query: map<Bytes, Bytes>)
    ensures query == QueryOf(text)
  {
    query := map[];
    var parts := SplitAll(text, AMPERSAND);
    for k := 0 to |parts|
      invariant WithParts(query, parts[k..]) == QueryOf(text)
    {
      assert parts[k..][0] == parts[k] && parts[k..][1..] == parts[k + 1..];
      var pair := SplitOnce(parts[k], EQUALS);
      if pair.Some? {
        var key := PercentDecode(pair.value.0);
        var value := PercentDecode(pair.value.1);
        query := query[key := value];
      }
    }
    assert parts[|parts|..] == [];
  }

  /** A part is a pair if it has an equals sign, split at the first. */
  lemma PartIs(query: map<Bytes, Bytes>, key: Bytes, value: Bytes)
    requires EQUALS !in key
    ensures WithPart(query, key + ['=' as byte] + value) == query[Decoded(key) := Decoded(value)]
    ensures WithPart(query, key) == query
  {
    FirstMark(key, EQUALS, value);
  }

  function PairText(pair: Pair): Bytes {
    Encoded(pair.0) + [EQUALS] + Encoded(pair.1)
  }

  /** A list of pairs as a query. */
  function QueryText(pairs: seq<Pair>): Bytes {
    if pairs == [] then []
    else if |pairs| == 1 then PairText(pairs[0])
    else PairText(pairs[0]) + [AMPERSAND] + QueryText(pairs[1..])
  }

  /** The pairs as a map: the last value of a key counts. */
  function AsMap(query: map<Bytes, Bytes>, pairs: seq<Pair>): map<Bytes, Bytes>
    decreases |pairs|
  {
    if pairs == [] then query else AsMap(query[pairs[0].0 := pairs[0].1], pairs[1..])
  }

  lemma PairRead(query: map<Bytes, Bytes>, pair: Pair)
    ensures WithPart(query, PairText(pair)) == query[pair.0 := pair.1]
    ensures AMPERSAND !in PairText(pair)
  {
    PercentRoundTrip(pair.0);
    PercentRoundTrip(pair.1);
    FirstMark(Encoded(pair.0), EQUALS, Encoded(pair.1));
  }

  /** A query gives back the pairs it was made of. */
  lemma {:induction false} QueryRoundTrip(query: map<Bytes, Bytes>, pairs: seq<Pair>)
    ensures WithParts(query, SplitAll(QueryText(pairs), AMPERSAND)) == AsMap(query, pairs)
    decreases |pairs|
  {
    if pairs != [] {
      var first := PairText(pairs[0]);
      PairRead(query, pairs[0]);
      if |pairs| == 1 {
        FirstMark(first, AMPERSAND, []);
        OnePart(query, first);
        assert pairs[1..] == [];
      } else {
        var rest := QueryText(pairs[1..]);
        FirstMark(first, AMPERSAND, rest);
        var s := first + [AMPERSAND] + rest;
        assert s[..|first|] == first && s[|first| + 1..] == rest;
        QueryRoundTrip(query[pairs[0].0 := pairs[0].1], pairs[1..]);
      }
    } else {
      OnePart(query, []);
    }
  }

  lemma OnePart(query: map<Bytes, Bytes>, part: Bytes)
    requires AMPERSAND !in part
    ensures WithParts(query, SplitAll(part, AMPERSAND)) == WithPart(query, part)
  {
    FirstMark(part, AMPERSAND, []);
    assert SplitAll(part, AMPERSAND) == [part];
    assert [part][1..] == [];
  }
}
