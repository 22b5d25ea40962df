/** Which bytes are text: the encodings of Unicode scalar values (section 3 of RFC 3629). */
module Utf8Text {
  import opened Common
  import opened ClashApi

  predicate IsScalar(c: nat) {
    c < 0xD800 || 0xE000 <= c < 0x11_0000
  }

  function Encode(c: nat): (b: Bytes)
    requires IsScalar(c)
    ensures 0 < |b| <= 4
  {
    if c < 0x80 then [c]
    else if c < 0x800 then [0xC0 + c / 0x40, 0x80 + c % 0x40]
    else if c < 0x1_0000 then [0xE0 + c / 0x1000, 0x80 + c / 0x40 % 0x40, 0x80 + c % 0x40]
    else [0xF0 + c / 0x4_0000, 0x80 + c / 0x1000 % 0x40, 0x80 + c / 0x40 % 0x40, 0x80 + c % 0x40]
  }

  ghost predicate AllScalars(text: seq<nat>) {
    forall k :: 0 <= k < |text| ==> IsScalar(text[k])
  }

  function EncodeAll(text: seq<nat>): Bytes
    requires AllScalars(text)
  {
    if text == [] then [] else Encode(text[0]) + EncodeAll(text[1..])
  }

  /** The number at the front, six bits from each later byte. */
  function Decode(b: Bytes): int
    requires CharSize(b) > 0
  {
    match CharSize(b)
    case 1 => b[0] as int
    case 2 => 0x40 * (b[0] as int - 0xC0) + (b[1] as int - 0x80)
    case 3 => 0x40 * (0x40 * (b[0] as int - 0xE0) + (b[1] as int - 0x80)) + (b[2] as int - 0x80)
    case _ =>
      0x40 * (0x40 * (0x40 * (b[0] as int - 0xF0) + (b[1] as int - 0x80)) + (b[2] as int - 0x80))
      + (b[3] as int - 0x80)
  }

  lemma DecodeEncodes(b: Bytes)
    requires CharSize(b) > 0
    ensures Decode(b) >= 0 && IsScalar(Decode(b)) && Encode(Decode(b)) == b[..CharSize(b)]
  {
    if CharSize(b) == 3 {
      ThreeBytes(b);
    } else if CharSize(b) == 4 {
      FourBytes(b);
    }
  }

  lemma ThreeBytes(b: Bytes)
    requires CharSize(b) == 3
    ensures Decode(b) >= 0 && IsScalar(Decode(b)) && Encode(Decode(b)) == b[..3]
  {
    SixBits(b[0] - 0xE0, b[1] - 0x80, b[2] - 0x80);
    assert 0x800 <= Decode(b) < 0x1_0000;
  }

  lemma FourBytes(b: Bytes)
    requires CharSize(b) == 4
    ensures Decode(b) >= 0 && IsScalar(Decode(b)) && Encode(Decode(b)) == b[..4]
  {
    SixBits(b[0] - 0xF0, b[1] - 0x80, b[2] - 0x80);
    SixBits(0x40 * (b[0] - 0xF0) as int + (b[1] - 0x80), b[2] - 0x80, b[3] - 0x80);
    assert 0x1_0000 <= Decode(b) < 0x11_0000;
  }

  lemma SixBits(x: nat, y: nat, z: nat)
    requires y < 0x40 && z < 0x40
    ensures
      var c := 0x40 * (0x40 * x + y) + z;
      c / 0x1000 == x && c / 0x40 == 0x40 * x + y && c / 0x40 % 0x40 == y && c % 0x40 == z
  {}

  lemma EncodeIsChar(c: nat, rest: Bytes)
    requires IsScalar(c)
    ensures CharSize(Encode(c) + rest) == |Encode(c)|
  {
    var b := Encode(c) + rest;
    assert forall k :: 0 <= k < |Encode(c)| ==> b[k] == Encode(c)[k];
  }

  /** Bytes are text exactly if they encode some scalar values. */
  lemma {:induction false} Utf8Is(b: Bytes)
    ensures Utf8(b) <==> exists text :: AllScalars(text) && EncodeAll(text) == b
    decreases |b|
  {
    if Utf8(b) {
      var text := Scalars(b);
    }
    if text :| AllScalars(text) && EncodeAll(text) == b {
      EncodedIsUtf8(text);
    }
  }

  lemma {:induction false} Scalars(b: Bytes) returns (text: seq<nat>)
    requires Utf8(b)
    ensures AllScalars(text) && EncodeAll(text) == b
    decreases |b|
  {
    text := [];
    if b != [] {
      var c, n := FirstScalar(b);
      var more := Scalars(b[n..]);
      text := [c] + more;
      OneMore(c, more);
      assert b == b[..n] + b[n..];
    }
  }

  lemma FirstScalar(b: Bytes) returns (c: nat, n: nat)
    requires b != [] && Utf8(b)
    ensures IsScalar(c) && 0 < n <= |b| && Encode(c) == b[..n] && Utf8(b[n..])
  {
    DecodeEncodes(b);
    c, n := Decode(b), CharSize(b);
  }

  lemma OneMore(c: nat, more: seq<nat>)
    requires IsScalar(c) && AllScalars(more)
    ensures AllScalars([c] + more) && EncodeAll([c] + more) == Encode(c) + EncodeAll(more)
  {
    assert ([c] + more)[1..] == more;
  }

  lemma {:induction false} EncodedIsUtf8(text: seq<nat>)
    requires AllScalars(text)
    ensures Utf8(EncodeAll(text))
  {
    if text != [] {
      EncodedIsUtf8(text[1..]);
      var b := EncodeAll(text);
      EncodeIsChar(text[0], EncodeAll(text[1..]));
      assert b[|Encode(text[0])|..] == EncodeAll(text[1..]);
    }
  }
}
