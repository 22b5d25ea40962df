/** Big-endian numbers as byte strings: `to_be_bytes` and `from_be_bytes`. */
module BigEndian {
  import opened Common

  function Pow256(n: nat): (p: nat)
    ensures p > 0
  {
    if n == 0 then 1 else 256 * Pow256(n - 1)
  }

  /** The `n` low bytes of `v`, most significant first. */
  function ToBytes(v: nat, n: nat): (b: Bytes)
    ensures |b| == n
  {
    if n == 0 then [] else ToBytes(v / 256, n - 1) + [v % 256]
  }

  function FromBytes(b: Bytes): (v: nat)
    ensures v < Pow256(|b|)
  {
    if b == [] then 0 else 256 * FromBytes(b[..|b| - 1]) + b[|b| - 1]
  }

  function U16At(data: Bytes, i: nat): (r: Option<nat>)
    ensures r.Some? <==> i + 2 <= |data|
  {
    if i + 2 <= |data| then Some(FromBytes(data[i..i + 2])) else None
  }

  lemma {:induction false} FromTo(v: nat, n: nat)
    requires v < Pow256(n)
    ensures FromBytes(ToBytes(v, n)) == v
  {
    if n > 0 {
      FromTo(v / 256, n - 1);
      assert ToBytes(v, n)[..n - 1] == ToBytes(v / 256, n - 1);
    }
  }

  /** The first byte weighs most. */
  lemma FromBytesIs(b: Bytes)
    ensures |b| == 2 ==> FromBytes(b) == 0x100 * b[0] as int + b[1] as int
    ensures |b| == 4 ==> (
      FromBytes(b) == 0x100_0000 * b[0] as int + 0x1_0000 * b[1] as int + 0x100 * b[2] as int + b[3] as int)
  {
    if |b| == 2 {
      FromTwo(b);
    } else if |b| == 4 {
      FromTwo(b[..2]);
      assert b[..3][..2] == b[..2];
    }
  }

  lemma FromTwo(b: Bytes)
    requires |b| == 2
    ensures FromBytes(b) == 0x100 * b[0] as int + b[1] as int
  {
    assert b[..1][..0] == [];
  }

  lemma TwoBytes(v: nat)
    requires v < 0x1_0000
    ensures FromBytes(ToBytes(v, 2)) == v
  {
    assert Pow256(2) == 0x1_0000;
    FromTo(v, 2);
  }

  lemma {:induction false} ToFrom(b: Bytes)
    ensures ToBytes(FromBytes(b), |b|) == b
  {
    if b != [] {
      ToFrom(b[..|b| - 1]);
      assert b == b[..|b| - 1] + [b[|b| - 1]];
    }
  }
}

/** The binary form of the domain tree inside an `.srs` file. */
module DocumentCodec {
  import opened Common
  import opened Words
  import opened BigEndian

  /** The longest list a document may announce. */
  const MAX_ITEMS: nat := 0x1000_0000

  lemma WordWidth()
    ensures Pow256(8) == U64
  {
    assert Pow256(4) == U32;
  }

  // ----- variable-length numbers

  function Uvarint(v: nat): (b: Bytes) {
    if v < 0x80 then [v] else [v % 0x80 + 0x80] + Uvarint(v / 0x80)
  }

  /** Seven bits a byte, the lowest first. */
  function SevenBits(b: Bytes): nat {
    if b == [] then 0 else b[0] % 0x80 + 0x80 * SevenBits(b[1..])
  }

  /** Every byte but the last has its high bit set, and the last is not zero, unless alone. */
  lemma {:induction false} UvarintIs(v: nat)
    ensures
      var b := Uvarint(v);
      && b != [] && SevenBits(b) == v && b[|b| - 1] < 0x80 && (v > 0 ==> b[|b| - 1] > 0)
      && forall k :: 0 <= k < |b| - 1 ==> b[k] >= 0x80
  {
    if v >= 0x80 {
      UvarintIs(v / 0x80);
      assert Uvarint(v)[1..] == Uvarint(v / 0x80);
    } else {
      assert Uvarint(v)[1..] == [];
    }
  }

  /** `x << shift` in 64 bits. */
  function Shifted(x: nat, shift: nat): nat {
    x * Pow2(shift) % U64
  }

  /** `value |= (b & 0x7f) << shift`, in 64 bits, over at most ten bytes.  The bits of
      `value` lie below `shift`, so `|` adds. */
  function UnUvarint(data: Bytes, shift: nat, value: nat): Result<(nat, Bytes)>
    decreases |data|
  {
    if shift >= 64 || data == [] then Err
    else
      var v := value + Shifted(data[0] % 0x80, shift);
      if data[0] < 0x80 then Ok((v, data[1..])) else UnUvarint(data[1..], shift + 7, v)
  }

  lemma FirstByte(v: nat, rest: Bytes, shift: nat, value: nat)
    requires shift < 64
    ensures
      var r := UnUvarint(Uvarint(v) + rest, shift, value);
      if v < 0x80 then r == Ok((value + Shifted(v, shift), rest))
      else r == UnUvarint(Uvarint(v / 0x80) + rest, shift + 7, value + Shifted(v % 0x80, shift))
  {
    var data := Uvarint(v) + rest;
    if v < 0x80 {
      assert data[0] == v && data[1..] == rest;
    } else {
      assert data[0] == v % 0x80 + 0x80 && data[0] % 0x80 == v % 0x80;
      assert data[1..] == Uvarint(v / 0x80) + rest;
    }
  }

  /** Decoding undoes encoding: the digits of `v`, from bit `shift` on, add up to
      `weight`, which is `v << shift`. */
  lemma {:induction false} UvarintRoundTrip(v: nat, rest: Bytes, shift: nat, value: nat, weight: nat)
    requires weight == v * Pow2(shift) < U64 && shift < 64
    ensures UnUvarint(Uvarint(v) + rest, shift, value) == Ok((value + weight, rest))
    decreases v
  {
    FirstByte(v, rest, shift, value);
    if v < 0x80 {
      ShiftedFits(v, shift);
    } else {
      var high := SevenMore(v, shift);
      UvarintRoundTrip(v / 0x80, rest, shift + 7, value + Shifted(v % 0x80, shift), high);
    }
  }

  /** A number that does not end is refused, and so is one of more than ten bytes. */
  lemma {:induction false} UvarintRefused(data: Bytes, shift: nat, value: nat)
    requires forall k :: 0 <= k < |data| && shift + 7 * k < 64 ==> data[k] >= 0x80
    ensures UnUvarint(data, shift, value).Err?
    decreases |data|
  {
    if data != [] && shift < 64 {
      assert forall k :: 0 <= k < |data| - 1 ==> data[1..][k] == data[k + 1];
      UvarintRefused(data[1..], shift + 7, value + Shifted(data[0] % 0x80, shift));
    }
  }

  lemma ShiftedFits(x: nat, shift: nat)
    requires x * Pow2(shift) < U64
    ensures Shifted(x, shift) == x * Pow2(shift)
  {}

  /** Seven bits taken off the bottom of `v` weigh what they weighed in `v`. */
  lemma SevenMore(v: nat, shift: nat) returns (high: nat)
    requires v * Pow2(shift) < U64 && v >= 0x80
    ensures high == v / 0x80 * Pow2(shift + 7) < U64
    ensures Shifted(v % 0x80, shift) + high == v * Pow2(shift)
    ensures shift + 7 < 64
  {
    assert Pow2(shift + 7) == 0x80 * Pow2(shift) by {
      assert Pow2(3) == 8 && Pow2(4) == 16;
      Pow2Add(4, 3);
      Pow2Add(7, shift);
    }
    SplitSeven(v, Pow2(shift));
    ShiftedFits(v % 0x80, shift);
    Pow2Below(shift + 7);
    high := v / 0x80 * Pow2(shift + 7);
  }

  lemma SplitSeven(v: nat, p: nat)
    requires v >= 0x80
    ensures v % 0x80 * p + v / 0x80 * (0x80 * p) == v * p
    ensures 0x80 * p <= v * p && v % 0x80 * p <= v * p && v / 0x80 * (0x80 * p) <= v * p
  {
    var lo, hi := v % 0x80, v / 0x80;
    assert lo * p + hi * (0x80 * p) == (lo + 0x80 * hi) * p;
    assert (v - 0x80) * p >= 0;
    assert lo * p >= 0 && hi * (0x80 * p) >= 0;
  }

  // ----- the document

  /** The three vectors of a document, and what follows it. */
  datatype Raw = Raw(leaves: seq<Word>, bitmap: seq<Word>, labels: Bytes, rest: Bytes)

  function TakeLen(data: Bytes): Result<(nat, Bytes)> {
    var (n, rest) :- UnUvarint(data, 0, 0);
    if n > MAX_ITEMS then Err else Ok((n, rest))
  }

  function TakeWords(data: Bytes, n: nat, taken: seq<Word>): (r: Result<(seq<Word>, Bytes)>)
    decreases n
  {
    if n == 0 then Ok((taken, data))
    else if |data| < 8 then Err
    else
      WordWidth();
      TakeWords(data[8..], n - 1, taken + [FromBytes(data[..8])])
  }

  function TakeVector(data: Bytes): Result<(seq<Word>, Bytes)> {
    var (n, rest) :- TakeLen(data);
    TakeWords(rest, n, [])
  }

  /** What a document says, before it is checked. */
  function Decode(data: Bytes): Result<Raw> {
    if data == [] then Err
    else
      var (leaves, d1) :- TakeVector(data[1..]);
      var (bitmap, d2) :- TakeVector(d1);
      var (n, d3) :- TakeLen(d2);
      if |d3| < n then Err else Ok(Raw(leaves, bitmap, d3[..n], d3[n..]))
  }

  function WordsBytes(ws: seq<Word>): Bytes {
    if ws == [] then [] else ToBytes(ws[0], 8) + WordsBytes(ws[1..])
  }

  function VectorBytes(ws: seq<Word>): Bytes {
    Uvarint(|ws|) + WordsBytes(ws)
  }

  /** What the builder writes. */
  function Encode(leaves: seq<Word>, bitmap: seq<Word>, labels: Bytes): Bytes {
    [0] + (VectorBytes(leaves) + (VectorBytes(bitmap) + (Uvarint(|labels|) + labels)))
  }

  /** The bytes of a small document: version 0, and the three lists. */
  lemma SmallDocument(leaf: byte, bits: byte, label': byte)
    ensures Encode([leaf], [bits], [label'])
      == [0, 1, 0, 0, 0, 0, 0, 0, 0, leaf, 1, 0, 0, 0, 0, 0, 0, 0, bits, 1, label']
  {
    OneWord(leaf);
    OneWord(bits);
  }

  lemma OneWord(w: byte)
    ensures VectorBytes([w]) == [1, 0, 0, 0, 0, 0, 0, 0, w]
  {
    assert ToBytes(0, 7) == [0, 0, 0, 0, 0, 0, 0];
    assert ToBytes(w, 8) == [0, 0, 0, 0, 0, 0, 0, w];
    assert [w][1..] == [];
    assert WordsBytes([w]) == ToBytes(w, 8);
  }

  lemma {:induction false} WordsRoundTrip(ws: seq<Word>, rest: Bytes, taken: seq<Word>)
    ensures TakeWords(WordsBytes(ws) + rest, |ws|, taken) == Ok((taken + ws, rest))
    decreases ws
  {
    var data := WordsBytes(ws) + rest;
    if ws == [] {
      assert data == rest && taken + ws == taken;
    } else {
      WordWidth();
      FromTo(ws[0], 8);
      assert data[..8] == ToBytes(ws[0], 8) && data[8..] == WordsBytes(ws[1..]) + rest;
      WordsRoundTrip(ws[1..], rest, taken + [ws[0]]);
      assert taken + [ws[0]] + ws[1..] == taken + ws;
    }
  }

  lemma LenRoundTrip(n: nat, rest: Bytes)
    requires n < U64
    ensures TakeLen(Uvarint(n) + rest) == if n <= 0x1000_0000 then Ok((n, rest)) else Err
  {
    UvarintRoundTrip(n, rest, 0, 0, n);
  }

  lemma VectorRoundTrip(ws: seq<Word>, rest: Bytes)
    requires |ws| < U64
    ensures TakeVector(VectorBytes(ws) + rest) == if |ws| <= 0x1000_0000 then Ok((ws, rest)) else Err
  {
    Reassociate(Uvarint(|ws|), WordsBytes(ws), rest);
    LenRoundTrip(|ws|, WordsBytes(ws) + rest);
    WordsRoundTrip(ws, rest, []);
    assert [] + ws == ws;
  }

  /** A written document reads back as it was, exactly when no vector has more entries than
      a list may announce. */
  lemma DocumentRoundTrip(leaves: seq<Word>, bitmap: seq<Word>, labels: Bytes, rest: Bytes)
    requires |leaves| < U64 && |bitmap| < U64 && |labels| < U64
    ensures Decode(Encode(leaves, bitmap, labels) + rest)
      == if Max(|leaves|, Max(|bitmap|, |labels|)) <= 0x1000_0000 then Ok(Raw(leaves, bitmap, labels, rest)) else Err
  {
    var d3 := labels + rest;
    var d2 := Uvarint(|labels|) + d3;
    var d1 := VectorBytes(bitmap) + d2;
    var d0 := VectorBytes(leaves) + d1;
    assert (Encode(leaves, bitmap, labels) + rest)[1..] == d0 by {
      Reassociate(Uvarint(|labels|), labels, rest);
      Reassociate(VectorBytes(bitmap), Uvarint(|labels|) + labels, rest);
      Reassociate(VectorBytes(leaves), VectorBytes(bitmap) + (Uvarint(|labels|) + labels), rest);
      Reassociate([0], VectorBytes(leaves) + (VectorBytes(bitmap) + (Uvarint(|labels|) + labels)), rest);
    }
    VectorRoundTrip(leaves, d1);
    VectorRoundTrip(bitmap, d2);
    LenRoundTrip(|labels|, d3);
    assert d3[..|labels|] == labels && d3[|labels|..] == rest;
  }

  // ----- reading

  /** `io::Read` over bytes in memory. */
  class Reader {
    var rest: Bytes

    constructor (data: Bytes)
      ensures rest == data
    {
      rest := data;
    }

    method ReadExact(n: nat) returns (r: Result<Bytes>)
      modifies this
      ensures r.Ok? <==> n <= |old(rest)|
      ensures r.Ok? ==> r.value == old(rest)[..n] && rest == old(rest)[n..]
    {
      if |rest| < n {
        return Err;
      }
      r := Ok(rest[..n]);
      rest := rest[n..];
    }

    method ReadByte() returns (r: Result<byte>)
      modifies this
      ensures r.Ok? <==> old(rest) != []
      ensures r.Ok? ==> r.value == old(rest)[0] && rest == old(rest)[1..]
    {
      var b :- ReadExact(1);
      r := Ok(b[0]);
    }

    method ReadUvarint() returns (r: Result<nat>)
      modifies this
      ensures r.Ok? == UnUvarint(old(rest), 0, 0).Ok?
      ensures r.Ok? ==> Ok((r.value, rest)) == UnUvarint(old(rest), 0, 0)
    {
      var value: nat, shift: nat := 0, 0;
      while shift < 64
        invariant UnUvarint(old(rest), 0, 0) == UnUvarint(rest, shift, value)
      {
        var b :- ReadByte();
        value := value + Shifted(b % 0x80, shift);
        if b < 0x80 {
          return Ok(value);
        }
        shift := shift + 7;
      }
      r := Err;
    }

    method ReadLen() returns (r: Result<nat>)
      modifies this
      ensures r.Ok? == TakeLen(old(rest)).Ok?
      ensures r.Ok? ==> Ok((r.value, rest)) == TakeLen(old(rest))
    {
      var n :- ReadUvarint();
      if n > MAX_ITEMS {
        return Err;
      }
      r := Ok(n);
    }

    method ReadU64s() returns (r: Result<seq<Word>>)
      modifies this
      ensures r.Ok? == TakeVector(old(rest)).Ok?
      ensures r.Ok? ==> Ok((r.value, rest)) == TakeVector(old(rest))
    {
      var n :- ReadLen();
      var out: seq<Word> := [];
      for i := 0 to n
        invariant TakeVector(old(rest)) == TakeWords(rest, n - i, out)
      {
        var b :- ReadExact(8);
        WordWidth();
        out := out + [FromBytes(b)];
      }
      r := Ok(out);
    }
  }
}
