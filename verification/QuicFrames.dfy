/** Reassembly of a TLS ClientHello from the CRYPTO frames of a QUIC Initial packet. */
module QuicFrames {
  import opened Common
  import opened BigEndian
  import opened ClientHello

  // ----- variable-length integers (section 16 of RFC 9000)

  /** The length a first byte announces: 1, 2, 4 or 8. */
  function VarintSize(first: byte): (n: nat)
    ensures n == 1 || n == 2 || n == 4 || n == 8
  {
    if first < 64 then 1 else if first < 128 then 2 else if first < 192 then 4 else 8
  }

  /** The first `n` bytes as a number, the length mark cut off. */
  function VarintValue(data: Bytes, n: nat): nat
    requires 0 < n <= |data|
  {
    if n == 1 then data[0] % 64 else 256 * VarintValue(data, n - 1) + data[n - 1]
  }

  /** The number at the front of `data` and how many bytes it takes. */
  function Varint(data: Bytes): (r: Option<(nat, nat)>)
    ensures r.Some? ==> 1 <= r.value.1 <= |data|
  {
    if data == [] || |data| < VarintSize(data[0]) then None
    else Some((VarintValue(data, VarintSize(data[0])), VarintSize(data[0])))
  }

  method QuicVarint(data: Bytes) returns (r: Option<(nat, nat)>)
    ensures r == Varint(data)
  {
    if data == [] {
      return None;
    }
    var len := VarintSize(data[0]);
    if |data| < len {
      return None;
    }
    var v: nat := data[0] % 64;
    for i := 1 to len
      invariant v == VarintValue(data, i)
    {
      v := v * 256 + (data[i] as nat);
    }
    r := Some((v, len));
  }

  /** A complete encoded number, in the length its sender chose. */
  predicate IsNumber(raw: Bytes) {
    raw != [] && |raw| == VarintSize(raw[0])
  }

  function ValueOf(raw: Bytes): nat
    requires IsNumber(raw)
  {
    VarintValue(raw, |raw|)
  }

  lemma {:induction false} ValueStays(a: Bytes, b: Bytes, n: nat)
    requires 0 < n <= |a| && n <= |b| && forall k :: 0 <= k < n ==> a[k] == b[k]
    ensures VarintValue(a, n) == VarintValue(b, n)
  {
    if n > 1 {
      ValueStays(a, b, n - 1);
    }
  }

  /** The number `v` in `size` bytes: the length goes into the two top bits. */
  function NumberBytes(v: nat, size: nat): (raw: Bytes)
    requires size == 1 || size == 2 || size == 4 || size == 8
    requires v < 64 * Pow256(size - 1)
  {
    var b := ToBytes(v, size);
    TopByte(v, size);
    [b[0] + if size == 1 then 0 else if size == 2 then 64 else if size == 4 then 128 else 192] + b[1..]
  }

  lemma {:induction false} TopByte(v: nat, n: nat)
    requires n > 0 && v < 64 * Pow256(n - 1)
    ensures ToBytes(v, n)[0] < 64
  {
    if n > 1 {
      TopByte(v / 256, n - 1);
    }
  }

  lemma {:induction false} ValueFrom(raw: Bytes, b: Bytes, n: nat)
    requires 0 < n <= |raw| == |b| && raw[0] % 64 == b[0] && raw[1..] == b[1..]
    ensures VarintValue(raw, n) == FromBytes(b[..n])
  {
    assert b[..n][..n - 1] == b[..n - 1];
    if n > 1 {
      assert raw[n - 1] == raw[1..][n - 2] == b[1..][n - 2] == b[n - 1];
      ValueFrom(raw, b, n - 1);
    }
  }

  /** Every number of up to 62 bits can be sent in each length that holds it. */
  lemma NumberRoundTrip(v: nat, size: nat)
    requires size == 1 || size == 2 || size == 4 || size == 8
    requires v < 64 * Pow256(size - 1)
    ensures IsNumber(NumberBytes(v, size)) && ValueOf(NumberBytes(v, size)) == v
  {
    var b, raw := ToBytes(v, size), NumberBytes(v, size);
    TopByte(v, size);
    ValueFrom(raw, b, size);
    assert b[..size] == b;
    FromTo(v, size);
  }

  /** The number at place `i`. */
  function NumberAt(data: Bytes, i: nat): (r: Option<(nat, nat)>)
    ensures r.Some? ==> 1 <= r.value.1 <= |data| - i
  {
    if i > |data| then None else Varint(data[i..])
  }

  /** How long the number at place `i` is; 0 when it is cut off. */
  function SizeAt(data: Bytes, i: nat): (n: nat)
    ensures n > 0 ==> i + n <= |data|
  {
    if i >= |data| || |data| - i < VarintSize(data[i]) then 0 else VarintSize(data[i])
  }

  lemma SizeIsRead(data: Bytes, i: nat)
    ensures NumberAt(data, i).None? == (SizeAt(data, i) == 0)
    ensures NumberAt(data, i).Some? ==> NumberAt(data, i).value.1 == SizeAt(data, i)
  {}

  /** Step over `n` numbers from place `i` on. */
  function SkipNumbers(data: Bytes, i: nat, n: nat): (r: Option<nat>)
    ensures r.Some? ==> i <= r.value && (n > 0 ==> i < r.value <= |data|)
    decreases n
  {
    if n == 0 then Some(i)
    else if SizeAt(data, i) == 0 then None
    else SkipNumbers(data, i + SizeAt(data, i), n - 1)
  }

  // ----- frames (section 19 of RFC 9000)

  /** What the reader makes of the front of a payload. */
  datatype Step =
    | Broken
    | Stop
    | Skip(used: nat)
    | Chunk(offset: nat, data: Bytes, used: nat)

  const MAX_RANGES: nat := 256
  const MAX_HELLO: nat := 64 * 1024

  /** An ACK frame: four numbers, two for each range (at most `MAX_RANGES` are followed), and
      three counters for kind 3. */
  function AckStep(frames: Bytes): (s: Step)
    requires frames != [] && (frames[0] == 2 || frames[0] == 3)
    ensures s == Broken || (s.Skip? && 0 < s.used <= |frames|)
  {
    match SkipNumbers(frames, 1, 2)
    case None => Broken
    case Some(i) =>
      match NumberAt(frames, i)
      case None => Broken
      case Some((count, n)) =>
        match SkipNumbers(frames, i + n, RangeFields(frames[0], count))
        case None => Broken
        case Some(j) => Skip(j)
  }

  /** The numbers behind the range count: the first range, two for each further one, and the
      three counters of kind 3. */
  function RangeFields(kind: byte, count: nat): (n: nat)
    ensures n > 0
  {
    1 + 2 * Min(count, MAX_RANGES) + if kind == 3 then 3 else 0
  }

  function CryptoStep(frames: Bytes): (s: Step)
    requires frames != []
    ensures s == Broken || (s.Chunk? && 0 < s.used <= |frames|)
  {
    match NumberAt(frames, 1)
    case None => Broken
    case Some((offset, n)) =>
      match NumberAt(frames, 1 + n)
      case None => Broken
      case Some((len, m)) =>
        var i := 1 + n + m;
        if |frames| < i + len || offset + len > MAX_HELLO then Broken
        else Chunk(offset, frames[i..i + len], i + len)
  }

  function NextStep(frames: Bytes): (s: Step)
    requires frames != []
    ensures (s.Skip? || s.Chunk?) ==> 0 < s.used <= |frames|
  {
    if frames[0] == 0 || frames[0] == 1 then Skip(1)
    else if frames[0] == 2 || frames[0] == 3 then AckStep(frames)
    else if frames[0] == 6 then CryptoStep(frames)
    else Stop
  }

  /** `resize` and `copy_from_slice`: write `data` at `offset`, growing with zeros. */
  function Place(hello: Bytes, offset: nat, data: Bytes): (r: Bytes)
    ensures |r| == Max(|hello|, offset + |data|)
    ensures forall i :: offset <= i < offset + |data| ==> r[i] == data[i - offset]
    ensures forall i :: 0 <= i < |hello| && !(offset <= i < offset + |data|) ==> r[i] == hello[i]
  {
    var end := offset + |data|;
    var grown := if |hello| < end then hello + seq(end - |hello|, _ => 0) else hello;
    grown[..offset] + data + grown[end..]
  }

  /** The buffer the payload assembles, on top of `hello`. */
  function Collect(frames: Bytes, hello: Bytes): Option<Bytes>
    decreases |frames|
  {
    if frames == [] then Some(hello)
    else
      match NextStep(frames)
      case Broken => None
      case Stop => Some(hello)
      case Skip(n) => Collect(frames[n..], hello)
      case Chunk(offset, data, n) => Collect(frames[n..], Place(hello, offset, data))
  }

  /** The name in a handshake message, when it is a ClientHello. */
  function HandshakeName(hello: Bytes): Option<Bytes> {
    if |hello| < 4 || hello[0] != 1 then None else HelloName(hello[4..])
  }

  function CryptoName(frames: Bytes): Option<Bytes> {
    match Collect(frames, [])
    case None => None
    case Some(hello) => HandshakeName(hello)
  }

  /** `quic_varint(frames.get(i..)?)`. */
  method ReadNumber(frames: Bytes, i: nat) returns (r: Option<(nat, nat)>)
    ensures r == NumberAt(frames, i)
  {
    if i > |frames| {
      return None;
    }
    r := QuicVarint(frames[i..]);
  }

  method SkipMany(frames: Bytes, from: nat, n: nat) returns (r: Option<nat>)
    ensures r == SkipNumbers(frames, from, n)
  {
    var i: nat := from;
    for k := 0 to n
      invariant SkipNumbers(frames, from, n) == SkipNumbers(frames, i, n - k)
    {
      SizeIsRead(frames, i);
      var v := ReadNumber(frames, i);
      if v.None? {
        return None;
      }
      i := i + v.value.1;
    }
    r := Some(i);
  }

  method AckFrame(frames: Bytes) returns (r: Option<nat>)
    requires frames != [] && (frames[0] == 2 || frames[0] == 3)
    ensures AckStep(frames) == if r.None? then Broken else Skip(r.value)
  {
    var head := SkipMany(frames, 1, 2);
    if head.None? {
      return None;
    }
    var i := head.value;
    var ranges := ReadNumber(frames, i);
    if ranges.None? {
      return None;
    }
    i := i + ranges.value.1;
    r := SkipMany(frames, i, RangeFields(frames[0], ranges.value.0));
  }

  method CryptoFrame(frames: Bytes) returns (r: Option<(nat, Bytes, nat)>)
    requires frames != []
    ensures CryptoStep(frames) == if r.None? then Broken else Chunk(r.value.0, r.value.1, r.value.2)
  {
    var offset := ReadNumber(frames, 1);
    if offset.None? {
      return None;
    }
    var i := 1 + offset.value.1;
    var len := ReadNumber(frames, i);
    if len.None? {
      return None;
    }
    i := i + len.value.1;
    if |frames| < i + len.value.0 {
      return None;
    }
    var data := frames[i..i + len.value.0];
    if offset.value.0 + |data| > MAX_HELLO {
      return None;
    }
    r := Some((offset.value.0, data, i + len.value.0));
  }

  /** `sni_in_crypto`. */
  method SniInCrypto(payload: Bytes) returns (r: Option<Bytes>)
    ensures r == CryptoName(payload)
  {
    var frames, hello := payload, [];
    while frames != []
      invariant Collect(payload, []) == Collect(frames, hello)
      decreases |frames|
    {
      var kind := frames[0];
      if kind == 0 || kind == 1 {
        frames := frames[1..];
      } else if kind == 2 || kind == 3 {
        var n := AckFrame(frames);
        if n.None? {
          return None;
        }
        frames := frames[n.value..];
      } else if kind == 6 {
        var chunk := CryptoFrame(frames);
        if chunk.None? {
          return None;
        }
        var (offset, data, used) := chunk.value;
        hello := Place(hello, offset, data);
        frames := frames[used..];
      } else {
        break;
      }
    }
    if hello == [] || hello[0] != 1 || |hello| < 4 {
      return None;
    }
    r := SniInHello(hello[4..]);
  }

  // ----- what a sender may do

  /** Frames with their numbers as sent. */
  datatype Frame =
    | Padding
    | Ping
    | Ack(largest: Bytes, delay: Bytes, count: Bytes, first: Bytes, ranges: seq<Bytes>, ecn: seq<Bytes>)
    | Crypto(at: Bytes, len: Bytes, data: Bytes)
  {
    ghost predicate Valid() {
      match this
      case Padding => true
      case Ping => true
      case Ack(largest, delay, count, first, ranges, ecn) =>
        && AllNumbers([largest, delay]) && IsNumber(count) && AllNumbers([first] + ranges + ecn)
        && |ranges| == 2 * ValueOf(count) && ValueOf(count) <= 256 && (|ecn| == 0 || |ecn| == 3)
      case Crypto(at, len, data) => IsNumber(at) && IsNumber(len) && ValueOf(len) == |data|
    }

    ghost function Bytes(): Bytes {
      match this
      case Padding => [0]
      case Ping => [1]
      case Ack(largest, delay, count, first, ranges, ecn) =>
        [if ecn == [] then 2 else 3] + (Flat([largest, delay]) + (count + Flat([first] + ranges + ecn)))
      case Crypto(at, len, data) => [6] + (at + (len + data))
    }

    /** Where in the hello the data of a CRYPTO frame starts. */
    ghost function Offset(): nat
      requires Crypto? && Valid()
    {
      ValueOf(at)
    }
  }

  ghost predicate AllNumbers(ns: seq<Bytes>) {
    forall i :: 0 <= i < |ns| ==> IsNumber(ns[i])
  }

  function Flat(ns: seq<Bytes>): Bytes {
    if ns == [] then [] else ns[0] + Flat(ns[1..])
  }

  ghost predicate FramesValid(fs: seq<Frame>) {
    forall i :: 0 <= i < |fs| ==> fs[i].Valid()
  }

  ghost function Payload(fs: seq<Frame>, tail: Bytes): Bytes {
    if fs == [] then tail else fs[0].Bytes() + Payload(fs[1..], tail)
  }

  // ----- reading frames back

  lemma HasNumber(data: Bytes, i: nat, raw: Bytes)
    requires IsNumber(raw) && Has(data, i, raw)
    ensures NumberAt(data, i) == Some((ValueOf(raw), |raw|)) && SizeAt(data, i) == |raw|
  {
    var tail := data[i..];
    forall k | 0 <= k < |raw|
      ensures tail[k] == raw[k]
    {
      assert tail[k] == data[i + k];
    }
    ValueStays(tail, raw, |raw|);
  }

  /** The `n` numbers from place `i` on end at place `j`. */
  ghost predicate SkipsTo(data: Bytes, i: nat, n: nat, j: nat)
    decreases n
  {
    if n == 0 then i == j else SizeAt(data, i) > 0 && SkipsTo(data, i + SizeAt(data, i), n - 1, j)
  }

  lemma {:induction false} SkipsIs(data: Bytes, i: nat, n: nat, j: nat)
    requires SkipsTo(data, i, n, j)
    ensures SkipNumbers(data, i, n) == Some(j)
    decreases n
  {
    if n > 0 {
      SkipsIs(data, i + SizeAt(data, i), n - 1, j);
    }
  }

  lemma {:induction false} HasNumbers(data: Bytes, i: nat, ns: seq<Bytes>)
    requires AllNumbers(ns) && Has(data, i, Flat(ns))
    ensures SkipsTo(data, i, |ns|, i + |Flat(ns)|)
    decreases |ns|
  {
    if ns != [] {
      HasParts(data, i, ns[0], Flat(ns[1..]));
      HasNumber(data, i, ns[0]);
      HasNumbers(data, i + |ns[0]|, ns[1..]);
    }
  }

  lemma AckRead(f: Frame, data: Bytes)
    requires f.Ack? && f.Valid() && Has(data, 0, f.Bytes())
    ensures NextStep(data) == Skip(|f.Bytes()|)
  {
    var kind: Bytes := [if f.ecn == [] then 2 else 3];
    var pair, others := [f.largest, f.delay], [f.first] + f.ranges + f.ecn;
    HasParts(data, 0, kind, Flat(pair) + (f.count + Flat(others)));
    assert data[0] == kind[0];
    assert |others| == RangeFields(data[0], ValueOf(f.count));
    HasParts(data, 1, Flat(pair), f.count + Flat(others));
    HasParts(data, 1 + |Flat(pair)|, f.count, Flat(others));
    var i, j := 1 + |Flat(pair)|, 1 + |Flat(pair)| + |f.count|;
    AckFields(data, pair, f.count, others, i, j);
    AckStepIs(data, i, ValueOf(f.count), |f.count|, |others|, j + |Flat(others)|);
  }

  lemma AckStepIs(data: Bytes, i: nat, count: nat, n: nat, k: nat, end: nat)
    requires data != [] && (data[0] == 2 || data[0] == 3) && k == RangeFields(data[0], count)
    requires SkipsTo(data, 1, 2, i) && NumberAt(data, i) == Some((count, n)) && SkipsTo(data, i + n, k, end)
    ensures NextStep(data) == Skip(end)
  {
    SkipsIs(data, 1, 2, i);
    SkipsIs(data, i + n, k, end);
  }

  lemma AckFields(data: Bytes, pair: seq<Bytes>, count: Bytes, others: seq<Bytes>, i: nat, j: nat)
    requires AllNumbers(pair) && IsNumber(count) && AllNumbers(others)
    requires i == 1 + |Flat(pair)| && j == i + |count|
    requires Has(data, 1, Flat(pair)) && Has(data, i, count) && Has(data, j, Flat(others))
    ensures SkipsTo(data, 1, |pair|, i)
    ensures NumberAt(data, i) == Some((ValueOf(count), |count|))
    ensures SkipsTo(data, j, |others|, j + |Flat(others)|)
  {
    HasNumbers(data, 1, pair);
    HasNumber(data, i, count);
    HasNumbers(data, j, others);
  }

  lemma CryptoNumbers(f: Frame, data: Bytes)
    requires f.Crypto? && f.Valid() && Has(data, 0, f.Bytes())
    ensures data != [] && data[0] == 6
    ensures NumberAt(data, 1) == Some((f.Offset(), |f.at|))
    ensures NumberAt(data, 1 + |f.at|) == Some((|f.data|, |f.len|))
    ensures |data| >= |f.Bytes()| == 1 + |f.at| + |f.len| + |f.data|
    ensures data[1 + |f.at| + |f.len|..|f.Bytes()|] == f.data
  {
    var kind: Bytes := [6];
    HasParts(data, 0, kind, f.at + (f.len + f.data));
    assert data[0] == kind[0];
    HasParts(data, 1, f.at, f.len + f.data);
    HasParts(data, 1 + |f.at|, f.len, f.data);
    HasNumber(data, 1, f.at);
    HasNumber(data, 1 + |f.at|, f.len);
    var j := 1 + |f.at| + |f.len|;
    assert data[j..j + |f.data|] == f.data;
  }

  lemma CryptoRead(f: Frame, data: Bytes)
    requires f.Crypto? && f.Valid() && Has(data, 0, f.Bytes()) && f.Offset() + |f.data| <= MAX_HELLO
    ensures NextStep(data) == Chunk(f.Offset(), f.data, |f.Bytes()|)
  {
    CryptoNumbers(f, data);
  }

  // ----- reassembly

  /** The CRYPTO frames carry pieces of `hello`, each where it belongs. */
  ghost predicate Pieces(fs: seq<Frame>, hello: Bytes) {
    forall i :: 0 <= i < |fs| && fs[i].Crypto? ==> fs[i].Valid() && Piece(fs[i], hello)
  }

  ghost predicate Piece(f: Frame, hello: Bytes)
    requires f.Crypto? && f.Valid()
  {
    f.Offset() + |f.data| <= |hello| && hello[f.Offset()..f.Offset() + |f.data|] == f.data
  }

  /** Byte `k` of the hello travels in some frame. */
  ghost predicate Carried(fs: seq<Frame>, k: nat) {
    exists i :: 0 <= i < |fs| && Carries(fs[i], k)
  }

  ghost predicate Carries(f: Frame, k: nat) {
    f.Crypto? && f.Valid() && f.Offset() <= k < f.Offset() + |f.data|
  }

  /** The buffer holds part of `hello`: it agrees wherever `done` says a byte has come. */
  ghost predicate Partial(buffer: Bytes, hello: Bytes, done: set<nat>) {
    && |buffer| <= |hello|
    && (forall k :: k in done ==> k < |buffer| && buffer[k] == hello[k])
  }

  ghost function CarriedSet(f: Frame, hello: Bytes): set<nat> {
    set k | 0 <= k < |hello| && Carries(f, k)
  }

  lemma PlacePiece(f: Frame, buffer: Bytes, hello: Bytes, done: set<nat>)
    requires f.Crypto? && f.Valid() && Piece(f, hello) && Partial(buffer, hello, done)
    ensures Partial(Place(buffer, f.Offset(), f.data), hello, done + CarriedSet(f, hello))
  {
    var placed := Place(buffer, f.Offset(), f.data);
    forall k | k in done + CarriedSet(f, hello)
      ensures k < |placed| && placed[k] == hello[k]
    {
      if f.Offset() <= k < f.Offset() + |f.data| {
        assert f.data[k - f.Offset()] == hello[f.Offset()..f.Offset() + |f.data|][k - f.Offset()];
      }
    }
  }

  /** What a reader skips at the end: nothing, or a frame of a kind it does not know. */
  ghost predicate Unknown(tail: Bytes) {
    tail == [] || (tail[0] != 0 && tail[0] != 1 && tail[0] != 2 && tail[0] != 3 && tail[0] != 6)
  }

  lemma {:induction false} CollectPieces(fs: seq<Frame>, tail: Bytes, buffer: Bytes, hello: Bytes,
      done: set<nat>) returns (r: Bytes, all: set<nat>)
    requires FramesValid(fs) && Pieces(fs, hello) && Unknown(tail) && |hello| <= MAX_HELLO
    requires Partial(buffer, hello, done)
    ensures Collect(Payload(fs, tail), buffer) == Some(r)
    ensures Partial(r, hello, all)
    ensures forall k: nat :: k < |hello| && (k in done || Carried(fs, k)) ==> k in all
    decreases |fs|
  {
    if fs == [] {
      r, all := buffer, done;
    } else {
      var f, rest := fs[0], Payload(fs[1..], tail);
      var data := Payload(fs, tail);
      assert f.Valid();
      assert data == f.Bytes() + rest && data[|f.Bytes()|..] == rest && Has(data, 0, f.Bytes());
      var buffer', done' := buffer, done;
      if f.Crypto? {
        CryptoRead(f, data);
        PlacePiece(f, buffer, hello, done);
        buffer', done' := Place(buffer, f.Offset(), f.data), done + CarriedSet(f, hello);
      } else if f.Ack? {
        AckRead(f, data);
      }
      r, all := CollectPieces(fs[1..], tail, buffer', hello, done');
      forall k: nat | k < |hello| && (k in done || Carried(fs, k))
        ensures k in done' || Carried(fs[1..], k)
      {
        if k !in done {
          var i :| 0 <= i < |fs| && Carries(fs[i], k);
          if i > 0 {
            assert Carries(fs[1..][i - 1], k);
          }
        }
      }
    }
  }

  /** However a hello of at most 64 KiB is cut into CRYPTO frames, in any order, with
      agreeing overlaps and other frames between, the payload gives the name that the uncut
      message gives. */
  lemma ReassemblyKeepsName(fs: seq<Frame>, tail: Bytes, hello: Bytes)
    requires FramesValid(fs) && Unknown(tail) && |hello| <= 0x1_0000
    requires Pieces(fs, hello) && forall k: nat :: k < |hello| ==> Carried(fs, k)
    ensures CryptoName(Payload(fs, tail)) == HandshakeName(hello)
  {
    var none: set<nat> := {};
    var r, all := CollectPieces(fs, tail, [], hello, none);
    assert forall k: nat :: k < |hello| ==> k in all;
    if hello != [] {
      assert |hello| - 1 in all;
    }
    assert r == hello;
  }

  // ----- what is found in a payload

  /** A handshake message: its type, the length of its body in three bytes, and the body.  The
      reader passes over the length. */
  ghost function Handshake(kind: byte, len: Bytes, body: Bytes): Bytes {
    [kind] + len + body
  }

  lemma HandshakeParts(kind: byte, len: Bytes, body: Bytes)
    requires |len| == 3
    ensures Handshake(kind, len, body)[0] == kind && Handshake(kind, len, body)[4..] == body
  {}

  /** From the frames of a client to the name: those that carry a hello give the name in its
      first server_name extension. */
  lemma HelloInFrames(fs: seq<Frame>, tail: Bytes, len: Bytes, h: Hello)
    requires FramesValid(fs) && Unknown(tail) && h.Valid() && |len| == 3 && 4 + |h.Body()| <= 0x1_0000
    requires Pieces(fs, Handshake(1, len, h.Body()))
    requires forall k: nat :: k < 4 + |h.Body()| ==> Carried(fs, k)
    ensures CryptoName(Payload(fs, tail)) == NameOf(h.extensions)
  {
    HandshakeParts(1, len, h.Body());
    ReassemblyKeepsName(fs, tail, Handshake(1, len, h.Body()));
    HelloRead(h);
  }

  /** The same for the host name a client announces, whatever extensions come before. */
  lemma AnnouncedInFrames(fs: seq<Frame>, tail: Bytes, len: Bytes, h: Hello, e: nat, name: Bytes, more: Bytes)
    requires FramesValid(fs) && Unknown(tail) && h.Valid() && |len| == 3 && 4 + |h.Body()| <= 0x1_0000
    requires Pieces(fs, Handshake(1, len, h.Body()))
    requires forall k: nat :: k < 4 + |h.Body()| ==> Carried(fs, k)
    requires e < |h.extensions| && |name| + |more| < 0xfff0
    requires h.extensions[e] == Extension(0, ServerName(name, more))
    requires forall i :: 0 <= i < e ==> h.extensions[i].kind != 0
    ensures CryptoName(Payload(fs, tail)) == if IsHostName(name) then Some(LowerAll(name)) else None
  {
    HelloInFrames(fs, tail, len, h);
    HelloRead(h);
    AnnouncedNameFound(h, e, name, more);
  }

  /** Frames that carry anything but a hello, or too little, give no name. */
  lemma OtherInFrames(fs: seq<Frame>, tail: Bytes, message: Bytes)
    requires FramesValid(fs) && Unknown(tail) && |message| <= 0x1_0000
    requires Pieces(fs, message) && forall k: nat :: k < |message| ==> Carried(fs, k)
    requires |message| < 4 || message[0] != 1
    ensures CryptoName(Payload(fs, tail)) == None
  {
    ReassemblyKeepsName(fs, tail, message);
  }

  /** A CRYPTO frame that ends beyond 64 KiB, behind `n` bytes of padding, ends the search
      without a name. */
  lemma TooFarInFrames(f: Frame, data: Bytes, n: nat)
    requires f.Crypto? && f.Valid() && f.Offset() + |f.data| > 0x1_0000
    requires n <= |data| && f.Bytes() <= data[n..] && forall i :: 0 <= i < n ==> data[i] == 0 || data[i] == 1
    ensures CryptoName(data) == None
  {
    TooFar(f, data, n, []);
  }

  ghost predicate GivesUp(data: Bytes, buffer: Bytes) {
    Collect(data, buffer) == None
  }

  lemma {:induction false} TooFar(f: Frame, data: Bytes, n: nat, buffer: Bytes)
    requires f.Crypto? && f.Valid() && f.Offset() + |f.data| > 0x1_0000
    requires n <= |data| && f.Bytes() <= data[n..] && forall i :: 0 <= i < n ==> data[i] == 0 || data[i] == 1
    ensures GivesUp(data, buffer)
    decreases n
  {
    if n == 0 {
      assert data[0..] == data;
      BrokenFrame(f, data, buffer);
    } else {
      assert data[1..][n - 1..] == data[n..];
      TooFar(f, data[1..], n - 1, buffer);
      SkipOne(data, buffer);
    }
  }

  lemma SkipOne(data: Bytes, buffer: Bytes)
    requires data != [] && (data[0] == 0 || data[0] == 1) && GivesUp(data[1..], buffer)
    ensures GivesUp(data, buffer)
  {}

  lemma BrokenFrame(f: Frame, data: Bytes, buffer: Bytes)
    requires f.Crypto? && f.Valid() && f.Offset() + |f.data| > 0x1_0000 && f.Bytes() <= data
    ensures GivesUp(data, buffer)
  {
    CryptoNumbers(f, data);
  }
}
