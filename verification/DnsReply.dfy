/** Replies: the ones the engine makes up, and reading addresses out of any. */
module DnsReply {
  import opened Common
  import opened Words
  import opened BigEndian
  import opened Addresses
  import opened DnsMessage
  import FakeIp

  // ----- made-up replies

  function Head(query: Bytes, end: nat): Bytes {
    query[..Min(end, |query|)]
  }

  /** The header is turned into a reply's; the question stays.  `0x81 | (query[2] & 1)` is
      `0x81`, as the bit is set on both sides. */
  function Empty(query: Bytes, end: nat, rcode: byte): (r: Bytes)
    requires rcode < 128
  {
    var out := Head(query, end);
    if |out| >= HEADER then out[..2] + [0x81, 0x80 + rcode] + out[4..6] + [0, 0, 0, 0, 0, 0] + out[12..] else out
  }

  function Octets(ip: Ip): Bytes {
    ToBytes(ip.addr, if ip.v4 then 4 else 16)
  }

  /** One address record; its name points at the question. */
  function AddressRecord(ip: Ip, ttl: nat): Bytes {
    [0xc0, 0x0c] + ToBytes(if ip.v4 then QTYPE_A else QTYPE_AAAA, 2) + [0, 1] + ToBytes(ttl, 4)
    + [0, |Octets(ip)| as byte] + Octets(ip)
  }

  function WithIp(query: Bytes, end: nat, ip: Ip, ttl: nat): Bytes {
    var out := Empty(query, end, 0);
    if |out| < HEADER then out else out[7 := 1] + AddressRecord(ip, ttl)
  }

  method EmptyReply(query: Bytes, end: nat, rcode: byte) returns (out: Bytes)
    requires rcode < 128
    ensures out == Empty(query, end, rcode)
  {
    out := query[..Min(end, |query|)];
    if |out| >= HEADER {
      ghost var was := out;
      out := out[2 := 0x81];
      out := out[3 := 0x80 + rcode];
      for k := 6 to 12
        invariant |out| == |was|
        invariant forall j :: 0 <= j < |out| ==>
          out[j] == if j == 2 then 0x81 else if j == 3 then 0x80 + rcode else if 6 <= j < k then 0 else was[j]
      {
        out := out[k := 0];
      }
    }
  }

  method AnswerWithIp(query: Bytes, end: nat, ip: Ip, ttl: nat) returns (out: Bytes)
    ensures out == WithIp(query, end, ip, ttl)
  {
    out := EmptyReply(query, end, 0);
    if |out| < HEADER {
      return;
    }
    out := out[7 := 1];
    ghost var head := out;
    out := out + [0xc0, 0x0c];
    if ip.v4 {
      out := out + ToBytes(QTYPE_A, 2) + [0, 1] + ToBytes(ttl, 4) + [0, 4] + ToBytes(ip.addr, 4);
    } else {
      out := out + ToBytes(QTYPE_AAAA, 2) + [0, 1] + ToBytes(ttl, 4) + [0, 16] + ToBytes(ip.addr, 16);
    }
    assert out == head + AddressRecord(ip, ttl);
  }

  /** The front of a reply is that of the query, turned around: a response, with recursion, the
      code given and so many answers; no other records, and whatever question there was. */
  ghost predicate TurnedAround(reply: Bytes, query: Bytes, n: nat, rcode: nat, answers: nat) {
    && n <= |query| && n <= |reply|
    && (n < 12 ==> reply[..n] == query[..n])
    && (n >= 12 ==>
      && reply[..2] == query[..2] && reply[2..4] == [0x81, 0x80 + rcode] && reply[4..6] == query[4..6]
      && reply[6..12] == [0, answers, 0, 0, 0, 0] && reply[12..n] == query[12..n])
  }

  lemma EmptyTurnsAround(query: Bytes, end: nat, rcode: byte)
    requires rcode < 128
    ensures |Empty(query, end, rcode)| == Min(end, |query|)
    ensures TurnedAround(Empty(query, end, rcode), query, Min(end, |query|), rcode, 0)
  {
    var r, n := Empty(query, end, rcode), Min(end, |query|);
    if n >= 12 {
      var front := query[..n];
      assert front[..2] == query[..2] && front[4..6] == query[4..6] && front[12..] == query[12..n];
      assert r == front[..2] + [0x81, 0x80 + rcode] + front[4..6] + [0, 0, 0, 0, 0, 0] + front[12..];
      assert r[4..6] == front[4..6] && r[6..12] == [0, 0, 0, 0, 0, 0] && r[12..] == front[12..];
    }
  }

  /** Behind it comes the one record: a pointer to the question, the type, class IN, the life and
      the address. */
  lemma AnswerTurnsAround(query: Bytes, end: nat, ip: Ip, ttl: nat)
    requires 12 <= Min(end, |query|)
    ensures
      var r, n := WithIp(query, end, ip, ttl), Min(end, |query|);
      && TurnedAround(r, query, n, 0, 1)
      && r[n..] == [0xc0, 12, 0, if ip.v4 then 1 else 28, 0, 1] + ToBytes(ttl, 4)
        + (if ip.v4 then [0, 4] + ToBytes(ip.addr, 4) else [0, 16] + ToBytes(ip.addr, 16))
  {
    EmptyTurnsAround(query, end, 0);
    TypeBytes();
    var out, r := Empty(query, end, 0), WithIp(query, end, ip, ttl);
    var n, head := Min(end, |query|), out[7 := 1];
    assert r == head + AddressRecord(ip, ttl);
    assert r[n..] == AddressRecord(ip, ttl);
    assert head[..2] == out[..2] && head[2..4] == out[2..4] && head[4..6] == out[4..6] && head[12..] == out[12..];
    assert r[..2] == head[..2] && r[2..4] == head[2..4] && r[4..6] == head[4..6] && r[12..n] == head[12..];
    assert r[6..12] == [0, 1, 0, 0, 0, 0] by {
      assert out[6..12] == [0, 0, 0, 0, 0, 0];
      assert forall k :: 6 <= k < 12 ==> out[k] == 0;
    }
  }

  lemma TypeBytes()
    ensures ToBytes(QTYPE_A, 2) == [0, 1] && ToBytes(QTYPE_AAAA, 2) == [0, 28]
  {}

  // ----- reading answers

  /** Behind a name, compressed or not. */
  function Skip(packet: Bytes, i: nat): (r: Option<nat>)
    ensures r.Some? ==> r.value > i
    decreases |packet| - i
  {
    if i >= |packet| then None
    else if packet[i] == 0 then Some(i + 1)
    else if packet[i] >= 192 then Some(i + 2)
    else Skip(packet, i + 1 + packet[i])
  }

  method SkipName(packet: Bytes, from: nat) returns (r: Option<nat>)
    ensures r == Skip(packet, from)
  {
    var i := from;
    while true
      invariant Skip(packet, i) == Skip(packet, from)
      decreases |packet| - i
    {
      if i >= |packet| {
        return None;
      }
      if packet[i] == 0 {
        return Some(i + 1);
      }
      if packet[i] >= 192 {
        return Some(i + 2);
      }
      i := i + 1 + packet[i];
    }
  }

  datatype Record = Record(kind: nat, ttl: nat, data: Bytes, end: nat)

  function RecordAt(packet: Bytes, i: nat): (r: Option<Record>)
    ensures r.Some? ==> i < r.value.end <= |packet| && r.value.ttl <= NO_TTL
  {
    var j := Skip(packet, i);
    if j.None? || j.value + 10 > |packet| then None
    else
      var at := j.value;
      var len := FromBytes(packet[at + 8..at + 10]);
      if at + 10 + len > |packet| then None
      else
        assert Pow256(4) == U32;
        Some(Record(FromBytes(packet[at..at + 2]), FromBytes(packet[at + 4..at + 8]),
                    packet[at + 10..at + 10 + len], at + 10 + len))
  }

  /** The address a record carries, if it is of a kind that carries one. */
  function AddressOf(r: Record): Option<Ip> {
    if r.kind == QTYPE_A && |r.data| == 4 then Some(Ip(true, FromBytes(r.data)))
    else if r.kind == QTYPE_AAAA && |r.data| == 16 then Some(Ip(false, FromBytes(r.data)))
    else None
  }

  function SkipQuestions(packet: Bytes, i: nat, n: nat): Option<nat>
    decreases n
  {
    if n == 0 then Some(i)
    else
      var j := Skip(packet, i);
      if j.None? then None else SkipQuestions(packet, j.value + 4, n - 1)
  }

  function Records(packet: Bytes, i: nat, n: nat): Option<seq<Record>>
    decreases n
  {
    if n == 0 then Some([])
    else
      var r := RecordAt(packet, i);
      if r.None? then None
      else
        var rest := Records(packet, r.value.end, n - 1);
        if rest.None? then None else Some([r.value] + rest.value)
  }

  function AddressesOf(rs: seq<Record>): seq<Ip> {
    if rs == [] then []
    else (if AddressOf(rs[0]).Some? then [AddressOf(rs[0]).value] else []) + AddressesOf(rs[1..])
  }

  /** The least life of the records with an address. */
  function LeastTtl(rs: seq<Record>): nat {
    if rs == [] then NO_TTL
    else if AddressOf(rs[0]).Some? then Min(rs[0].ttl, LeastTtl(rs[1..])) else LeastTtl(rs[1..])
  }

  function AllRecords(packet: Bytes): Option<seq<Record>> {
    var qd, an := U16At(packet, 4), U16At(packet, 6);
    if qd.None? || an.None? then None
    else
      var i := SkipQuestions(packet, HEADER, qd.value);
      if i.None? then None else Records(packet, i.value, an.value)
  }

  function Answers(packet: Bytes): Option<(seq<Ip>, nat)> {
    var rs := AllRecords(packet);
    if rs.None? then None else Some((AddressesOf(rs.value), LeastTtl(rs.value)))
  }

  /** What is known once some records were read into `ips` and `ttl`. */
  ghost function Resume(ips: seq<Ip>, ttl: nat, rest: Option<seq<Record>>): Option<(seq<Ip>, nat)> {
    if rest.None? then None
    else Some((ips + AddressesOf(rest.value), Min(ttl, LeastTtl(rest.value))))
  }

  lemma ResumeStep(packet: Bytes, i: nat, n: nat, ips: seq<Ip>, ttl: nat)
    requires n > 0
    ensures
      var r := RecordAt(packet, i);
      Resume(ips, ttl, Records(packet, i, n)) ==
        if r.None? then None
        else if AddressOf(r.value).Some?
        then Resume(ips + [AddressOf(r.value).value], Min(ttl, r.value.ttl), Records(packet, r.value.end, n - 1))
        else Resume(ips, ttl, Records(packet, r.value.end, n - 1))
  {
    var r := RecordAt(packet, i);
    if r.Some? {
      var rest := Records(packet, r.value.end, n - 1);
      if rest.Some? {
        ResumeMore(r.value, rest.value, ips, ttl);
      }
    }
  }

  lemma ResumeMore(r: Record, rest: seq<Record>, ips: seq<Ip>, ttl: nat)
    ensures Resume(ips, ttl, Some([r] + rest)) ==
      if AddressOf(r).Some? then Resume(ips + [AddressOf(r).value], Min(ttl, r.ttl), Some(rest))
      else Resume(ips, ttl, Some(rest))
  {
    assert ([r] + rest)[1..] == rest;
    if AddressOf(r).Some? {
      var ip := AddressOf(r).value;
      assert ips + ([ip] + AddressesOf(rest)) == ips + [ip] + AddressesOf(rest);
    } else {
      assert [] + AddressesOf(rest) == AddressesOf(rest);
    }
  }

  method ReadRecord(packet: Bytes, from: nat) returns (r: Option<Record>)
    ensures r == RecordAt(packet, from)
  {
    var at := SkipName(packet, from);
    if at.None? {
      return None;
    }
    var i := at.value;
    var kind := U16At(packet, i);
    if kind.None? || i + 8 > |packet| {
      return None;
    }
    var ttl := FromBytes(packet[i + 4..i + 8]);
    var len := U16At(packet, i + 8);
    if len.None? || i + 10 + len.value > |packet| {
      return None;
    }
    return Some(Record(kind.value, ttl, packet[i + 10..i + 10 + len.value], i + 10 + len.value));
  }

  method PassQuestions(packet: Bytes, count: nat) returns (r: Option<nat>)
    ensures r == SkipQuestions(packet, HEADER, count)
  {
    var i: nat := HEADER;
    for k := 0 to count
      invariant SkipQuestions(packet, HEADER, count) == SkipQuestions(packet, i, count - k)
    {
      var j := SkipName(packet, i);
      if j.None? {
        return None;
      }
      i := j.value + 4;
    }
    return Some(i);
  }

  method ReadAnswers(packet: Bytes, from: nat, count: nat) returns (r: Option<(seq<Ip>, nat)>)
    ensures r == Resume([], NO_TTL, Records(packet, from, count))
  {
    var i := from;
    var ips: seq<Ip> := [];
    var ttl: nat := NO_TTL;
    ghost var all := Resume([], NO_TTL, Records(packet, i, count));
    for k := 0 to count
      invariant ttl <= NO_TTL
      invariant Resume(ips, ttl, Records(packet, i, count - k)) == all
    {
      ResumeStep(packet, i, count - k, ips, ttl);
      var r := ReadRecord(packet, i);
      if r.None? {
        return None;
      }
      var ip := AddressOf(r.value);
      if ip.Some? {
        ips := ips + [ip.value];
        ttl := Min(ttl, r.value.ttl);
      }
      i := r.value.end;
    }
    assert ips + AddressesOf([]) == ips;
    return Some((ips, ttl));
  }

  method ParseAnswers(packet: Bytes) returns (r: Option<(seq<Ip>, nat)>)
    ensures r == Answers(packet)
  {
    var qd, an := U16At(packet, 4), U16At(packet, 6);
    if qd.None? || an.None? {
      return None;
    }
    var i := PassQuestions(packet, qd.value);
    if i.None? {
      return None;
    }
    ResumeAll(packet);
    r := ReadAnswers(packet, i.value, an.value);
  }

  lemma ResumeAll(packet: Bytes)
    ensures Answers(packet) == Resume([], NO_TTL, AllRecords(packet))
  {
    if AllRecords(packet).Some? {
      LeastAtMost(AllRecords(packet).value);
      assert [] + AddressesOf(AllRecords(packet).value) == AddressesOf(AllRecords(packet).value);
    }
  }

  lemma {:induction false} LeastAtMost(rs: seq<Record>)
    ensures LeastTtl(rs) <= NO_TTL
  {
    if rs != [] {
      LeastAtMost(rs[1..]);
    }
  }

  // ----- a made-up reply is read back

  /** `out` begins like `query`, up to `end` and but for the header's counts and flags. */
  ghost predicate KeepsQuestion(query: Bytes, out: Bytes, end: nat) {
    && HEADER <= end <= |query| && end <= |out|
    && out[..2] == query[..2] && out[4..6] == query[4..6]
    && forall k :: HEADER <= k < end ==> out[k] == query[k]
  }

  /** The name that ends at `end` reads the same in both. */
  ghost predicate SameName(query: Bytes, out: Bytes, i: nat, name: Bytes, end: nat) {
    && NameAt(query, i, name).Some? && NameAt(query, i, name).value.1 == end
    && NameAt(out, i, name) == NameAt(query, i, name) && Skip(out, i) == Some(end)
  }

  lemma {:induction false} NameKept(query: Bytes, out: Bytes, i: nat, name: Bytes, end: nat)
    requires NameAt(query, i, name).Some? && NameAt(query, i, name).value.1 == end <= |out|
    requires forall k :: i <= k < end ==> out[k] == query[k]
    ensures SameName(query, out, i, name, end)
    decreases |query| - i
  {
    NameStops(query, i, name);
    NameStops(out, i, name);
    assert out[i] == query[i];
    if query[i] != 0 {
      var j := i + 1 + query[i];
      var text := query[i + 1..j];
      NameStep(query, i, name, text);
      var next := Dotted(name, LowerAll(text));
      NameKept(query, out, j, next, end);
      SameLabel(query, out, i, text);
      LabelKept(query, out, i, name, text, next, end);
    }
  }

  lemma LabelKept(query: Bytes, out: Bytes, i: nat, name: Bytes, text: Bytes, next: Bytes, end: nat)
    requires LabelAt(query, i, text) && NameAt(query, i, name) == NameAt(query, i + 1 + |text|, next)
    requires |name| + |text| <= 253 && next == Dotted(name, LowerAll(text)) && i + 1 + |text| <= end <= |out|
    requires SameName(query, out, i + 1 + |text|, next, end)
    requires LabelAt(out, i, text)
    ensures SameName(query, out, i, name, end)
  {
    NameStep(out, i, name, text);
  }

  lemma SameLabel(query: Bytes, out: Bytes, i: nat, text: Bytes)
    requires LabelAt(query, i, text) && i + 1 + |text| <= |out|
    requires forall k :: i <= k < i + 1 + |text| ==> out[k] == query[k]
    ensures LabelAt(out, i, text)
  {
    assert out[i + 1..i + 1 + |text|] == query[i + 1..i + 1 + |text|];
  }

  lemma QuestionKept(query: Bytes, out: Bytes, end: nat)
    requires QuestionOf(query).Some? && QuestionOf(query).value.end == end
    requires KeepsQuestion(query, out, end) && U16At(query, 4) == Some(1)
    ensures QuestionOf(out) == QuestionOf(query)
    ensures U16At(out, 4) == Some(1) && SkipQuestions(out, HEADER, 1) == Some(end)
  {
    var e := NameAt(query, HEADER, []).value.1;
    NameKept(query, out, HEADER, [], e);
    assert out[e] == query[e] && out[e + 1] == query[e + 1];
    assert out[e..e + 2] == query[e..e + 2];
    OneQuestion(out, HEADER, e);
  }

  lemma OneQuestion(out: Bytes, i: nat, e: nat)
    requires Skip(out, i) == Some(e)
    ensures SkipQuestions(out, i, 1) == Some(e + 4)
  {
    assert SkipQuestions(out, e + 4, 0) == Some(e + 4);
  }

  lemma EmptyKeeps(query: Bytes, end: nat, rcode: byte, tail: Bytes, count: byte)
    requires rcode < 128 && HEADER <= end <= |query|
    ensures
      var out := Empty(query, end, rcode)[7 := count] + tail;
      && |out| == end + |tail| && KeepsQuestion(query, out, end) && Has(out, end, tail)
      && U16At(out, 6) == Some(count as nat) && out[3] == 0x80 + rcode
  {
    var out := Empty(query, end, rcode)[7 := count] + tail;
    assert out[..2] == query[..2];
    assert out[4] == query[4] && out[5] == query[5];
    assert out[6..8] == [0, count];
    assert [0, count][..1] == [0];
    assert FromBytes([0]) == 0 by {
      assert [0][..0] == [];
    }
  }

  lemma OctetsBack(ip: Ip)
    requires InFamily(ip.v4, ip.addr)
    ensures FromBytes(Octets(ip)) == ip.addr
  {
    var n: nat := if ip.v4 then 4 else 16;
    OctetPowers(n);
    FromTo(ip.addr, n);
  }

  lemma {:induction false} OctetPowers(n: nat)
    ensures Pow256(n) == Pow2(8 * n)
  {
    if n > 0 {
      OctetPowers(n - 1);
      Pow2Add(8 * (n - 1), 8);
      assert Pow2(8) == 256;
    }
  }

  /** An address record is read back. */
  lemma RecordBack(out: Bytes, i: nat, ip: Ip, ttl: nat)
    requires Has(out, i, AddressRecord(ip, ttl)) && ttl < U32 && InFamily(ip.v4, ip.addr)
    ensures
      var kind := if ip.v4 then QTYPE_A else QTYPE_AAAA;
      RecordAt(out, i) == Some(Record(kind, ttl, Octets(ip), i + |AddressRecord(ip, ttl)|))
  {
    var kind := if ip.v4 then QTYPE_A else QTYPE_AAAA;
    var len := |Octets(ip)|;
    var record := AddressRecord(ip, ttl);
    HasFirst(out, i, record);
    SliceOf(out, i, record, 2, ToBytes(kind, 2));
    SliceOf(out, i, record, 6, ToBytes(ttl, 4));
    SliceOf(out, i, record, 10, [0, len as byte]);
    SliceOf(out, i, record, 12, Octets(ip));
    TwoBytes(kind);
    FourBytes(ttl);
    OctetsBack(ip);
    Small(len as byte);
  }

  lemma SliceOf(out: Bytes, i: nat, whole: Bytes, at: nat, part: Bytes)
    requires Has(out, i, whole) && at + |part| <= |whole| && whole[at..at + |part|] == part
    ensures i + at + |part| <= |out| && out[i + at..i + at + |part|] == part
  {
    forall k | 0 <= k < |part|
      ensures out[i + at + k] == part[k]
    {
      assert out[i + (at + k)] == whole[at + k] == whole[at..at + |part|][k];
    }
  }

  lemma FourBytes(v: nat)
    requires v < U32
    ensures FromBytes(ToBytes(v, 4)) == v
  {
    assert Pow256(4) == U32;
    FromTo(v, 4);
  }

  lemma Small(b: byte)
    ensures FromBytes([0, b]) == b
  {
    assert [0, b][..1] == [0] && [0][..0] == [];
    assert FromBytes([0]) == 0;
  }

  /** Every complete one-question query the engine accepts: the made-up answer is a reply
      to that question, under the same id, and gives exactly the address and its life. */
  lemma AnswerRoundTrip(query: Bytes, ip: Ip, ttl: nat)
    requires QuestionOf(query).Some? && QuestionOf(query).value.end <= |query|
    requires U16At(query, 4) == Some(1)
    requires InFamily(ip.v4, ip.addr) && ttl < U32
    ensures
      var out := WithIp(query, QuestionOf(query).value.end, ip, ttl);
      && Answers(out) == Some(([ip], ttl))
      && |out| >= 4 && out[..2] == query[..2] && out[3] == 0x80 && QuestionOf(out) == QuestionOf(query)
  {
    var end := QuestionOf(query).value.end;
    var record := AddressRecord(ip, ttl);
    var out := WithIp(query, end, ip, ttl);
    EmptyKeeps(query, end, 0, record, 1);
    QuestionKept(query, out, end);
    RecordBack(out, end, ip, ttl);
    OctetsBack(ip);
    OneAnswer(out, end, ip);
  }

  lemma OneAnswer(out: Bytes, i: nat, ip: Ip)
    requires U16At(out, 4) == U16At(out, 6) == Some(1) && SkipQuestions(out, HEADER, 1) == Some(i)
    requires RecordAt(out, i).Some? && AddressOf(RecordAt(out, i).value) == Some(ip)
    ensures Answers(out) == Some(([ip], RecordAt(out, i).value.ttl))
  {
    var r := RecordAt(out, i).value;
    assert Records(out, r.end, 0) == Some([]);
    assert [r] + [] == [r];
    assert Records(out, i, 1) == Some([r]);
    assert [r][1..] == [];
    assert AddressesOf([r]) == [ip] + AddressesOf([]) == [ip];
    assert LeastTtl([r]) == Min(r.ttl, LeastTtl([])) == r.ttl;
  }

  /** A refusal, or an empty answer, carries no address. */
  lemma EmptyRoundTrip(query: Bytes, rcode: byte)
    requires rcode < 16
    requires QuestionOf(query).Some? && QuestionOf(query).value.end <= |query|
    requires U16At(query, 4) == Some(1)
    ensures
      var out := Empty(query, QuestionOf(query).value.end, rcode);
      && Answers(out) == Some(([], NO_TTL))
      && |out| >= 4 && out[..2] == query[..2] && out[3] == 0x80 + rcode && QuestionOf(out) == QuestionOf(query)
  {
    var end := QuestionOf(query).value.end;
    var out := Empty(query, end, rcode);
    EmptyKeeps(query, end, rcode, [], 0);
    assert out[7 := 0] + [] == out;
    QuestionKept(query, out, end);
    assert Records(out, end, 0) == Some([]);
  }

  /** A reply with a life below `u32::MAX` carries an address. */
  lemma {:induction false} TtlMeansAddress(rs: seq<Record>)
    ensures LeastTtl(rs) != NO_TTL ==> AddressesOf(rs) != []
    ensures forall r :: r in rs && AddressOf(r).Some? ==> LeastTtl(rs) <= r.ttl && AddressOf(r).value in AddressesOf(rs)
  {
    if rs != [] {
      TtlMeansAddress(rs[1..]);
    }
  }
}
