/** Messages as a server writes them, with any records, and what is read of them. */
module DnsRecords {
  import opened Common
  import opened Words
  import opened BigEndian
  import opened Addresses
  import opened DnsMessage
  import opened DnsReply

  // ----- messages

  /** Labels, and then the end, or the two bytes of a pointer to the rest (section 4.1.4 of
      RFC 1035).  The reader takes any length below 192 for that of a label. */
  datatype WireName = WireName(labels: seq<Bytes>, pointer: Bytes)
  {
    ghost predicate Valid() {
      && (forall k :: 0 <= k < |labels| ==> 0 < |labels[k]| < 192)
      && (pointer == [] || (|pointer| == 2 && pointer[0] >= 192))
    }

    function Bytes(): Bytes
      requires Valid()
    {
      LabelBytes(labels) + if pointer == [] then [0] else pointer
    }
  }

  function LabelBytes(labels: seq<Bytes>): Bytes
    requires forall k :: 0 <= k < |labels| ==> |labels[k]| < 192
  {
    if labels == [] then [] else [|labels[0]| as byte] + labels[0] + LabelBytes(labels[1..])
  }

  /** What a record holds: an IPv4 or IPv6 address, or anything else. */
  datatype Payload = V4(addr: nat) | V6(addr: nat) | Other(kind: nat, data: Bytes)
  {
    ghost predicate Valid() {
      match this
      case V4(addr) => InFamily(true, addr)
      case V6(addr) => InFamily(false, addr)
      case Other(kind, data) =>
        && kind < 0x1_0000 && |data| < 0x1_0000
        && (kind == 1 ==> |data| != 4) && (kind == 28 ==> |data| != 16)
    }

    function Kind(): nat {
      match this
      case V4(_) => 1
      case V6(_) => 28
      case Other(kind, _) => kind
    }

    function Data(): Bytes {
      match this
      case V4(addr) => ToBytes(addr, 4)
      case V6(addr) => ToBytes(addr, 16)
      case Other(_, data) => data
    }
  }

  datatype Written = Written(name: WireName, cls: Bytes, ttl: nat, payload: Payload)
  {
    ghost predicate Valid() {
      name.Valid() && |cls| == 2 && ttl < U32 && payload.Valid()
    }

    /** Type, class, life and length. */
    function Fixed(): (b: Bytes)
      requires |cls| == 2
      ensures |b| == 10
    {
      ToBytes(payload.Kind(), 2) + cls + ToBytes(ttl, 4) + ToBytes(|payload.Data()|, 2)
    }

    function Bytes(): Bytes
      requires Valid()
    {
      name.Bytes() + (Fixed() + payload.Data())
    }
  }

  /** A question: a name, its type and class. */
  datatype Asked = Asked(name: WireName, rest: Bytes)
  {
    ghost predicate Valid() {
      name.Valid() && |rest| == 4
    }

    function Bytes(): Bytes
      requires Valid()
    {
      name.Bytes() + rest
    }
  }

  ghost predicate AllWritten(rs: seq<Written>) {
    forall k :: 0 <= k < |rs| ==> rs[k].Valid()
  }

  ghost predicate AllAsked(qs: seq<Asked>) {
    forall k :: 0 <= k < |qs| ==> qs[k].Valid()
  }

  function RecordsBytes(rs: seq<Written>): Bytes
    requires AllWritten(rs)
  {
    if rs == [] then [] else rs[0].Bytes() + RecordsBytes(rs[1..])
  }

  function QuestionsBytes(qs: seq<Asked>): Bytes
    requires AllAsked(qs)
  {
    if qs == [] then [] else qs[0].Bytes() + QuestionsBytes(qs[1..])
  }

  /** Id and flags, the counts, the questions and the records; what follows is not read. */
  function Message(front: Bytes, qs: seq<Asked>, rs: seq<Written>, back: Bytes, tail: Bytes): Bytes
    requires AllAsked(qs) && AllWritten(rs)
  {
    front + (ToBytes(|qs|, 2) + (ToBytes(|rs|, 2) + (back + (QuestionsBytes(qs) + (RecordsBytes(rs) + tail)))))
  }

  // ----- what the records give

  /** The addresses, in order. */
  function Given(rs: seq<Written>): seq<Ip> {
    if rs == [] then []
    else
      (match rs[0].payload
       case V4(addr) => [Ip(true, addr)]
       case V6(addr) => [Ip(false, addr)]
       case Other(_, _) => [])
      + Given(rs[1..])
  }

  /** The least life of a record that gives an address; if none does, the largest number. */
  ghost predicate IsLeast(t: nat, rs: seq<Written>) {
    && (forall k :: 0 <= k < |rs| && !rs[k].payload.Other? ==> t <= rs[k].ttl)
    && (t == 0xFFFF_FFFF || exists k :: 0 <= k < |rs| && !rs[k].payload.Other? && rs[k].ttl == t)
    && t <= 0xFFFF_FFFF
  }

  // ----- reading back

  lemma {:induction false} LabelsSkipped(packet: Bytes, i: nat, labels: seq<Bytes>)
    requires (forall k :: 0 <= k < |labels| ==> 0 < |labels[k]| < 192) && Has(packet, i, LabelBytes(labels))
    ensures Skip(packet, i) == Skip(packet, i + |LabelBytes(labels)|)
    decreases |labels|
  {
    if labels != [] {
      HasParts(packet, i, [|labels[0]| as byte] + labels[0], LabelBytes(labels[1..]));
      HasParts(packet, i, [|labels[0]| as byte], labels[0]);
      HasFirst(packet, i, [|labels[0]| as byte]);
      LabelsSkipped(packet, i + 1 + |labels[0]|, labels[1..]);
    }
  }

  /** A name is passed over whole, compressed or not. */
  lemma NameSkipped(packet: Bytes, i: nat, name: WireName)
    requires name.Valid() && Has(packet, i, name.Bytes())
    ensures Skip(packet, i) == Some(i + |name.Bytes()|)
  {
    var end: Bytes := if name.pointer == [] then [0] else name.pointer;
    HasParts(packet, i, LabelBytes(name.labels), end);
    LabelsSkipped(packet, i, name.labels);
    HasFirst(packet, i + |LabelBytes(name.labels)|, end);
  }

  lemma {:induction false} QuestionsSkipped(packet: Bytes, i: nat, qs: seq<Asked>)
    requires AllAsked(qs) && Has(packet, i, QuestionsBytes(qs))
    ensures SkipQuestions(packet, i, |qs|) == Some(i + |QuestionsBytes(qs)|)
    decreases |qs|
  {
    if qs != [] {
      var q := qs[0];
      HasParts(packet, i, q.Bytes(), QuestionsBytes(qs[1..]));
      HasParts(packet, i, q.name.Bytes(), q.rest);
      NameSkipped(packet, i, q.name);
      QuestionsSkipped(packet, i + |q.Bytes()|, qs[1..]);
    }
  }

  lemma FixedRead(packet: Bytes, at: nat, r: Written)
    requires r.Valid() && Has(packet, at, r.Fixed() + r.payload.Data())
    ensures at + 10 + |r.payload.Data()| <= |packet|
    ensures FromBytes(packet[at..at + 2]) == r.payload.Kind()
    ensures FromBytes(packet[at + 4..at + 8]) == r.ttl
    ensures FromBytes(packet[at + 8..at + 10]) == |r.payload.Data()|
    ensures packet[at + 10..at + 10 + |r.payload.Data()|] == r.payload.Data()
  {
    var whole, kind, len := r.Fixed() + r.payload.Data(), ToBytes(r.payload.Kind(), 2), ToBytes(|r.payload.Data()|, 2);
    SliceOf(packet, at, whole, 0, kind);
    SliceOf(packet, at, whole, 4, ToBytes(r.ttl, 4));
    SliceOf(packet, at, whole, 8, len);
    SliceOf(packet, at, whole, 10, r.payload.Data());
    TwoBytes(r.payload.Kind());
    FourBytes(r.ttl);
    TwoBytes(|r.payload.Data()|);
  }

  /** The record at place `i` reads as it was written. */
  ghost predicate ReadsBack(packet: Bytes, i: nat, r: Written)
    requires r.Valid()
  {
    RecordAt(packet, i) == Some(Record(r.payload.Kind(), r.ttl, r.payload.Data(), i + |r.Bytes()|))
  }

  lemma WrittenRead(packet: Bytes, i: nat, r: Written)
    requires r.Valid() && Has(packet, i, r.Bytes())
    ensures ReadsBack(packet, i, r)
  {
    var at := i + |r.name.Bytes()|;
    HasParts(packet, i, r.name.Bytes(), r.Fixed() + r.payload.Data());
    NameSkipped(packet, i, r.name);
    BehindName(packet, i, at, r, i + |r.Bytes()|);
  }

  lemma BehindName(packet: Bytes, i: nat, at: nat, r: Written, end: nat)
    requires r.Valid() && Has(packet, at, r.Fixed() + r.payload.Data())
    requires Skip(packet, i) == Some(at) && end == at + 10 + |r.payload.Data()|
    ensures RecordAt(packet, i) == Some(Record(r.payload.Kind(), r.ttl, r.payload.Data(), end))
  {
    FixedRead(packet, at, r);
    RecordIs(packet, i, at, r.payload.Kind(), r.ttl, r.payload.Data(), end);
  }

  lemma RecordIs(packet: Bytes, i: nat, at: nat, kind: nat, ttl: nat, data: Bytes, end: nat)
    requires Skip(packet, i) == Some(at) && end == at + 10 + |data| <= |packet|
    requires FromBytes(packet[at..at + 2]) == kind && FromBytes(packet[at + 4..at + 8]) == ttl
    requires FromBytes(packet[at + 8..at + 10]) == |data| && packet[at + 10..at + 10 + |data|] == data
    ensures RecordAt(packet, i) == Some(Record(kind, ttl, data, end))
  {}

  /** What a record is read as gives what it was written with. */
  lemma PayloadRead(p: Payload, ttl: nat, end: nat)
    requires p.Valid()
    ensures AddressOf(Record(p.Kind(), ttl, p.Data(), end)) ==
      if p.Other? then None else Some(Ip(p.V4?, p.addr))
  {
    match p
    case V4(addr) => OctetsBack(Ip(true, addr));
    case V6(addr) => OctetsBack(Ip(false, addr));
    case Other(_, _) =>
  }

  lemma LeastMore(t: nat, r: Written, rest: seq<Written>)
    requires r.ttl < U32 && IsLeast(t, rest)
    ensures IsLeast(if r.payload.Other? then t else Min(r.ttl, t), [r] + rest)
  {
    var all := [r] + rest;
    assert all[0] == r && forall k :: 0 <= k < |rest| ==> all[k + 1] == rest[k];
    if k :| 0 <= k < |rest| && !rest[k].payload.Other? && rest[k].ttl == t {
      assert !all[k + 1].payload.Other? && all[k + 1].ttl == t;
    }
  }

  /** What is found among the records from place `i` on. */
  ghost predicate ReadAs(packet: Bytes, i: nat, rs: seq<Written>, read: seq<Record>) {
    && RecordsAre(packet, i, |rs|, read)
    && AddressesOf(read) == Given(rs) && IsLeast(LeastTtl(read), rs)
  }

  lemma RestRead(packet: Bytes, i: nat, rs: seq<Written>, end: nat, more: seq<Record>) returns (read: seq<Record>)
    requires AllWritten(rs) && rs != [] && ReadsBack(packet, i, rs[0]) && end == i + |rs[0].Bytes()|
    requires ReadAs(packet, end, rs[1..], more)
    ensures ReadAs(packet, i, rs, read)
  {
    var r, rest := rs[0], rs[1..];
    read := OneMoreRead(packet, i, r, rest, end, more);
    assert rs == [r] + rest;
  }

  lemma FirstReadsBack(packet: Bytes, i: nat, rs: seq<Written>) returns (end: nat)
    requires AllWritten(rs) && rs != [] && Has(packet, i, RecordsBytes(rs))
    ensures ReadsBack(packet, i, rs[0]) && end == i + |rs[0].Bytes()|
    ensures AllWritten(rs[1..]) && Has(packet, end, RecordsBytes(rs[1..]))
  {
    end := i + |rs[0].Bytes()|;
    HasParts(packet, i, rs[0].Bytes(), RecordsBytes(rs[1..]));
    WrittenRead(packet, i, rs[0]);
  }

  lemma {:induction false} WrittensRead(packet: Bytes, i: nat, rs: seq<Written>) returns (read: seq<Record>)
    requires AllWritten(rs) && Has(packet, i, RecordsBytes(rs))
    ensures ReadAs(packet, i, rs, read)
    decreases |rs|
  {
    if rs == [] {
      read := [];
    } else {
      var end := FirstReadsBack(packet, i, rs);
      var more := WrittensRead(packet, end, rs[1..]);
      read := RestRead(packet, i, rs, end, more);
    }
  }

  lemma OneMoreRead(packet: Bytes, i: nat, r: Written, rest: seq<Written>, end: nat, more: seq<Record>)
    returns (read: seq<Record>)
    requires r.payload.Valid() && r.ttl < U32 && ReadAs(packet, end, rest, more)
    requires RecordAt(packet, i) == Some(Record(r.payload.Kind(), r.ttl, r.payload.Data(), end))
    ensures ReadAs(packet, i, [r] + rest, read)
  {
    var first := Record(r.payload.Kind(), r.ttl, r.payload.Data(), end);
    read := [first] + more;
    FirstGives(r, rest, first);
    LeastMore(LeastTtl(more), r, rest);
    FirstRead(first, more);
    RecordsMore(packet, i, |rest| + 1, first, more);
  }

  lemma GivenMore(r: Written, rest: seq<Written>)
    ensures Given([r] + rest) ==
      (match r.payload
       case V4(addr) => [Ip(true, addr)]
       case V6(addr) => [Ip(false, addr)]
       case Other(_, _) => [])
      + Given(rest)
  {
    assert ([r] + rest)[1..] == rest;
  }

  lemma FirstGives(r: Written, rest: seq<Written>, first: Record)
    requires r.payload.Valid() && first == Record(r.payload.Kind(), r.ttl, r.payload.Data(), first.end)
    ensures AddressOf(first).None? <==> r.payload.Other?
    ensures Given([r] + rest) == (if AddressOf(first).Some? then [AddressOf(first).value] else []) + Given(rest)
  {
    PayloadRead(r.payload, r.ttl, first.end);
    GivenMore(r, rest);
  }

  lemma FirstRead(first: Record, more: seq<Record>)
    ensures AddressesOf([first] + more) ==
      (if AddressOf(first).Some? then [AddressOf(first).value] else []) + AddressesOf(more)
    ensures LeastTtl([first] + more)
      == if AddressOf(first).Some? then Min(first.ttl, LeastTtl(more)) else LeastTtl(more)
  {
    assert ([first] + more)[1..] == more;
  }

  ghost predicate RecordsAre(packet: Bytes, i: nat, n: nat, read: seq<Record>) {
    Records(packet, i, n) == Some(read)
  }

  lemma RecordsMore(packet: Bytes, i: nat, n: nat, first: Record, more: seq<Record>)
    requires n > 0 && RecordAt(packet, i) == Some(first) && RecordsAre(packet, first.end, n - 1, more)
    ensures RecordsAre(packet, i, n, [first] + more)
  {}

  lemma CountsRead(front: Bytes, qd: nat, an: nat, rest: Bytes)
    requires |front| == 4 && qd < 0x1_0000 && an < 0x1_0000
    ensures
      var m := front + (ToBytes(qd, 2) + (ToBytes(an, 2) + rest));
      U16At(m, 4) == Some(qd) && U16At(m, 6) == Some(an) && |m| >= 8 && m[8..] == rest
  {
    var m := front + (ToBytes(qd, 2) + (ToBytes(an, 2) + rest));
    Behind(front, ToBytes(qd, 2), ToBytes(an, 2), rest);
    TwoBytes(qd);
    TwoBytes(an);
  }

  lemma Behind(a: Bytes, b: Bytes, c: Bytes, rest: Bytes)
    ensures
      var m, i, j, k := a + (b + (c + rest)), |a|, |a| + |b|, |a| + |b| + |c|;
      |m| >= k && m[i..j] == b && m[j..k] == c && m[k..] == rest
  {}

  lemma BodyHas(m: Bytes, back: Bytes, a: Bytes, b: Bytes, tail: Bytes)
    requires |back| == 4 && |m| >= 8 && m[8..] == back + (a + (b + tail))
    ensures Has(m, 12, a) && Has(m, 12 + |a|, b)
  {
    var rest := back + (a + (b + tail));
    assert Has(m, 8, rest) by {
      forall k | 0 <= k < |rest|
        ensures m[8 + k] == rest[k]
      {
        assert m[8..][k] == m[8 + k];
      }
    }
    HasParts(m, 8, back, a + (b + tail));
    HasParts(m, 12, a, b + tail);
    HasParts(m, 12 + |a|, b, tail);
  }

  /** Whatever a message holds: what is read are exactly the addresses of its A and AAAA
      records, in order, and the least of exactly their lives. */
  lemma MessageRead(front: Bytes, qs: seq<Asked>, rs: seq<Written>, back: Bytes, tail: Bytes) returns (t: nat)
    requires AllAsked(qs) && AllWritten(rs) && |front| == |back| == 4 && |qs| < 0x1_0000 && |rs| < 0x1_0000
    ensures Answers(Message(front, qs, rs, back, tail)) == Some((Given(rs), t)) && IsLeast(t, rs)
  {
    var m := Message(front, qs, rs, back, tail);
    var a, b := QuestionsBytes(qs), RecordsBytes(rs);
    CountsRead(front, |qs|, |rs|, back + (a + (b + tail)));
    BodyHas(m, back, a, b, tail);
    QuestionsSkipped(m, 12, qs);
    var read := WrittensRead(m, 12 + |a|, rs);
    t := LeastTtl(read);
  }

  /** An alias in front of an address: sixteen bytes of a name are no IPv6 address. */
  lemma AliasIsNoAddress(front: Bytes, alias: Written, address: Written, back: Bytes) returns (t: nat)
    requires |front| == |back| == 4 && alias.Valid() && address.Valid()
    requires alias.payload.Other? && alias.payload.kind == 5 && |alias.payload.data| == 16 && address.payload.V4?
    ensures Answers(Message(front, [], [alias, address], back, [])) == Some(([Ip(true, address.payload.addr)], t))
    ensures t == address.ttl
  {
    t := MessageRead(front, [], [alias, address], back, []);
    AliasGives(alias, address, t);
  }

  lemma AliasGives(alias: Written, address: Written, t: nat)
    requires alias.payload.Other? && address.Valid() && address.payload.V4? && IsLeast(t, [alias, address])
    ensures Given([alias, address]) == [Ip(true, address.payload.addr)] && t == address.ttl
  {
    GivenMore(address, []);
    GivenMore(alias, [address] + []);
    assert [alias] + ([address] + []) == [alias, address];
    assert [alias, address][1] == address;
  }

  // ----- messages that are cut short

  lemma {:induction false} SkipCut(packet: Bytes, i: nat, k: nat)
    requires k <= |packet|
    ensures Skip(packet[..k], i) == None || Skip(packet[..k], i) == Skip(packet, i)
    decreases |packet| - i
  {
    if i < k && packet[i] != 0 && packet[i] < 192 {
      SkipCut(packet, i + 1 + packet[i], k);
    }
  }

  lemma RecordCut(packet: Bytes, i: nat, k: nat)
    requires k <= |packet| && RecordAt(packet, i).Some?
    ensures RecordAt(packet, i).value.end > k ==> RecordAt(packet[..k], i) == None
    ensures RecordAt(packet[..k], i) == None || RecordAt(packet[..k], i) == RecordAt(packet, i)
  {
    SkipCut(packet, i, k);
    var j := Skip(packet, i).value;
    if Skip(packet[..k], i).Some? && j + 10 <= k {
      assert packet[..k][j + 8..j + 10] == packet[j + 8..j + 10];
      assert packet[..k][j..j + 2] == packet[j..j + 2];
      assert packet[..k][j + 4..j + 8] == packet[j + 4..j + 8];
      var len := FromBytes(packet[j + 8..j + 10]);
      if j + 10 + len <= k {
        assert packet[..k][j + 10..j + 10 + len] == packet[j + 10..j + 10 + len];
      }
    }
  }

  /** Where the records end. */
  function EndOf(packet: Bytes, i: nat, rs: seq<Record>): nat {
    if rs == [] then i else rs[|rs| - 1].end
  }

  ghost predicate NoRecords(packet: Bytes, i: nat, n: nat) {
    Records(packet, i, n) == None
  }

  lemma {:induction false} RecordsCut(packet: Bytes, i: nat, n: nat, k: nat)
    requires k <= |packet| && n > 0 && Records(packet, i, n).Some? && k < EndOf(packet, i, Records(packet, i, n).value)
    ensures NoRecords(packet[..k], i, n)
    decreases n
  {
    RecordCut(packet, i, k);
    RecordsLength(packet, i, n);
    var r := RecordAt(packet, i).value;
    if n > 1 && RecordAt(packet[..k], i).Some? {
      var rest := Records(packet, r.end, n - 1).value;
      RecordsLength(packet, r.end, n - 1);
      assert ([r] + rest)[n - 1] == rest[n - 2];
      RecordsCut(packet, r.end, n - 1, k);
    }
  }

  lemma {:induction false} RecordsLength(packet: Bytes, i: nat, n: nat)
    requires Records(packet, i, n).Some?
    ensures |Records(packet, i, n).value| == n
    decreases n
  {
    if n > 0 {
      RecordsLength(packet, RecordAt(packet, i).value.end, n - 1);
    }
  }

  lemma {:induction false} QuestionsCut(packet: Bytes, i: nat, n: nat, k: nat)
    requires k <= |packet|
    ensures SkipQuestions(packet[..k], i, n) == None || SkipQuestions(packet[..k], i, n) == SkipQuestions(packet, i, n)
    decreases n
  {
    if n > 0 {
      SkipCut(packet, i, k);
      var j := Skip(packet, i);
      if j.Some? {
        QuestionsCut(packet, j.value + 4, n - 1, k);
      }
    }
  }

  /** A message that is cut anywhere before the end of its records gives nothing at all. */
  lemma CutMessageFails(packet: Bytes, k: nat)
    requires k <= |packet| && AllRecords(packet).Some? && AllRecords(packet).value != []
    requires k < EndOf(packet, 0, AllRecords(packet).value)
    ensures Answers(packet[..k]) == None
  {
    if k >= 8 {
      assert packet[..k][4..6] == packet[4..6] && packet[..k][6..8] == packet[6..8];
      var qd, an := U16At(packet, 4).value, U16At(packet, 6).value;
      QuestionsCut(packet, HEADER, qd, k);
      var i := SkipQuestions(packet, HEADER, qd).value;
      RecordsCut(packet, i, an, k);
    }
  }
}
