/** The DNS message codec: questions, replies, and reading answers back. */
module DnsMessage {
  import opened Common
  import opened Words
  import opened BigEndian
  import opened Addresses

  /** `u32::MAX`: no record with an address was seen. */
  const NO_TTL: nat := 0xFFFF_FFFF
  const HEADER: nat := 12

  // ----- the question

  datatype Question = Question(name: Bytes, qtype: nat, end: nat)

  /** A name as it grows: labels are separated by dots. */
  function Dotted(name: Bytes, label': Bytes): Bytes {
    if name == [] then label' else name + [DOT] + label'
  }

  /** Labels joined by dots behind a name, in lower case. */
  function Joined(labels: seq<Bytes>, name: Bytes): Bytes {
    if labels == [] then name else Joined(labels[1..], Dotted(name, LowerAll(labels[0])))
  }

  /** The labels from place `i` on, and the place behind the empty one that ends them. */
  function Labels(packet: Bytes, i: nat): (r: Option<(seq<Bytes>, nat)>)
    ensures r.Some? ==> i < r.value.1 <= |packet|
    decreases |packet| - i
  {
    if i >= |packet| || packet[i] >= 64 || i + 1 + packet[i] > |packet| then None
    else if packet[i] == 0 then Some(([], i + 1))
    else
      var j := i + 1 + packet[i];
      var rest := Labels(packet, j);
      if rest.None? then None else Some(([packet[i + 1..j]] + rest.value.0, rest.value.1))
  }

  /** The labels may follow a name of length `n`.  The dot is not counted in the test. */
  predicate Fits(labels: seq<Bytes>, n: nat) {
    labels == [] || (n + |labels[0]| <= 253 && Fits(labels[1..], (if n == 0 then 0 else n + 1) + |labels[0]|))
  }

  /** The name from place `i` on, appended to `name`, and the place behind it. */
  function NameAt(packet: Bytes, i: nat, name: Bytes): (r: Option<(Bytes, nat)>)
    ensures r.Some? ==> i < r.value.1 <= |packet|
  {
    var r := Labels(packet, i);
    if r.Some? && Fits(r.value.0, |name|) then Some((Joined(r.value.0, name), r.value.1)) else None
  }

  /** The end of the question counts its class, which need not be there. */
  function QuestionOf(packet: Bytes): Option<Question> {
    var name := NameAt(packet, HEADER, []);
    if name.None? then None
    else
      var qtype := U16At(packet, name.value.1);
      if qtype.None? then None
      else Some(Question(name.value.0, qtype.value, name.value.1 + 4))
  }

  /** The label `text` stands at place `i`. */
  ghost predicate LabelAt(packet: Bytes, i: nat, text: Bytes) {
    && i + 1 + |text| <= |packet| && 0 < |text| < 64 && packet[i] == |text|
    && packet[i + 1..i + 1 + |text|] == text
  }

  lemma LabelsStep(packet: Bytes, i: nat, text: Bytes)
    requires LabelAt(packet, i, text)
    ensures
      var rest := Labels(packet, i + 1 + |text|);
      Labels(packet, i) == if rest.None? then None else Some(([text] + rest.value.0, rest.value.1))
  {}

  lemma NameStep(packet: Bytes, i: nat, name: Bytes, text: Bytes)
    requires LabelAt(packet, i, text)
    ensures NameAt(packet, i, name) ==
      if |name| + |text| > 253 then None else NameAt(packet, i + 1 + |text|, Dotted(name, LowerAll(text)))
  {
    LabelsStep(packet, i, text);
    var rest := Labels(packet, i + 1 + |text|);
    if rest.Some? {
      assert ([text] + rest.value.0)[1..] == rest.value.0;
    }
  }

  lemma NameGoesOn(packet: Bytes, i: nat, name: Bytes, len: nat, text: Bytes)
    requires i < |packet| && len == packet[i] && 0 < len < 64 && i + 1 + len <= |packet|
    requires text == packet[i + 1..i + 1 + len]
    ensures |name| + len > 253 ==> NameAt(packet, i, name) == None
    ensures |name| + len <= 253 ==>
      NameAt(packet, i, name) == NameAt(packet, i + 1 + len, Dotted(name, LowerAll(text)))
  {
    assert LabelAt(packet, i, text);
    NameStep(packet, i, name, text);
  }

  /** Where a name ends, or cannot go on. */
  lemma NameStops(packet: Bytes, i: nat, name: Bytes)
    ensures i >= |packet| ==> NameAt(packet, i, name) == None
    ensures i < |packet| && packet[i] == 0 ==> NameAt(packet, i, name) == Some((name, i + 1))
    ensures i < |packet| && (packet[i] >= 64 || i + 1 + packet[i] > |packet|) ==> NameAt(packet, i, name) == None
  {}

  method Longer(name: Bytes, text: Bytes) returns (r: Bytes)
    ensures r == Dotted(name, LowerAll(text))
  {
    r := name;
    if r != [] {
      r := r + [DOT];
    }
    r := r + LowerAll(text);
  }

  method ReadName(packet: Bytes, from: nat) returns (r: Option<(Bytes, nat)>)
    ensures r == NameAt(packet, from, [])
  {
    var i := from;
    var name: Bytes := [];
    ghost var whole := NameAt(packet, from, []);
    while true
      invariant NameAt(packet, i, name) == whole
      decreases |packet| - i
    {
      NameStops(packet, i, name);
      if i >= |packet| {
        return None;
      }
      var len: nat := packet[i];
      if len == 0 {
        return Some((name, i + 1));
      }
      if len >= 64 || i + 1 + len > |packet| {
        return None;
      }
      var text := packet[i + 1..i + 1 + len];
      NameGoesOn(packet, i, name, len, text);
      if |name| + len > 253 {
        return None;
      }
      name := Longer(name, text);
      i := i + 1 + len;
    }
  }

  method ParseQuestion(packet: Bytes) returns (r: Option<Question>)
    ensures r == QuestionOf(packet)
  {
    var name := ReadName(packet, HEADER);
    if name.None? {
      return None;
    }
    var qtype := U16At(packet, name.value.1);
    if qtype.None? {
      return None;
    }
    return Some(Question(name.value.0, qtype.value, name.value.1 + 4));
  }

  // ----- the query

  /** `name.split('.')`. */
  function Split(name: Bytes): (labels: seq<Bytes>)
    ensures labels != []
  {
    if name == [] then [[]]
    else
      var rest := Split(name[1..]);
      if name[0] == DOT then [[]] + rest else [[name[0]] + rest[0]] + rest[1..]
  }

  /** `name.trim_end_matches('.')`. */
  function Trimmed(name: Bytes): (r: Bytes)
    ensures |r| <= |name|
    ensures |r| == |name| ==> r == name
    ensures r != [] ==> r[|r| - 1] != DOT
  {
    if name != [] && name[|name| - 1] == DOT then Trimmed(name[..|name| - 1]) else name
  }

  /** A label holds at most 63 bytes. */
  function Cut(label': Bytes): (r: Bytes)
    ensures |r| <= 63 && |r| <= |label'| && (|r| == |label'| ==> r == label')
  {
    label'[..Min(|label'|, 63)]
  }

  function CutAll(labels: seq<Bytes>): (r: seq<Bytes>)
    ensures |r| == |labels| && forall k :: 0 <= k < |r| ==> r[k] == Cut(labels[k])
  {
    if labels == [] then [] else [Cut(labels[0])] + CutAll(labels[1..])
  }

  /** Labels as they travel, each behind its length. */
  function Wire(labels: seq<Bytes>): Bytes
    requires forall k :: 0 <= k < |labels| ==> |labels[k]| <= 63
  {
    if labels == [] then [] else [|labels[0]| as byte] + labels[0] + Wire(labels[1..])
  }

  function Query(name: Bytes, qtype: nat, id: nat): Bytes {
    ToBytes(id, 2) + [1, 0, 0, 1, 0, 0, 0, 0, 0, 0]
    + Wire(CutAll(Split(Trimmed(name)))) + [0] + ToBytes(qtype, 2) + [0, 1]
  }

  lemma WireFrom(labels: seq<Bytes>, k: nat)
    requires k < |labels|
    ensures Wire(CutAll(labels[k..])) ==
      [|Cut(labels[k])| as byte] + Cut(labels[k]) + Wire(CutAll(labels[k + 1..]))
  {
    assert labels[k..][1..] == labels[k + 1..];
    assert CutAll(labels[k..])[1..] == CutAll(labels[k + 1..]);
  }

  /** The next label goes behind `out`. */
  lemma WireStep(out: Bytes, labels: seq<Bytes>, k: nat)
    requires k < |labels|
    ensures out + Wire(CutAll(labels[k..])) ==
      out + [|Cut(labels[k])| as byte] + Cut(labels[k]) + Wire(CutAll(labels[k + 1..]))
  {
    WireFrom(labels, k);
    FourParts(out, [|Cut(labels[k])| as byte], Cut(labels[k]), Wire(CutAll(labels[k + 1..])));
  }

  lemma FourParts(a: Bytes, b: Bytes, c: Bytes, d: Bytes)
    ensures a + (b + c + d) == a + b + c + d
  {}

  method EncodeLabels(start: Bytes, labels: seq<Bytes>) returns (out: Bytes)
    ensures out == start + Wire(CutAll(labels))
  {
    out := start;
    for k := 0 to |labels|
      invariant out + Wire(CutAll(labels[k..])) == start + Wire(CutAll(labels))
    {
      var bytes := Cut(labels[k]);
      WireStep(out, labels, k);
      out := out + [|bytes| as byte] + bytes;
    }
  }

  method EncodeQuery(name: Bytes, qtype: nat, id: nat) returns (out: Bytes)
    ensures out == Query(name, qtype, id)
  {
    out := EncodeLabels(ToBytes(id, 2) + [1, 0, 0, 1, 0, 0, 0, 0, 0, 0], Split(Trimmed(name)));
    out := out + [0] + ToBytes(qtype, 2) + [0, 1];
  }

  /** The id, a query that wants recursion, one question and nothing else; then the labels of the
      name without the dots behind it, each cut to 63 bytes; the type, and class IN. */
  lemma QueryIs(name: Bytes, qtype: nat, id: nat)
    ensures
      var q := Query(name, qtype, id);
      && |q| >= 17 && q[..2] == ToBytes(id, 2) && q[2..4] == [1, 0] && q[4..6] == [0, 1]
      && q[6..12] == [0, 0, 0, 0, 0, 0] && q[12..|q| - 5] == Wire(CutAll(Split(Trimmed(name))))
      && q[|q| - 5..] == [0] + ToBytes(qtype, 2) + [0, 1]
  {
    var front, labels := ToBytes(id, 2), Wire(CutAll(Split(Trimmed(name))));
    var fixed, back: Bytes := [1, 0, 0, 1, 0, 0, 0, 0, 0, 0], [0] + ToBytes(qtype, 2) + [0, 1];
    assert Query(name, qtype, id) == front + fixed + labels + back;
    FourSlices(front, fixed, labels, back);
  }

  lemma FourSlices(front: Bytes, fixed: Bytes, labels: Bytes, back: Bytes)
    requires |front| == 2 && |fixed| == 10 && |back| == 5
    ensures
      var q := front + fixed + labels + back;
      && q[..2] == front && q[2..4] == fixed[..2] && q[4..6] == fixed[2..4] && q[6..12] == fixed[4..]
      && q[12..|q| - 5] == labels && q[|q| - 5..] == back
  {}

  // ----- the query is read back

  /** The labels before the first empty one. */
  function Taken(labels: seq<Bytes>): seq<Bytes> {
    if labels == [] || labels[0] == [] then [] else [labels[0]] + Taken(labels[1..])
  }

  ghost predicate Short(labels: seq<Bytes>) {
    forall k :: 0 <= k < |labels| ==> |labels[k]| <= 63
  }

  ghost predicate NonEmpty(labels: seq<Bytes>) {
    forall k :: 0 <= k < |labels| ==> labels[k] != []
  }

  lemma WireParts(packet: Bytes, i: nat, labels: seq<Bytes>)
    requires Short(labels) && labels != [] && Has(packet, i, Wire(labels) + [0])
    ensures Has(packet, i, [|labels[0]| as byte]) && Has(packet, i + 1, labels[0])
    ensures Has(packet, i + 1 + |labels[0]|, Wire(labels[1..]) + [0])
  {
    HasFour(packet, i, [|labels[0]| as byte], labels[0], Wire(labels[1..]), [0]);
  }

  lemma WireFirst(packet: Bytes, i: nat, labels: seq<Bytes>)
    requires Short(labels) && labels != [] && Has(packet, i, Wire(labels) + [0])
    ensures i < |packet| && packet[i] == |labels[0]|
    ensures labels[0] != [] ==> LabelAt(packet, i, labels[0])
    ensures Has(packet, i + 1 + |labels[0]|, Wire(labels[1..]) + [0])
  {
    WireParts(packet, i, labels);
    HasFirst(packet, i, [|labels[0]| as byte]);
    assert packet[i + 1..i + 1 + |labels[0]|] == labels[0];
  }

  /** A reader of the wire gets the labels before the first empty one. */
  lemma {:induction false} LabelsTaken(packet: Bytes, i: nat, labels: seq<Bytes>)
    requires Short(labels) && Has(packet, i, Wire(labels) + [0])
    ensures Labels(packet, i) == Some((Taken(labels), i + TotalLength(Taken(labels)) + 1))
    decreases |labels|
  {
    if labels == [] {
      HasFirst(packet, i, Wire(labels) + [0]);
    } else {
      WireFirst(packet, i, labels);
      if labels[0] != [] {
        LabelsTaken(packet, i + 1 + |labels[0]|, labels[1..]);
        LabelsStep(packet, i, labels[0]);
        TotalFirst(labels[0], Taken(labels[1..]));
      }
    }
  }

  /** A length of 64 or more, a pointer for one, is refused behind any labels. */
  lemma {:induction false} LongLabelRefused(packet: Bytes, i: nat, labels: seq<Bytes>, len: byte)
    requires Short(labels) && NonEmpty(labels) && len >= 64 && Has(packet, i, Wire(labels) + [len])
    ensures Labels(packet, i) == None
    ensures i == 12 ==> QuestionOf(packet) == None
    decreases |labels|
  {
    if labels == [] {
      HasFirst(packet, i, Wire(labels) + [len]);
    } else {
      HasFour(packet, i, [|labels[0]| as byte], labels[0], Wire(labels[1..]), [len]);
      HasFirst(packet, i, [|labels[0]| as byte]);
      LongLabelRefused(packet, i + 1 + |labels[0]|, labels[1..], len);
    }
  }

  lemma TotalFirst(first: Bytes, rest: seq<Bytes>)
    ensures TotalLength([first] + rest) == |first| + 1 + TotalLength(rest)
  {
    assert ([first] + rest)[1..] == rest;
  }

  lemma {:induction false} WireLength(labels: seq<Bytes>)
    requires Short(labels)
    ensures |Wire(labels)| == TotalLength(labels)
  {
    if labels != [] {
      WireLength(labels[1..]);
    }
  }

  /** An empty label ends the name before its time. */
  lemma {:induction false} TakenIs(labels: seq<Bytes>)
    ensures NonEmpty(labels) ==> Taken(labels) == labels
    ensures !NonEmpty(labels) ==> TotalLength(Taken(labels)) < TotalLength(labels)
  {
    if labels != [] && labels[0] != [] {
      TakenIs(labels[1..]);
      TotalFirst(labels[0], Taken(labels[1..]));
      assert labels == [labels[0]] + labels[1..];
      if NonEmpty(labels[1..]) {
        assert NonEmpty(labels);
      }
    }
  }

  /** The length test comes down to the whole name being at most 254 bytes. */
  lemma {:induction false} FitsIs(labels: seq<Bytes>, name: Bytes)
    requires Short(labels) && NonEmpty(labels)
    ensures |Joined(labels, name)| >= |name|
    ensures labels != [] && name != [] ==> |Joined(labels, name)| >= |name| + 2
    ensures Fits(labels, |name|) <==> (labels == [] || |Joined(labels, name)| <= 254)
  {
    if labels != [] {
      FitsIs(labels[1..], Dotted(name, LowerAll(labels[0])));
    }
  }

  lemma {:induction false} JoinedAppends(labels: seq<Bytes>, name: Bytes)
    requires name != [] && labels != []
    ensures Joined(labels, name) == name + [DOT] + Joined(labels[1..], LowerAll(labels[0]))
      || labels[0] == []
  {
    if labels[0] != [] {
      JoinedBehind(labels[1..], LowerAll(labels[0]), name + [DOT]);
    }
  }

  lemma {:induction false} JoinedBehind(labels: seq<Bytes>, name: Bytes, front: Bytes)
    requires name != []
    ensures Joined(labels, front + name) == front + Joined(labels, name)
    decreases |labels|
  {
    if labels != [] {
      var next := Dotted(name, LowerAll(labels[0]));
      assert Dotted(front + name, LowerAll(labels[0])) == front + next;
      JoinedBehind(labels[1..], next, front);
    }
  }

  lemma {:induction false} LowerAppends(a: Bytes, b: Bytes)
    ensures LowerAll(a + b) == LowerAll(a) + LowerAll(b)
  {}

  /** Joining the labels of a name gives the name back. */
  lemma {:induction false} JoinedSplit(name: Bytes)
    requires NonEmpty(Split(name))
    ensures Joined(Split(name), []) == LowerAll(name)
    decreases |name|, 1
  {
    if name != [] {
      var rest := Split(name[1..]);
      assert Split(name)[0] != [];
      assert name == [name[0]] + name[1..];
      LowerAppends([name[0]], name[1..]);
      LowerAppends([name[0]], rest[0]);
      if rest[0] != [] {
        assert forall k :: 0 < k < |rest| ==> rest[k] == Split(name)[k];
        JoinedSplit(name[1..]);
        JoinedBehind(rest[1..], LowerAll(rest[0]), LowerAll([name[0]]));
      } else if |rest| == 1 {
        SplitOne(name[1..]);
      } else {
        SplitDot(name[1..]);
        JoinedDot(name);
      }
    }
  }

  lemma NoDotInFront(name: Bytes)
    requires NonEmpty(Split(name)) && name != []
    ensures name[0] != DOT
  {
    assert Split(name)[0] != [];
  }

  lemma NonEmptyRest(first: Bytes, labels: seq<Bytes>)
    requires NonEmpty([first] + labels)
    ensures first != [] && NonEmpty(labels)
  {
    assert ([first] + labels)[0] == first;
    forall k | 0 <= k < |labels|
      ensures labels[k] != []
    {
      assert ([first] + labels)[k + 1] == labels[k];
    }
  }

  lemma SplitTwo(name: Bytes)
    requires |name| > 1 && name[0] != DOT && name[1] == DOT
    ensures Split(name) == [[name[0]]] + Split(name[2..])
  {
    var rest := Split(name[1..]);
    assert name[1..][1..] == name[2..];
    assert rest == [[]] + Split(name[2..]);
    assert rest[1..] == Split(name[2..]) && rest[0] == [];
    assert [name[0]] + rest[0] == [name[0]];
  }

  lemma LowerDot(name: Bytes)
    requires |name| > 1 && name[1] == DOT
    ensures LowerAll(name) == LowerAll([name[0]]) + [DOT] + LowerAll(name[2..])
  {
    assert name == [name[0]] + ([DOT] + name[2..]);
    LowerAppends([name[0]], [DOT] + name[2..]);
    LowerAppends([DOT], name[2..]);
  }

  lemma {:induction false} JoinedDot(name: Bytes)
    requires NonEmpty(Split(name)) && |name| > 1 && name[1] == DOT
    ensures Joined(Split(name), []) == LowerAll(name)
    decreases |name|, 0
  {
    var labels := Split(name[2..]);
    NoDotInFront(name);
    SplitTwo(name);
    NonEmptyRest([name[0]], labels);
    JoinedSplit(name[2..]);
    JoinedFirst([name[0]], labels);
    LowerDot(name);
  }

  /** One more label in front, and the dot. */
  lemma JoinedFirst(first: Bytes, labels: seq<Bytes>)
    requires first != [] && labels != [] && labels[0] != []
    ensures Joined([first] + labels, []) == LowerAll(first) + [DOT] + Joined(labels, [])
  {
    assert ([first] + labels)[1..] == labels;
    JoinedAppends(labels, LowerAll(first));
  }

  lemma SplitOne(name: Bytes)
    requires Split(name)[0] == [] && |Split(name)| == 1
    ensures name == []
  {}

  lemma SplitDot(name: Bytes)
    requires Split(name)[0] == [] && |Split(name)| > 1
    ensures name != [] && name[0] == DOT
  {}

  lemma {:induction false} SplitLength(name: Bytes)
    ensures TotalLength(Split(name)) == |name| + 1
  {
    if name != [] {
      SplitLength(name[1..]);
    }
  }

  /** The bytes of the labels, each with the dot or the end behind it. */
  function TotalLength(labels: seq<Bytes>): nat {
    if labels == [] then 0 else |labels[0]| + 1 + TotalLength(labels[1..])
  }

  lemma {:induction false} JoinedLength(labels: seq<Bytes>, name: Bytes)
    requires NonEmpty(labels)
    ensures |Joined(labels, name)| + 1 == TotalLength(labels) + (if name == [] then 0 else |name| + 1)
      || (labels == [] && name == [])
  {
    if labels != [] {
      JoinedLength(labels[1..], Dotted(name, LowerAll(labels[0])));
    }
  }

  lemma {:induction false} CutLength(labels: seq<Bytes>)
    ensures TotalLength(CutAll(labels)) <= TotalLength(labels)
    ensures TotalLength(CutAll(labels)) == TotalLength(labels) ==> CutAll(labels) == labels
  {
    if labels != [] {
      CutLength(labels[1..]);
    }
  }

  /** A name a query can carry whole: at most 254 bytes, of labels of 1 to 63 bytes. */
  ghost predicate WellFormed(name: Bytes) {
    |name| <= 254 && Short(Split(name)) && NonEmpty(Split(name))
  }

  /** Behind a trailing dot there is an empty label. */
  lemma {:induction false} LastLabel(name: Bytes)
    requires name != [] && name[|name| - 1] == DOT
    ensures |Split(name)| > 1 && Split(name)[|Split(name)| - 1] == []
  {
    var labels, rest := Split(name), Split(name[1..]);
    if |name| == 1 {
      assert rest == [[]] && labels == [[]] + rest;
    } else {
      LastLabel(name[1..]);
      var n := |rest| - 1;
      if name[0] == DOT {
        assert labels == [[]] + rest && labels[n + 1] == rest[n];
      } else {
        assert labels == [[name[0]] + rest[0]] + rest[1..] && labels[n] == rest[n];
      }
    }
  }

  lemma WellFormedIsTrimmed(name: Bytes)
    requires NonEmpty(Split(name))
    ensures Trimmed(name) == name
  {
    if name != [] && name[|name| - 1] == DOT {
      LastLabel(name);
    }
  }

  /** What is read of a query. */
  lemma QueryRead(name: Bytes, qtype: nat, id: nat, labels: seq<Bytes>)
    requires qtype < 0x1_0000 && labels == CutAll(Split(Trimmed(name)))
    ensures
      var packet := Query(name, qtype, id);
      && (NonEmpty(labels) ==>
        QuestionOf(packet) == if Fits(labels, 0) then Some(Question(Joined(labels, []), qtype, |packet|)) else None)
      && (!NonEmpty(labels) ==> QuestionOf(packet).Some? ==> QuestionOf(packet).value.end < |packet|)
  {
    QueryHas(name, qtype, id, labels);
    PacketRead(Query(name, qtype, id), labels, HEADER + |Wire(labels)| + 1, qtype);
  }

  lemma PacketRead(packet: Bytes, labels: seq<Bytes>, e: nat, qtype: nat)
    requires Short(labels) && e == HEADER + |Wire(labels)| + 1 && qtype < 0x1_0000
    requires |packet| == e + 4 && Has(packet, HEADER, Wire(labels) + [0]) && packet[e..e + 2] == ToBytes(qtype, 2)
    ensures NonEmpty(labels) ==>
      QuestionOf(packet) == if Fits(labels, 0) then Some(Question(Joined(labels, []), qtype, |packet|)) else None
    ensures !NonEmpty(labels) && QuestionOf(packet).Some? ==> QuestionOf(packet).value.end < |packet|
  {
    LabelsTaken(packet, HEADER, labels);
    WireLength(labels);
    TakenIs(labels);
    if NonEmpty(labels) {
      QuestionRead(packet, labels, e, qtype);
    }
  }

  lemma QuestionRead(packet: Bytes, labels: seq<Bytes>, e: nat, qtype: nat)
    requires Labels(packet, HEADER) == Some((labels, e)) && qtype < 0x1_0000
    requires e + 2 <= |packet| && packet[e..e + 2] == ToBytes(qtype, 2)
    ensures QuestionOf(packet) == if Fits(labels, 0) then Some(Question(Joined(labels, []), qtype, e + 4)) else None
  {
    TwoBytes(qtype);
  }

  lemma InTheMiddle(a: Bytes, b: Bytes, c: Bytes, d: Bytes)
    ensures Has(a + b + c + d, |a|, b)
    ensures (a + b + c + d)[|a| + |b|..|a| + |b| + |c|] == c
  {}

  /** Where things stand in a query. */
  lemma QueryHas(name: Bytes, qtype: nat, id: nat, labels: seq<Bytes>)
    requires labels == CutAll(Split(Trimmed(name)))
    ensures
      var packet, n := Query(name, qtype, id), |Wire(labels)|;
      && |packet| == HEADER + n + 5 && Has(packet, HEADER, Wire(labels) + [0])
      && packet[HEADER + n + 1..HEADER + n + 3] == ToBytes(qtype, 2)
  {
    var head: Bytes := ToBytes(id, 2) + [1, 0, 0, 1, 0, 0, 0, 0, 0, 0];
    Reassociate(head, Wire(labels), [0]);
    InTheMiddle(head, Wire(labels) + [0], ToBytes(qtype, 2), [0, 1]);
  }

  /** Reading a query gives back its name, in lower case, its type and its whole length,
      exactly for the names a query can carry whole. */
  lemma QueryRoundTrip(name: Bytes, qtype: nat, id: nat)
    requires qtype < 0x1_0000
    ensures
      (QuestionOf(Query(name, qtype, id)) == Some(Question(LowerAll(name), qtype, |Query(name, qtype, id)|)))
      <==> WellFormed(name)
  {
    var labels := CutAll(Split(Trimmed(name)));
    QueryRead(name, qtype, id, labels);
    SplitLength(Trimmed(name));
    CutLength(Split(Trimmed(name)));
    if NonEmpty(labels) {
      FitsIs(labels, []);
      JoinedLength(labels, []);
    }
    WellFormedIsCut(name);
  }

  /** A trailing dot makes no difference: what is read is the name without it, exactly if that
      is a name a query can carry whole. */
  lemma TrimmedRoundTrip(name: Bytes, qtype: nat, id: nat)
    requires qtype < 0x1_0000
    ensures
      (QuestionOf(Query(name, qtype, id)) == Some(Question(LowerAll(Trimmed(name)), qtype, |Query(name, qtype, id)|)))
      <==> WellFormed(Trimmed(name))
  {
    assert Trimmed(Trimmed(name)) == Trimmed(name);
    QueryRoundTrip(Trimmed(name), qtype, id);
  }

  lemma WellFormedIsCut(name: Bytes)
    ensures Short(Split(name)) && NonEmpty(Split(name)) ==> CutAll(Split(Trimmed(name))) == Split(name)
    ensures NonEmpty(Split(name)) ==> Joined(Split(name), []) == LowerAll(name)
    ensures |Trimmed(name)| == |name| ==> Trimmed(name) == name
    ensures CutAll(Split(name)) == Split(name) ==> Short(Split(name))
  {
    if NonEmpty(Split(name)) {
      WellFormedIsTrimmed(name);
      JoinedSplit(name);
    }
  }
}
