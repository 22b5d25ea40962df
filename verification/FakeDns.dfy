/** Answering from the fake range, and finding the name again behind the address. */
module FakeDns {
  import opened Common
  import opened Words
  import opened BigEndian
  import opened Addresses
  import opened DnsMessage
  import opened DnsReply
  import F = FakeIp

  /** A query all there: `parse_question` accepts it, with its class, and it asks once. */
  ghost predicate Complete(query: Bytes) {
    QuestionOf(query).Some? && QuestionOf(query).value.end <= |query| && U16At(query, 4) == Some(1)
  }

  lemma FamilySize(v4: bool)
    ensures Pow2(Width(v4)) == if v4 then U32 else V4_FLAG * 2
  {
    Pow2Words();
    if !v4 {
      var half: nat := 64;
      Pow2Square(half, U64);
      assert Width(v4) == 2 * half;
    }
  }

  /** The reply holds one address of the family, for one second, that stands for the name. */
  ghost predicate LeadsTo(fake: F.FakeIp, reply: Bytes, v4: bool, name: Bytes)
    requires fake.Valid()
    reads fake
  {
    exists ip: Ip :: Answers(reply) == Some(([ip], 1)) && ip.v4 == v4 && fake.Names(ip, name)
  }

  /** `handle_query` once the rules have chosen a fake-IP server. */
  method Respond(fake: F.FakeIp, query: Bytes, ipv4Only: bool) returns (reply: Bytes)
    requires fake.Valid()
    modifies fake
    ensures fake.Valid()
    ensures
      var q := QuestionOf(query);
      var asksA := q.Some? && q.value.qtype == QTYPE_A;
      var asksAaaa := q.Some? && q.value.qtype == QTYPE_AAAA && !ipv4Only;
      && fake.asked == old(fake.asked) + (if asksA || asksAaaa then [q.value.name] else [])
      && (Complete(query) ==> |reply| >= 4 && reply[..2] == query[..2] && QuestionOf(reply) == q)
      && (Complete(query) && (asksA || asksAaaa) ==> LeadsTo(fake, reply, asksA, q.value.name))
      && (Complete(query) && !asksA && !asksAaaa ==> Answers(reply) == Some(([], NO_TTL)))
      && (q.Some? && !asksA && !asksAaaa ==>
        |reply| == Min(q.value.end, |query|) && TurnedAround(reply, query, |reply|, 0, 0))
      && (asksA || asksAaaa ==> TurnedAround(reply, query, Min(q.value.end, |query|), 0, 1))
      && (q.None? ==> |reply| == Min(|query|, 12) && TurnedAround(reply, query, |reply|, 1, 0))
  {
    var q := ParseQuestion(query);
    if q.None? {
      EmptyTurnsAround(query, Min(|query|, 12), 1);
      reply := EmptyReply(query, Min(|query|, 12), 1);
      return;
    }
    if Complete(query) {
      EmptyRoundTrip(query, 0);
    }
    EmptyTurnsAround(query, q.value.end, 0);
    if ipv4Only && q.value.qtype == QTYPE_AAAA {
      reply := EmptyReply(query, q.value.end, 0);
      return;
    }
    if q.value.qtype == QTYPE_A || q.value.qtype == QTYPE_AAAA {
      var ip := fake.Allocate(q.value.name, q.value.qtype);
      reply := AnswerWithIp(query, q.value.end, ip, 1);
      AnswerTurnsAround(query, q.value.end, ip, 1);
      if Complete(query) {
        FamilySize(ip.v4);
        AnswerRoundTrip(query, ip, 1);
      }
      return;
    }
    reply := EmptyReply(query, q.value.end, 0);
  }

  /** The client reads the address out of the reply and connects to it: the engine knows
      the name it asked for. */
  method AskThenConnect(fake: F.FakeIp, query: Bytes, ipv4Only: bool) returns (name: Option<Bytes>)
    requires fake.Valid() && Complete(query)
    requires
      var qtype := QuestionOf(query).value.qtype;
      qtype == QTYPE_A || (qtype == QTYPE_AAAA && !ipv4Only)
    modifies fake
    ensures name == Some(QuestionOf(query).value.name)
  {
    var reply := Respond(fake, query, ipv4Only);
    ghost var q := QuestionOf(query).value;
    assert LeadsTo(fake, reply, q.qtype == QTYPE_A, q.name);
    ghost var ip: Ip :| Answers(reply) == Some(([ip], 1)) && fake.Names(ip, q.name);
    var r := ParseAnswers(reply);
    var first := r.value.0[0];
    assert first == ip && fake.Names(first, q.name);
    name := fake.Lookup(first);
    fake.OneName(first, q.name, name.value);
  }
}
