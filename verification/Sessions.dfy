/** Taking requests out of a buffer that grows piece by piece. */
module Sessions {
  import opened Common
  import opened Framing

  const MAX_REQUEST: nat := 0x1_0000

  /** What a buffer holds at its beginning.  `Crash`: the length of the request is more than a
      machine word holds, and cutting the body out of the buffer fails. */
  datatype Outcome<R> = Incomplete | Got(request: R, keepAlive: bool, used: nat) | Crash

  /** What has been read of a request is not changed by what follows, and a request is read
      from as many bytes as it takes. */
  ghost predicate Stable<R(!new)>(parse: Bytes -> Outcome<R>) {
    && (forall buf :: parse(buf).Got? ==> 0 < parse(buf).used <= |buf|)
    && (forall buf, more :: !parse(buf).Incomplete? ==> parse(buf + more) == parse(buf))
    && (forall buf, more :: parse(buf + more).Got? && parse(buf + more).used <= |buf| ==>
      parse(buf) == parse(buf + more))
  }

  /** The requests of a stream, up to one that does not want the connection kept. */
  ghost function Requests<R(!new)>(parse: Bytes -> Outcome<R>, s: Bytes): seq<R>
    requires Stable(parse)
    decreases |s|
  {
    match parse(s)
    case Got(r, keepAlive, used) => [r] + if keepAlive then Requests(parse, s[used..]) else []
    case _ => []
  }

  /** None of them is longer than the buffer may grow. */
  ghost predicate AllFit<R(!new)>(parse: Bytes -> Outcome<R>, s: Bytes)
    requires Stable(parse)
    decreases |s|
  {
    match parse(s)
    case Got(_, keepAlive, used) => used <= 0x1_0000 && (keepAlive ==> AllFit(parse, s[used..]))
    case _ => true
  }

  /** The requests before it all want the connection kept, and then one crashes the session. */
  ghost predicate Crashes<R(!new)>(parse: Bytes -> Outcome<R>, s: Bytes)
    requires Stable(parse)
    decreases |s|
  {
    match parse(s)
    case Got(_, keepAlive, used) => keepAlive && Crashes(parse, s[used..])
    case Crash => true
    case Incomplete => false
  }

  /** And that shows within as many bytes as the buffer may hold. */
  ghost predicate CrashFits<R(!new)>(parse: Bytes -> Outcome<R>, s: Bytes)
    requires Stable(parse)
    decreases |s|
  {
    match parse(s)
    case Got(_, keepAlive, used) => keepAlive && CrashFits(parse, s[used..])
    case Crash => parse(s[..Min(|s|, 0x1_0000)]).Crash?
    case Incomplete => false
  }

  lemma RequestsStep<R(!new)>(parse: Bytes -> Outcome<R>, buf: Bytes, more: Bytes)
    requires Stable(parse) && !parse(buf).Incomplete?
    ensures
      match parse(buf)
      case Got(r, keepAlive, used) =>
        && Requests(parse, buf + more) == [r] + (if keepAlive then Requests(parse, buf[used..] + more) else [])
        && (AllFit(parse, buf + more) && keepAlive ==> AllFit(parse, buf[used..] + more))
        && (Crashes(parse, buf + more) <==> keepAlive && Crashes(parse, buf[used..] + more))
        && (CrashFits(parse, buf + more) <==> keepAlive && CrashFits(parse, buf[used..] + more))
      case _ => Requests(parse, buf + more) == [] && (Crashes(parse, buf + more) <==> parse(buf).Crash?)
  {
    assert parse(buf + more) == parse(buf);
    if parse(buf).Got? {
      var used := parse(buf).used;
      assert (buf + more)[used..] == buf[used..] + more;
    }
  }

  /** With `more` behind it, the text is read as this request. */
  ghost predicate GotAt<R(!new)>(parse: Bytes -> Outcome<R>, text: Bytes, more: Bytes, r: R) {
    parse(text + more) == Got(r, true, |text|)
  }

  /** A stream that begins with a request. */
  lemma GotFirst<R(!new)>(parse: Bytes -> Outcome<R>, text: Bytes, more: Bytes, r: R)
    requires Stable(parse) && GotAt(parse, text, more, r)
    ensures Requests(parse, text + more) == [r] + Requests(parse, more)
    ensures Crashes(parse, text + more) == Crashes(parse, more)
  {
    assert (text + more)[|text|..] == more;
  }

  lemma {:induction false} AllGot<R(!new)>(parse: Bytes -> Outcome<R>, texts: seq<Bytes>, rs: seq<R>, rest: Bytes)
    requires Stable(parse) && |texts| == |rs|
    requires forall i, more :: 0 <= i < |texts| ==> GotAt(parse, texts[i], more, rs[i])
    ensures Requests(parse, Concat(texts) + rest) == rs + Requests(parse, rest)
    ensures Crashes(parse, Concat(texts) + rest) == Crashes(parse, rest)
    decreases |texts|
  {
    if texts == [] {
      assert Concat(texts) + rest == rest;
    } else {
      var more := Concat(texts[1..]) + rest;
      assert Concat(texts) + rest == texts[0] + more;
      GotFirst(parse, texts[0], more, rs[0]);
      AllGot(parse, texts[1..], rs[1..], rest);
      Together([rs[0]], rs[1..], Requests(parse, rest));
      assert [rs[0]] + rs[1..] == rs;
    }
  }

  /** An overfull buffer holds no request that fits. */
  lemma Overfull<R(!new)>(parse: Bytes -> Outcome<R>, buf: Bytes, more: Bytes)
    requires Stable(parse) && parse(buf).Incomplete? && |buf| > MAX_REQUEST && AllFit(parse, buf + more)
    ensures Requests(parse, buf + more) == [] && !CrashFits(parse, buf + more)
  {
    var near := buf[..MAX_REQUEST];
    assert near + buf[MAX_REQUEST..] == buf && (buf + more)[..MAX_REQUEST] == near;
  }

  lemma Together<R>(a: seq<R>, b: seq<R>, c: seq<R>)
    ensures a + b + c == a + (b + c) && b + [] == b
  {}

  /** The requests in the buffer, and what is left of it; `over` if the session is. */
  method Drain<R(!new)>(parse: Bytes -> Outcome<R>, buf: Bytes, ghost rest: Bytes)
    returns (requests: seq<R>, left: Bytes, over: bool, crashed: bool)
    requires Stable(parse)
    ensures over ==> requests == Requests(parse, buf + rest) && crashed == Crashes(parse, buf + rest)
    ensures over && CrashFits(parse, buf + rest) ==> crashed
    ensures !over ==> !crashed && Crashes(parse, left + rest) == Crashes(parse, buf + rest)
    ensures !over ==> CrashFits(parse, left + rest) == CrashFits(parse, buf + rest)
    ensures !over ==> requests + Requests(parse, left + rest) == Requests(parse, buf + rest)
    ensures !over && AllFit(parse, buf + rest) ==> AllFit(parse, left + rest)
    ensures !over ==> parse(left).Incomplete?
  {
    ghost var all := Requests(parse, buf + rest);
    ghost var fits := AllFit(parse, buf + rest);
    left, requests := buf, [];
    while true
      invariant requests + Requests(parse, left + rest) == all
      invariant fits ==> AllFit(parse, left + rest)
      invariant Crashes(parse, left + rest) == Crashes(parse, buf + rest)
      invariant CrashFits(parse, left + rest) == CrashFits(parse, buf + rest)
      decreases |left|
    {
      var o := parse(left);
      if o.Incomplete? {
        return requests, left, false, false;
      }
      RequestsStep(parse, left, rest);
      if o.Crash? {
        return requests, left, true, true;
      }
      left := left[o.used..];
      Together(requests, [o.request], if o.keepAlive then Requests(parse, left + rest) else []);
      requests := requests + [o.request];
      if !o.keepAlive {
        return requests, left, true, false;
      }
    }
  }

  /** The session: what is in the buffer is served, then more is read, unless the buffer has
      grown too long. */
  method Serve<R(!new)>(stream: Stream, parse: Bytes -> Outcome<R>) returns (requests: seq<R>, crashed: bool)
    requires Stable(parse)
    modifies stream
    ensures requests <= Requests(parse, Arriving(old(stream.chunks)))
    ensures AllFit(parse, Arriving(old(stream.chunks))) ==> requests == Requests(parse, Arriving(old(stream.chunks)))
    ensures crashed ==> Crashes(parse, Arriving(old(stream.chunks)))
    ensures crashed ==> requests == Requests(parse, Arriving(old(stream.chunks)))
    ensures AllFit(parse, Arriving(old(stream.chunks))) && CrashFits(parse, Arriving(old(stream.chunks))) ==> crashed
  {
    ghost var all := Requests(parse, Arriving(stream.chunks));
    ghost var fits := AllFit(parse, Arriving(stream.chunks));
    ghost var crashes, near := Crashes(parse, Arriving(stream.chunks)), CrashFits(parse, Arriving(stream.chunks));
    var buf: Bytes := [];
    requests, crashed := [], false;
    assert buf + Arriving(stream.chunks) == Arriving(stream.chunks);
    while true
      invariant requests + Requests(parse, buf + Arriving(stream.chunks)) == all
      invariant fits ==> AllFit(parse, buf + Arriving(stream.chunks))
      invariant Crashes(parse, buf + Arriving(stream.chunks)) == crashes
      invariant CrashFits(parse, buf + Arriving(stream.chunks)) == near
      decreases |stream.chunks|
    {
      ghost var rest := Arriving(stream.chunks);
      var more, left, over, fell := Drain(parse, buf, rest);
      Together(requests, more, if over then [] else Requests(parse, left + rest));
      requests := requests + more;
      if over {
        return requests, fell;
      }
      if |left| > MAX_REQUEST {
        if fits {
          Overfull(parse, left, rest);
        }
        return;
      }
      var chunk := stream.Read();
      if chunk == [] {
        assert left + [] == left;
        return;
      }
      Together(left, chunk, Arriving(stream.chunks));
      buf := left + chunk;
      assert left + rest == buf + Arriving(stream.chunks);
    }
  }

  /** Cutting the same bytes elsewhere changes none of the requests. */
  lemma SessionCutsDoNotMatter<R(!new)>(parse: Bytes -> Outcome<R>, chunks: seq<Bytes>, chunks': seq<Bytes>)
    requires Stable(parse) && [] !in chunks && [] !in chunks' && Concat(chunks) == Concat(chunks')
    ensures Requests(parse, Arriving(chunks)) == Requests(parse, Arriving(chunks'))
    ensures AllFit(parse, Arriving(chunks)) == AllFit(parse, Arriving(chunks'))
    ensures Crashes(parse, Arriving(chunks)) == Crashes(parse, Arriving(chunks'))
  {
    ArrivingIsConcat(chunks);
    ArrivingIsConcat(chunks');
  }
}
