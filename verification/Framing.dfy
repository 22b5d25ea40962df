/** DNS over TCP: queries behind two length bytes, out of a stream that comes in pieces. */
module Framing {
  import opened Common
  import opened BigEndian

  function Concat(chunks: seq<Bytes>): Bytes {
    if chunks == [] then [] else chunks[0] + Concat(chunks[1..])
  }

  /** What arrives before the stream ends: reading nothing is its end. */
  function Arriving(chunks: seq<Bytes>): Bytes {
    if chunks == [] || chunks[0] == [] then [] else chunks[0] + Arriving(chunks[1..])
  }

  function Length(s: Bytes): (n: nat)
    requires |s| >= 2
  {
    256 * (s[0] as nat) + (s[1] as nat)
  }

  /** The queries in a stream. */
  function Frames(s: Bytes): seq<Bytes> {
    if |s| < 2 || |s| < 2 + Length(s) then []
    else [s[2..2 + Length(s)]] + Frames(s[2 + Length(s)..])
  }

  /** A whole frame is read the same whatever follows. */
  lemma FrameStays(s: Bytes, more: Bytes)
    requires |s| >= 2 && |s| >= 2 + Length(s)
    ensures Frames(s + more) == [s[2..2 + Length(s)]] + Frames(s[2 + Length(s)..] + more)
  {
    var n := 2 + Length(s);
    assert (s + more)[2..n] == s[2..n];
    assert (s + more)[n..] == s[n..] + more;
  }

  /** The client's stream, read piece by piece. */
  class Stream {
    var chunks: seq<Bytes>

    constructor (chunks: seq<Bytes>)
      ensures this.chunks == chunks
    {
      this.chunks := chunks;
    }

    /** `read`: nothing at the end of the stream, or when it breaks. */
    method Read() returns (chunk: Bytes)
      modifies this
      ensures Arriving(old(chunks)) == chunk + Arriving(chunks)
      ensures chunk != [] ==> |chunks| < |old(chunks)|
      ensures chunk == [] ==> Arriving(old(chunks)) == [] && chunks == old(chunks)
    {
      if chunks == [] || chunks[0] == [] {
        return [];
      }
      chunk := chunks[0];
      chunks := chunks[1..];
    }

    /** Read on until there are `n` bytes; `ok` if there are. */
    method Fill(pending: Bytes, n: nat) returns (more: Bytes, ok: bool)
      modifies this
      ensures more + Arriving(chunks) == pending + Arriving(old(chunks))
      ensures pending <= more && |chunks| <= |old(chunks)|
      ensures ok <==> |more| >= n
      ensures !ok ==> more == pending + Arriving(old(chunks))
    {
      more := pending;
      while |more| < n
        invariant more + Arriving(chunks) == pending + Arriving(old(chunks))
        invariant pending <= more && |chunks| <= |old(chunks)|
        decreases |chunks|
      {
        ghost var before := Arriving(chunks);
        var chunk := Read();
        if chunk == [] {
          assert more + [] == more;
          return more, false;
        }
        assert more + before == (more + chunk) + Arriving(chunks);
        more := more + chunk;
      }
      ok := true;
    }
  }

  /** The next query, once it has come whole, and what was read beyond it. */
  method NextQuery(stream: Stream, pending: Bytes) returns (query: Option<Bytes>, rest: Bytes)
    modifies stream
    ensures
      match query
      case None => Frames(pending + Arriving(old(stream.chunks))) == []
      case Some(q) =>
        && Frames(pending + Arriving(old(stream.chunks))) == [q] + Frames(rest + Arriving(stream.chunks))
        && |rest + Arriving(stream.chunks)| < |pending + Arriving(old(stream.chunks))|
  {
    var some, ok := stream.Fill(pending, 2);
    if !ok {
      return None, some;
    }
    var len := Length(some);
    some, ok := stream.Fill(some, 2 + len);
    if !ok {
      return None, some;
    }
    FrameStays(some, Arriving(stream.chunks));
    return Some(some[2..2 + len]), some[2 + len..];
  }

  /** `dns_over_tcp`: the queries handed to the resolver.  `written(k)` says whether the
      `k`-th reply could be sent. */
  method DnsOverTcp(stream: Stream, prefix: Bytes, written: nat -> bool) returns (queries: seq<Bytes>)
    modifies stream
    ensures queries <= Frames(prefix + Arriving(old(stream.chunks)))
    ensures (forall k: nat :: written(k)) ==> queries == Frames(prefix + Arriving(old(stream.chunks)))
    ensures queries != Frames(prefix + Arriving(old(stream.chunks))) ==> queries != [] && !written(|queries| - 1)
  {
    ghost var all := Frames(prefix + Arriving(stream.chunks));
    var pending := prefix;
    queries := [];
    while true
      invariant queries + Frames(pending + Arriving(stream.chunks)) == all
      decreases |pending + Arriving(stream.chunks)|
    {
      var query: Option<Bytes>;
      query, pending := NextQuery(stream, pending);
      if query.None? {
        return;
      }
      assert queries + [query.value] + Frames(pending + Arriving(stream.chunks)) == all;
      queries := queries + [query.value];
      if !written(|queries| - 1) {
        return;
      }
    }
  }

  // ----- the other end

  function Frame(message: Bytes): Bytes
    requires |message| < 0x1_0000
  {
    ToBytes(|message|, 2) + message
  }

  function FrameAll(messages: seq<Bytes>): Bytes
    requires forall k :: 0 <= k < |messages| ==> |messages[k]| < 0x1_0000
  {
    if messages == [] then [] else Frame(messages[0]) + FrameAll(messages[1..])
  }

  lemma FrameHas(message: Bytes)
    requires |message| < 0x1_0000
    ensures Length(Frame(message)) == |message| && Frame(message)[2..] == message
  {
    var n := |message|;
    assert ToBytes(n, 2) == ToBytes(n / 256, 1) + [n % 256];
    assert ToBytes(n / 256, 1) == ToBytes(n / 256 / 256, 0) + [n / 256 % 256];
  }

  lemma FrameFirst(message: Bytes, rest: Bytes)
    requires |message| < 0x1_0000
    ensures Frames(Frame(message) + rest) == [message] + Frames(rest)
  {
    var frame := Frame(message);
    FrameHas(message);
    FrameStays(frame, rest);
    assert frame[2 + Length(frame)..] + rest == rest;
  }

  lemma CutFrame(message: Bytes, k: nat)
    requires |message| < 0x1_0000 && k < 2 + |message|
    ensures Frames(Frame(message)[..k]) == []
  {
    FrameHas(message);
  }

  /** Framed messages come out as they went in, and nothing of one that is cut short. */
  lemma {:induction false} FramesRoundTrip(messages: seq<Bytes>, last: Bytes, k: nat)
    requires forall i :: 0 <= i < |messages| ==> |messages[i]| < 0x1_0000
    requires |last| < 0x1_0000 && k < 2 + |last|
    ensures Frames(FrameAll(messages) + Frame(last)[..k]) == messages
    decreases |messages|
  {
    var tail := Frame(last)[..k];
    if messages == [] {
      CutFrame(last, k);
      assert FrameAll(messages) + tail == tail;
    } else {
      var rest := FrameAll(messages[1..]);
      FrameFirst(messages[0], rest + tail);
      FramesRoundTrip(messages[1..], last, k);
      Reassociate(Frame(messages[0]), rest, tail);
    }
  }

  lemma {:induction false} ArrivingIsConcat(chunks: seq<Bytes>)
    requires [] !in chunks
    ensures Arriving(chunks) == Concat(chunks)
  {
    if chunks != [] {
      assert chunks[0] in chunks;
      ArrivingIsConcat(chunks[1..]);
    }
  }

  /** Cutting the same bytes elsewhere, between the pieces or between what sniffing took and
      what is still to come, changes none of the queries. */
  lemma CutsDoNotMatter(prefix: Bytes, chunks: seq<Bytes>, prefix': Bytes, chunks': seq<Bytes>)
    requires [] !in chunks && [] !in chunks'
    requires prefix + Concat(chunks) == prefix' + Concat(chunks')
    ensures Frames(prefix + Arriving(chunks)) == Frames(prefix' + Arriving(chunks'))
  {
    ArrivingIsConcat(chunks);
    ArrivingIsConcat(chunks');
  }
}
