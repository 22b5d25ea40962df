/** Downloading a file that is fetched on after every break. */
module Download {
  import opened Common
  import opened Framing

  const ATTEMPTS: nat := 6

  /** What an attempt meets: no usable answer; the rest from the byte asked for, or the file
      from its beginning.  The body comes in chunks; `broken` if it ends in an error. */
  datatype Reply =
    | Refused
    | Partial(range: Option<nat>, chunks: seq<Bytes>, broken: bool)
    | Full(length: Option<nat>, chunks: seq<Bytes>, broken: bool)

  /** The answer to attempt `n`, asked for the bytes from `offset` on. */
  type Server = (nat, nat) -> Reply

  /** An honest answer may stop anywhere, but says nothing wrong. */
  ghost predicate Honest(reply: Reply, file: Bytes, offset: nat) {
    match reply
    case Refused => true
    case Partial(range, chunks, _) =>
      offset <= |file| && Concat(chunks) <= file[offset..] && (range.Some? ==> range.value == |file|)
    case Full(length, chunks, _) =>
      Concat(chunks) <= file && (length.Some? ==> length.value == |file|)
  }

  ghost predicate HonestServer(server: Server, file: Bytes) {
    forall n: nat, offset: nat :: offset <= |file| ==> Honest(server(n, offset), file, offset)
  }

  /** How far the download is: what it has, and the size of the file if it was told. */
  datatype Progress = Progress(bytes: Bytes, total: Option<nat>)
  {
    function After(reply: Reply): Progress {
      match reply
      case Refused => this
      case Partial(range, chunks, _) =>
        Progress(bytes + Concat(chunks), if range.Some? then range else total)
      case Full(length, chunks, _) =>
        Progress(Concat(chunks), length)
    }

    /** Nothing is missing, as far as one knows. */
    predicate Complete() {
      total.None? || |bytes| >= total.value
    }

    /** Everything so far is right. */
    ghost predicate Sound(file: Bytes) {
      bytes <= file && (total.Some? ==> total.value == |file|)
    }
  }

  const START := Progress([], None)

  /** An answer that ends without an error. */
  predicate Clean(reply: Reply) {
    !reply.Refused? && !reply.broken
  }

  /** The answer ends the download. */
  predicate Ends(reply: Reply, p: Progress) {
    Clean(reply) && p.After(reply).Complete()
  }

  /** The download from attempt `n` on. */
  function Run(server: Server, n: nat, p: Progress): (r: Result<Progress>)
    decreases ATTEMPTS - n
  {
    if n >= ATTEMPTS then Err
    else
      var reply := server(n, |p.bytes|);
      if Ends(reply, p) then Ok(p.After(reply)) else Run(server, n + 1, p.After(reply))
  }

  /** Every answer met from attempt `n` on is honest. */
  ghost predicate HonestAlong(server: Server, file: Bytes, n: nat, p: Progress)
    decreases ATTEMPTS - n
  {
    n < ATTEMPTS ==>
      var reply := server(n, |p.bytes|);
      && Honest(reply, file, |p.bytes|)
      && (Ends(reply, p) || HonestAlong(server, file, n + 1, p.After(reply)))
  }

  lemma {:induction false} HonestThroughout(server: Server, file: Bytes, n: nat, p: Progress)
    requires HonestServer(server, file) && p.Sound(file)
    ensures HonestAlong(server, file, n, p)
    decreases ATTEMPTS - n
  {
    if n < ATTEMPTS {
      var reply := server(n, |p.bytes|);
      SoundAfter(p, reply, file);
      HonestThroughout(server, file, n + 1, p.After(reply));
    }
  }

  /** Honest answers keep everything right. */
  lemma SoundAfter(p: Progress, reply: Reply, file: Bytes)
    requires p.Sound(file) && Honest(reply, file, |p.bytes|)
    ensures p.After(reply).Sound(file)
  {
    if reply.Partial? {
      assert file == file[..|p.bytes|] + file[|p.bytes|..];
    }
  }

  /** Every buffer is a beginning of the file. */
  ghost predicate AllBeginnings(seen: seq<Bytes>, file: Bytes) {
    forall k :: 0 <= k < |seen| ==> seen[k] <= file
  }

  /** The body, chunk by chunk; `seen` is the buffer after each of them. */
  method ReadBody(bytes: Bytes, chunks: seq<Bytes>, ghost file: Bytes) returns (r: Bytes, ghost seen: seq<Bytes>)
    requires bytes + Concat(chunks) <= file
    ensures r == bytes + Concat(chunks)
    ensures |seen| == |chunks| && AllBeginnings(seen, file)
  {
    r := bytes;
    seen := [];
    for k := 0 to |chunks|
      invariant r + Concat(chunks[k..]) == bytes + Concat(chunks)
      invariant |seen| == k && AllBeginnings(seen, file)
    {
      assert r + Concat(chunks[k..]) == r + chunks[k] + Concat(chunks[k + 1..]);
      r := r + chunks[k];
      seen := seen + [r];
    }
  }

  /** One attempt, once its answer has come. */
  method Attempt(was: Bytes, known: Option<nat>, reply: Reply, ghost file: Bytes)
    returns (bytes: Bytes, total: Option<nat>, done: bool, ghost seen: seq<Bytes>)
    requires Progress(was, known).Sound(file) && Honest(reply, file, |was|)
    ensures Progress(bytes, total) == Progress(was, known).After(reply)
    ensures done == Ends(reply, Progress(was, known))
    ensures AllBeginnings(seen, file)
  {
    bytes, total, done, seen := was, known, false, [];
    if reply.Refused? {
      return;
    }
    SoundAfter(Progress(was, known), reply, file);
    if reply.Partial? {
      if reply.range.Some? {
        total := reply.range;
      }
    } else {
      bytes := [];
      total := reply.length;
      assert [] + Concat(reply.chunks) == Concat(reply.chunks);
    }
    bytes, seen := ReadBody(bytes, reply.chunks, file);
    done := !reply.broken && (total.None? || |bytes| >= total.value);
  }

  /** `download_resumable`; `seen` is the buffer after each chunk of each attempt. */
  method Fetch(server: Server, ghost file: Bytes) returns (r: Result<Bytes>, total: Option<nat>, ghost seen: seq<Bytes>)
    requires HonestAlong(server, file, 0, START)
    ensures AllBeginnings(seen, file)
    ensures r.Ok? ==> r.value <= file && (total.Some? ==> r.value == file)
    ensures
      match Run(server, 0, START)
      case Ok(p) => r == Ok(p.bytes) && total == p.total
      case Err => r == Err
  {
    ghost var run := Run(server, 0, START);
    RunIsSound(server, file, 0, START);
    var bytes: Bytes := [];
    total := None;
    seen := [];
    for attempt := 0 to ATTEMPTS
      invariant HonestAlong(server, file, attempt, Progress(bytes, total))
      invariant Progress(bytes, total).Sound(file) && AllBeginnings(seen, file)
      invariant Run(server, attempt, Progress(bytes, total)) == run
    {
      var reply := server(attempt, |bytes|);
      SoundAfter(Progress(bytes, total), reply, file);
      var done: bool;
      ghost var more: seq<Bytes>;
      bytes, total, done, more := Attempt(bytes, total, reply, file);
      seen := seen + more;
      if done {
        return Ok(bytes), total, seen;
      }
    }
    r := Err;
  }

  /** Against honest answers, what is returned is a beginning of the file, and all of it if
      its size was known. */
  lemma {:induction false} RunIsSound(server: Server, file: Bytes, n: nat, p: Progress)
    requires HonestAlong(server, file, n, p) && p.Sound(file)
    ensures
      var r := Run(server, n, p);
      r.Ok? ==> r.value.Sound(file) && (r.value.total.Some? ==> r.value.bytes == file)
    decreases ATTEMPTS - n
  {
    if n < ATTEMPTS {
      var reply := server(n, |p.bytes|);
      SoundAfter(p, reply, file);
      if !Ends(reply, p) {
        RunIsSound(server, file, n + 1, p.After(reply));
      }
    }
  }

  // ----- the course of a download, told by the answers

  function ChunksOf(reply: Reply): Bytes {
    match reply
    case Refused => []
    case Partial(_, chunks, _) => Concat(chunks)
    case Full(_, chunks, _) => Concat(chunks)
  }

  function BodyOf(replies: seq<Reply>): Bytes {
    if replies == [] then [] else ChunksOf(replies[0]) + BodyOf(replies[1..])
  }

  lemma {:induction false} BodyGrows(replies: seq<Reply>, reply: Reply)
    ensures BodyOf(replies + [reply]) == BodyOf(replies) + ChunksOf(reply)
  {
    if replies == [] {
      assert [reply][1..] == [];
    } else {
      assert (replies + [reply])[1..] == replies[1..] + [reply];
      BodyGrows(replies[1..], reply);
    }
  }

  /** From answer `from` on they count: it is the last that began with the file's beginning, or
      there was none. */
  ghost predicate Counted(replies: seq<Reply>, from: nat) {
    && from <= |replies| && (from > 0 ==> from < |replies| && replies[from].Full?)
    && forall k :: from < k < |replies| ==> !replies[k].Full?
  }

  ghost predicate LastSize(replies: seq<Reply>, k: nat) {
    && k < |replies| && Announced(replies[k]).Some?
    && forall j :: k < j < |replies| ==> Announced(replies[j]).None?
  }

  /** The size is the one announced last, if any was. */
  ghost predicate SizeIs(replies: seq<Reply>, size: Option<nat>) {
    && ((forall k :: 0 <= k < |replies| ==> Announced(replies[k]).None?) ==> size.None?)
    && forall k: nat :: LastSize(replies, k) ==> size == Announced(replies[k])
  }

  /** What is there after some answers: all they brought from the last beginning on, and the size
      announced last since then. */
  ghost predicate Gathered(replies: seq<Reply>, p: Progress) {
    exists from: nat :: GatheredFrom(replies, p, from)
  }

  ghost predicate GatheredFrom(replies: seq<Reply>, p: Progress, from: nat) {
    Counted(replies, from) && p.bytes == BodyOf(replies[from..]) && SizeIs(replies[from..], p.total)
  }

  lemma OneGathered(replies: seq<Reply>, p: Progress, reply: Reply)
    requires Gathered(replies, p)
    ensures Gathered(replies + [reply], p.After(reply))
  {
    var from: nat :| GatheredFrom(replies, p, from);
    if reply.Full? {
      BeginsAnew(replies, p, reply);
    } else {
      GoesOn(replies, p, reply, from);
    }
  }

  lemma BeginsAnew(replies: seq<Reply>, p: Progress, reply: Reply)
    requires reply.Full?
    ensures GatheredFrom(replies + [reply], p.After(reply), |replies|)
  {
    var all := replies + [reply];
    assert all[|replies|..] == [] + [reply];
    BodyGrows([], reply);
    assert [] + ChunksOf(reply) == ChunksOf(reply);
    SizeGrows([], None, reply);
  }

  lemma GoesOn(replies: seq<Reply>, p: Progress, reply: Reply, from: nat)
    requires GatheredFrom(replies, p, from) && !reply.Full?
    ensures GatheredFrom(replies + [reply], p.After(reply), from)
  {
    var all, since := replies + [reply], replies[from..];
    assert all[from..] == since + [reply];
    BodyGrows(since, reply);
    SizeGrows(since, p.total, reply);
    assert Counted(all, from);
  }

  lemma SizeGrows(replies: seq<Reply>, size: Option<nat>, reply: Reply)
    requires SizeIs(replies, size)
    ensures SizeIs(replies + [reply], if Announced(reply).Some? then Announced(reply) else size)
  {
    var all, n := replies + [reply], |replies|;
    if Announced(reply).Some? {
      forall k: nat | LastSize(all, k)
        ensures k == n
      {
        assert all[n] == reply;
      }
      assert all[n] == reply;
    } else {
      forall k: nat | LastSize(all, k)
        ensures LastSize(replies, k)
      {
        assert forall j :: k < j < n ==> all[j] == replies[j];
      }
      if forall k :: 0 <= k < |all| ==> Announced(all[k]).None? {
        assert forall k :: 0 <= k < n ==> all[k] == replies[k];
      }
    }
  }

  /** The last answer came to its end, and nothing is missing of the size announced. */
  ghost predicate Settled(replies: seq<Reply>) {
    replies != [] && exists p :: Gathered(replies, p) && Suffices(replies[|replies| - 1], p)
  }

  ghost predicate Suffices(reply: Reply, p: Progress) {
    && (match reply case Refused => false case Partial(_, _, broken) => !broken case Full(_, _, broken) => !broken)
    && (match p.total case None => true case Some(size) => |p.bytes| >= size)
  }

  /** Every answer was one to the question for the bytes behind those gathered, and none but
      perhaps the last settled the download. */
  ghost predicate Asked(server: Server, replies: seq<Reply>) {
    forall k :: 0 <= k < |replies| ==> AskedAt(server, replies[..k], replies[k])
  }

  ghost predicate AskedAt(server: Server, before: seq<Reply>, reply: Reply) {
    !Settled(before) && exists p :: Gathered(before, p) && reply == server(|before|, |p.bytes|)
  }

  /** The download took these answers: all six if it failed, or up to the one that settled it. */
  ghost predicate Took(server: Server, replies: seq<Reply>, r: Result<Progress>) {
    && Asked(server, replies)
    && match r
       case Ok(p) => 0 < |replies| <= 6 && Gathered(replies, p) && Suffices(replies[|replies| - 1], p)
       case Err => |replies| == 6 && !Settled(replies)
  }

  lemma {:induction false} GatheredOnce(replies: seq<Reply>, p: Progress, q: Progress)
    requires Gathered(replies, p) && Gathered(replies, q)
    ensures p == q
  {
    var i: nat :| GatheredFrom(replies, p, i);
    var j: nat :| GatheredFrom(replies, q, j);
    assert i == j;
    SizeOnce(replies[i..], p.total, q.total);
  }

  lemma SizeOnce(replies: seq<Reply>, a: Option<nat>, b: Option<nat>)
    requires SizeIs(replies, a) && SizeIs(replies, b)
    ensures a == b
  {
    if k :| 0 <= k < |replies| && Announced(replies[k]).Some? {
      var last := SomeLast(replies, k);
      assert LastSize(replies, last);
    }
  }

  lemma {:induction false} SomeLast(replies: seq<Reply>, k: nat) returns (last: nat)
    requires k < |replies| && Announced(replies[k]).Some?
    ensures LastSize(replies, last)
    decreases |replies| - k
  {
    if j :| k < j < |replies| && Announced(replies[j]).Some? {
      last := SomeLast(replies, j);
    } else {
      last := k;
    }
  }

  lemma {:induction false} TakesMore(server: Server, before: seq<Reply>, p: Progress) returns (replies: seq<Reply>)
    requires |before| <= 6 && Asked(server, before) && Gathered(before, p) && !Settled(before)
    ensures TookOn(server, replies, |before|, p)
    decreases 6 - |before|
  {
    replies := before;
    if |before| == 6 {
      TookNone(server, before);
    } else {
      var reply := server(|before|, |p.bytes|);
      replies := before + [reply];
      TakesOne(server, before, p, reply);
      if !Ends(reply, p) {
        replies := TakesMore(server, replies, p.After(reply));
      }
    }
  }

  lemma TakesOne(server: Server, before: seq<Reply>, p: Progress, reply: Reply)
    requires |before| < 6 && Asked(server, before) && Gathered(before, p) && !Settled(before)
    requires reply == server(|before|, |p.bytes|)
    ensures Asked(server, before + [reply]) && Gathered(before + [reply], p.After(reply))
    ensures Settled(before + [reply]) <==> Ends(reply, p)
    ensures Ends(reply, p) ==> TookOn(server, before + [reply], |before|, p)
    ensures !Ends(reply, p) ==> Run(server, |before|, p) == Run(server, |before| + 1, p.After(reply))
  {
    OneGathered(before, p, reply);
    OneAsked(server, before, reply);
    SettledIs(before, reply, p.After(reply));
    assert Ends(reply, p) <==> Suffices(reply, p.After(reply));
    if Ends(reply, p) {
      TookLast(server, before, reply, p.After(reply));
    }
  }

  ghost predicate TookOn(server: Server, replies: seq<Reply>, n: nat, p: Progress) {
    Took(server, replies, Run(server, n, p))
  }

  lemma TookNone(server: Server, replies: seq<Reply>)
    requires |replies| == 6 && Asked(server, replies) && !Settled(replies)
    ensures Took(server, replies, Err)
  {}

  lemma TookLast(server: Server, before: seq<Reply>, reply: Reply, p: Progress)
    requires |before| < 6 && Asked(server, before + [reply])
    requires Gathered(before + [reply], p) && Suffices(reply, p)
    ensures Took(server, before + [reply], Ok(p))
  {
    assert (before + [reply])[|before|] == reply;
  }

  lemma SettledIs(before: seq<Reply>, reply: Reply, p: Progress)
    requires Gathered(before + [reply], p)
    ensures Settled(before + [reply]) <==> Suffices(reply, p)
  {
    var replies := before + [reply];
    assert replies[|replies| - 1] == reply;
    if q :| Gathered(replies, q) && Suffices(replies[|replies| - 1], q) {
      GatheredOnce(replies, p, q);
    }
  }

  lemma OneAsked(server: Server, before: seq<Reply>, reply: Reply)
    requires Asked(server, before) && AskedAt(server, before, reply)
    ensures Asked(server, before + [reply])
  {
    var all := before + [reply];
    forall k | 0 <= k < |all|
      ensures AskedAt(server, all[..k], all[k])
    {
      assert all[..k] == if k < |before| then before[..k] else before;
    }
  }

  /** What every download takes, and what comes of it. */
  lemma DownloadTakes(server: Server) returns (replies: seq<Reply>)
    ensures Took(server, replies, Run(server, 0, START))
  {
    assert GatheredFrom([], START, 0);
    replies := TakesMore(server, [], START);
  }

  /** The answer brings all that is missing. */
  predicate Whole(reply: Reply, file: Bytes, offset: nat) {
    && Clean(reply)
    && (reply.Partial? ==> offset <= |file| && Concat(reply.chunks) == file[offset..])
    && (reply.Full? ==> Concat(reply.chunks) == file)
  }

  /** The download succeeds, with the whole file, at the first attempt that brings all that is
      missing, unless an earlier one has ended it. */
  lemma WholeAnswerSuffices(server: Server, file: Bytes, n: nat, p: Progress)
    requires HonestAlong(server, file, n, p) && p.Sound(file) && n < ATTEMPTS
    requires Whole(server(n, |p.bytes|), file, |p.bytes|)
    ensures Run(server, n, p).Ok? && Run(server, n, p).value.bytes == file
  {
    var reply := server(n, |p.bytes|);
    SoundAfter(p, reply, file);
    assert file == file[..|p.bytes|] + file[|p.bytes|..];
  }

  /** An honest server that does not say how long the file is, and stops early without an
      error, is believed: what is returned is not the file. */
  lemma UnknownSizeCutsShort(file: Bytes, k: nat)
    requires k < |file|
    ensures
      var server: Server := (n: nat, offset: nat) => Full(None, [file[..k]], false);
      HonestServer(server, file) && Run(server, 0, START) == Ok(Progress(file[..k], None))
  {
    var server: Server := (n: nat, offset: nat) => Full(None, [file[..k]], false);
    ConcatOne(file[..k]);
    assert Run(server, 0, START) == Ok(Progress(file[..k], None));
  }

  // ----- when the result can be trusted

  /** The size of the whole file, where the answer gives it. */
  function Announced(reply: Reply): Option<nat> {
    match reply
    case Refused => None
    case Partial(range, _, _) => range
    case Full(length, _, _) => length
  }

  /** Some answer met from attempt `n` on said that the file has `size` bytes. */
  predicate Told(server: Server, size: nat, n: nat, p: Progress)
    decreases ATTEMPTS - n
  {
    n < ATTEMPTS &&
      var reply := server(n, |p.bytes|);
      || Announced(reply) == Some(size)
      || (!Ends(reply, p) && Told(server, size, n + 1, p.After(reply)))
  }

  /** What was said about the size is right. */
  lemma {:induction false} ToldIsSize(server: Server, file: Bytes, size: nat, n: nat, p: Progress)
    requires HonestAlong(server, file, n, p) && Told(server, size, n, p)
    ensures size == |file|
    decreases ATTEMPTS - n
  {
    var reply := server(n, |p.bytes|);
    if Announced(reply) != Some(size) {
      ToldIsSize(server, file, size, n + 1, p.After(reply));
    }
  }

  /** If nothing was said about the size, all might as well have come from a longer file. */
  lemma {:induction false} UntoldGrows(server: Server, file: Bytes, more: Bytes, n: nat, p: Progress)
    requires HonestAlong(server, file, n, p) && forall size :: !Told(server, size, n, p)
    ensures HonestAlong(server, file + more, n, p)
    decreases ATTEMPTS - n
  {
    if n < ATTEMPTS {
      var reply := server(n, |p.bytes|);
      assert Announced(reply).Some? ==> Told(server, Announced(reply).value, n, p);
      if reply.Partial? {
        assert (file + more)[|p.bytes|..] == file[|p.bytes|..] + more;
      }
      if !Ends(reply, p) {
        var m, next := n + 1, p.After(reply);
        assert forall size :: Told(server, size, m, next) ==> Told(server, size, n, p);
        UntoldGrows(server, file, more, m, next);
      }
    }
  }

  /** Whichever file the answers from attempt `n` on are honest about, it is `b`. */
  ghost predicate Sure(server: Server, b: Bytes, n: nat, p: Progress) {
    forall file :: HonestAlong(server, file, n, p) ==> file == b
  }

  /** When a download that succeeded is sure to have brought the file, whichever file the
      answers were honest about: exactly if one of them had announced as many bytes as came. */
  lemma CertainIffTold(server: Server, some: Bytes)
    requires HonestAlong(server, some, 0, START) && Run(server, 0, START).Ok?
    ensures
      var b := Run(server, 0, START).value.bytes;
      Sure(server, b, 0, START) <==> Told(server, |b|, 0, START)
  {
    var b := Run(server, 0, START).value.bytes;
    if Told(server, |b|, 0, START) {
      forall file | HonestAlong(server, file, 0, START)
        ensures file == b
      {
        RunIsSound(server, file, 0, START);
        ToldIsSize(server, file, |b|, 0, START);
      }
    } else if size :| Told(server, size, 0, START) {
      ToldIsSize(server, some, size, 0, START);
    } else {
      UntoldGrows(server, some, [0], 0, START);
      var longer := some + [0];
      assert HonestAlong(server, longer, 0, START) && some != longer;
    }
  }

  lemma ConcatOne(chunk: Bytes)
    ensures Concat([chunk]) == chunk
  {
    assert [chunk][1..] == [];
  }

  /** A size that was announced is forgotten when the file comes from its beginning without
      one: `k` bytes are taken for the file although more had been announced, and had come. */
  lemma SizeForgotten(file: Bytes, j: nat, k: nat)
    requires k < j <= |file|
    ensures
      var server := Forgetful(file, j, k);
      && HonestServer(server, file)
      && server(0, 0) == Full(Some(|file|), [file[..j]], true) && Told(server, |file|, 0, START)
      && Run(server, 0, START) == Ok(Progress(file[..k], None))
  {
    var server := Forgetful(file, j, k);
    ConcatOne(file[..j]);
    ConcatOne(file[..k]);
    var broken := START.After(server(0, 0));
    assert broken == Progress(file[..j], Some(|file|));
    assert server(1, j) == Full(None, [file[..k]], false);
    assert Run(server, 1, broken) == Ok(Progress(file[..k], None));
  }

  /** First the size and `j` bytes, then `k` bytes from the beginning without a size. */
  function Forgetful(file: Bytes, j: nat, k: nat): Server
    requires k < j <= |file|
  {
    (n: nat, offset: nat) =>
      if n == 0 then Full(Some(|file|), [file[..j]], true) else Full(None, [file[..k]], false)
  }
}
