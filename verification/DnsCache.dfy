/** The reply cache of a DNS server, as the steps that many tasks take in any order. */
module DnsCache {
  import opened Common
  import opened DnsMessage
  import opened DnsReply

  const CACHE_MAX: nat := 4096
  const MIN_TTL: nat := 10
  const MAX_TTL: nat := 3600
  /** Instants count nanoseconds. */
  const SECOND: nat := 1_000_000_000

  type Key = (Bytes, nat)

  datatype Entry = Entry(reply: Bytes, until: nat)

  /** A reply from upstream to a question, and when it was put away. */
  datatype Received = Received(key: Key, reply: Bytes, at: nat)

  function Clamped(ttl: nat): nat {
    Max(MIN_TTL, Min(ttl, MAX_TTL))
  }

  /** How long to keep a reply, if at all. */
  function Life(reply: Bytes): Option<nat> {
    var answers := Answers(reply);
    if answers.Some? && answers.value.1 != NO_TTL && |reply| > 3 && reply[3] % 16 == 0
    then Some(Clamped(answers.value.1) * SECOND)
    else None
  }

  /** The reply, but for the id, which is that of the query. */
  ghost predicate SameButId(hit: Bytes, reply: Bytes, query: Bytes) {
    && |hit| == |reply| >= 2 && |query| >= 2 && hit[0] == query[0] && hit[1] == query[1]
    && forall k :: 2 <= k < |reply| ==> hit[k] == reply[k]
  }

  /** The reply under another id. */
  function Readdressed(reply: Bytes, query: Bytes): (hit: Bytes)
    requires |reply| >= 2 && |query| >= 2
    ensures SameButId(hit, reply, query)
  {
    query[..2] + reply[2..]
  }

  /** A reply is kept exactly if it says NOERROR and gives an address whose life is not the
      largest number; for as many seconds as that says, but at least ten and at most an hour. */
  lemma LifeIs(reply: Bytes)
    ensures Life(reply).Some? <==>
      Answers(reply).Some? && Answers(reply).value.1 != 0xFFFF_FFFF && |reply| >= 4 && reply[3] % 16 == 0
    ensures Life(reply).Some? ==>
      var ttl, life := Answers(reply).value.1, Life(reply).value;
      && (ttl <= 10 ==> life == 10_000_000_000) && (ttl >= 3600 ==> life == 3_600_000_000_000)
      && (10 <= ttl <= 3600 ==> life == ttl * 1_000_000_000)
  {}

  /** What is kept says NOERROR and has an address; it is kept for no longer than any of its
      addresses lives, give or take the bounds of ten seconds and an hour. */
  lemma KeptReply(reply: Bytes)
    requires Life(reply).Some?
    ensures |reply| >= 8 && reply[3] % 16 == 0 && Answers(reply).Some? && Answers(reply).value.0 != []
    ensures MIN_TTL * SECOND <= Life(reply).value <= MAX_TTL * SECOND
    ensures forall r :: r in AllRecords(reply).value && AddressOf(r).Some? ==>
      Life(reply).value <= Max(MIN_TTL, r.ttl) * SECOND
  {
    TtlMeansAddress(AllRecords(reply).value);
  }

  method KeepFor(reply: Bytes) returns (r: Option<nat>)
    ensures r == Life(reply)
  {
    var answers := ParseAnswers(reply);
    if answers.Some? && answers.value.1 != NO_TTL && |reply| > 3 && reply[3] % 16 == 0 {
      return Some(Clamped(answers.value.1) * SECOND);
    }
    return None;
  }

  /** The entry is a reply that came for the key, with its clamped life. */
  ghost predicate From(history: set<Received>, key: Key, e: Entry) {
    exists at: nat :: Came(history, key, e, at)
  }

  ghost predicate Came(history: set<Received>, key: Key, e: Entry, at: nat) {
    && Received(key, e.reply, at) in history
    && Life(e.reply).Some? && e.until == at + Life(e.reply).value
  }

  ghost predicate AllFrom(history: set<Received>, entries: map<Key, Entry>) {
    forall key :: key in entries ==> From(history, key, entries[key])
  }

  lemma HistoryGrows(history: set<Received>, more: set<Received>, entries: map<Key, Entry>)
    requires AllFrom(history, entries) && history <= more
    ensures AllFrom(more, entries)
  {
    forall key | key in entries
      ensures From(more, key, entries[key])
    {
      FromGrows(history, more, key, entries[key]);
    }
  }

  lemma FromGrows(history: set<Received>, more: set<Received>, key: Key, e: Entry)
    requires From(history, key, e) && history <= more
    ensures From(more, key, e)
  {
    var at: nat :| Came(history, key, e, at);
    assert Came(more, key, e, at);
  }

  lemma InsertedFrom(history: set<Received>, entries: map<Key, Entry>, key: Key, reply: Bytes, at: nat)
    requires AllFrom(history, entries) && Received(key, reply, at) in history && Life(reply).Some?
    ensures AllFrom(history, entries[key := Entry(reply, at + Life(reply).value)])
    ensures |entries[key := Entry(reply, at + Life(reply).value)]| <= |entries| + 1
  {
    var after := entries[key := Entry(reply, at + Life(reply).value)];
    assert after.Keys == entries.Keys + {key};
    assert Came(history, key, after[key], at);
    forall k | k in after
      ensures From(history, k, after[k])
    {
      if k != key {
        assert From(history, k, entries[k]);
      }
    }
  }

  class Cache {
    var entries: map<Key, Entry>
    ghost var history: set<Received>

    ghost predicate Valid()
      reads this
    {
      |entries| <= 4096 && AllFrom(history, entries)
    }

    constructor ()
      ensures Valid() && entries == map[] && history == {}
    {
      entries, history := map[], {};
    }

    /** The look into the cache, under its lock.  A hit is an earlier reply for the very name
        and type, not older than its shortest life, clamped; only the id is the caller's. */
    method Find(key: Key, query: Bytes, now: nat) returns (hit: Option<Bytes>)
      requires Valid() && |query| >= 2
      ensures hit.Some? ==>
        exists r :: r in history && r.key == key && Life(r.reply).Some? && |r.reply| >= 8
          && now < r.at + Life(r.reply).value && SameButId(hit.value, r.reply, query)
      ensures hit.None? <==> !(key in entries && now < entries[key].until)
    {
      if key in entries {
        var e := entries[key];
        assert From(history, key, e);
        if e.until > now {
          KeptReply(e.reply);
          ghost var at: nat :| Came(history, key, e, at);
          assert Received(key, e.reply, at) in history;
          return Some(Readdressed(e.reply, query));
        }
      }
      return None;
    }

    /** Putting a reply away, under the lock: `now` is the time of eviction, `later` that of
        the insertion. */
    method Store(key: Key, reply: Bytes, now: nat, later: nat)
      requires Valid()
      modifies this
      ensures Valid()
      ensures history == old(history) + {Received(key, reply, later)}
      ensures entries == Stored(old(entries), key, reply, Life(reply), now, later)
    {
      StoredOk(history, entries, key, reply, now, later);
      history := history + {Received(key, reply, later)};
      var life := KeepFor(reply);
      ghost var stored := Stored(entries, key, reply, life, now, later);
      assert stored == Stored(entries, key, reply, Life(reply), now, later);
      if life.Some? {
        MakeRoom(now);
        entries := entries[key := Entry(reply, later + life.value)];
      }
      assert entries == stored;
    }

    /** A full cache loses what ran out; if that is nothing, everything. */
    method MakeRoom(now: nat)
      requires |entries| <= CACHE_MAX
      modifies this`entries
      ensures entries == Roomed(old(entries), now)
    {
      if |entries| >= CACHE_MAX {
        entries := Retained(entries, now);
        if |entries| >= CACHE_MAX {
          entries := map[];
        }
      }
    }

    /** One exchange: `upstream` is what the server would reply. */
    method ExchangeCached(key: Key, query: Bytes, upstream: Result<Bytes>, start: nat, now: nat, later: nat)
      returns (r: Result<Bytes>)
      requires Valid() && |query| >= 2
      modifies this
      ensures Valid() && old(history) <= history
      ensures r.Ok? && r != upstream ==>
        exists e :: e in old(history) && e.key == key && Life(e.reply).Some? && |e.reply| >= 8
          && start < e.at + Life(e.reply).value && SameButId(r.value, e.reply, query)
      ensures r.Err? ==> r == upstream && entries == old(entries)
    {
      var hit := Find(key, query, start);
      if hit.Some? {
        return Ok(hit.value);
      }
      r := upstream;
      if r.Ok? {
        Store(key, r.value, now, later);
      }
    }
  }

  /** `retain`: what has not run out. */
  function Retained(entries: map<Key, Entry>, now: nat): (r: map<Key, Entry>)
    ensures forall k :: k in r <==> k in entries && entries[k].until > now
    ensures forall k :: k in r ==> r[k] == entries[k]
    ensures |r| <= |entries|
    ensures (exists k :: k in entries && entries[k].until <= now) ==> |r| < |entries|
  {
    var r := map k | k in entries && entries[k].until > now :: entries[k];
    assert |r| <= |entries| && ((exists k :: k in entries && entries[k].until <= now) ==> |r| < |entries|) by {
      RetainedFewer(entries, r, now);
    }
    r
  }

  /** The entries that stay when one is to be added. */
  ghost function Roomed(entries: map<Key, Entry>, now: nat): map<Key, Entry> {
    if |entries| < CACHE_MAX then entries
    else if |Retained(entries, now)| < CACHE_MAX then Retained(entries, now)
    else map[]
  }

  /** There is room; what stays is as it was; and what is still good stays, unless the cache
      is full of it. */
  lemma RoomedKeeps(history: set<Received>, entries: map<Key, Entry>, now: nat)
    requires |entries| <= CACHE_MAX
    ensures |Roomed(entries, now)| < 4096
    ensures AllFrom(history, entries) ==> AllFrom(history, Roomed(entries, now))
    ensures forall k :: k in Roomed(entries, now) ==> k in entries && Roomed(entries, now)[k] == entries[k]
    ensures forall k :: k in entries && entries[k].until > now ==>
      (k in Roomed(entries, now) || (|entries| == 4096 && forall j :: j in entries ==> entries[j].until > now))
  {
    RetainedFewer(entries, Retained(entries, now), now);
    forall key | key in Roomed(entries, now)
      ensures AllFrom(history, entries) ==> From(history, key, Roomed(entries, now)[key])
    {}
  }

  /** The entries once a reply with that life has come. */
  ghost function Stored(entries: map<Key, Entry>, key: Key, reply: Bytes, life: Option<nat>, now: nat, later: nat)
    : map<Key, Entry>
  {
    if life.None? then entries else Roomed(entries, now)[key := Entry(reply, later + life.value)]
  }

  lemma StoredOk(history: set<Received>, entries: map<Key, Entry>, key: Key, reply: Bytes, now: nat, later: nat)
    requires |entries| <= CACHE_MAX && AllFrom(history, entries)
    ensures |Stored(entries, key, reply, Life(reply), now, later)| <= CACHE_MAX
    ensures AllFrom(history + {Received(key, reply, later)}, Stored(entries, key, reply, Life(reply), now, later))
  {
    var more := history + {Received(key, reply, later)};
    HistoryGrows(history, more, entries);
    RoomedKeeps(more, entries, now);
    if Life(reply).Some? {
      InsertedFrom(more, Roomed(entries, now), key, reply, later);
    }
  }

  lemma RetainedFewer(entries: map<Key, Entry>, r: map<Key, Entry>, now: nat)
    requires forall k :: k in r <==> k in entries && entries[k].until > now
    ensures |r| <= |entries|
    ensures (exists k :: k in entries && entries[k].until <= now) ==> |r| < |entries|
  {
    assert r.Keys <= entries.Keys;
    var gone := entries.Keys - r.Keys;
    assert entries.Keys == r.Keys + gone;
    if k :| k in entries && entries[k].until <= now {
      assert k in gone;
    }
  }
}
