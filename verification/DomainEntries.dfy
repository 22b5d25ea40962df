/** What a domain list means, and the keys it is stored under. */
module DomainEntries {
  import opened Common
  import opened SuccinctTrie
  import opened TrieMeaning

  /** Names that match exactly, names that match with all their subdomains, and names that
      match any longer name they end. */
  datatype Entries = Entries(domains: seq<Bytes>, suffixes: seq<Bytes>, prefixes: seq<Bytes>)
  {
    /** No name carries a byte that could be taken for a marker. */
    ghost predicate Clean() {
      forall s :: s in domains || s in suffixes || s in prefixes ==> NameOk(s)
    }

    predicate Empty() {
      domains == [] && suffixes == [] && prefixes == []
    }
  }

  predicate NameOk(name: Bytes) {
    forall i :: 0 <= i < |name| ==> name[i] > PREFIX_LABEL
  }

  predicate EndsWith(name: Bytes, tail: Bytes) {
    |tail| <= |name| && name[|name| - |tail|..] == tail
  }

  /** The name is `s` itself or one of its subdomains. */
  predicate Under(name: Bytes, s: Bytes) {
    name == s || EndsWith(name, [DOT] + s)
  }

  /** The meaning of a list of entries. */
  ghost predicate Listed(e: Entries, name: Bytes) {
    || name in e.domains
    || (exists s :: s in e.suffixes && Under(name, s))
    || (exists p :: p in e.prefixes && EndsWith(name, p))
  }

  /** The keys under which names are stored: reversed, behind a marker put in front. */
  function Keyed(names: seq<Bytes>, front: Bytes): (r: seq<Bytes>)
    ensures |r| == |names|
    ensures forall i :: 0 <= i < |names| ==> r[i] == Reversed(front + names[i])
  {
    if names == [] then [] else [Reversed(front + names[0])] + Keyed(names[1..], front)
  }

  function KeysOf(e: Entries): seq<Bytes> {
    Keyed(e.domains, []) + Keyed(e.suffixes, [ROOT_LABEL]) + Keyed(e.prefixes, [PREFIX_LABEL])
  }

  /** The markers: a line feed in front of a suffix entry, a carriage return before a prefix. */
  lemma MarkedKeys(e: Entries)
    ensures KeysOf(e)
      == Keyed(e.domains, []) + Keyed(e.suffixes, ['\n' as byte]) + Keyed(e.prefixes, ['\r' as byte])
  {}

  lemma KeyedHas(names: seq<Bytes>, front: Bytes, k: Bytes)
    ensures k in Keyed(names, front) <==> exists s :: s in names && k == Reversed(front + s)
  {
    if k in Keyed(names, front) {
      var i :| 0 <= i < |names| && Keyed(names, front)[i] == k;
      assert names[i] in names;
    }
    if s :| s in names && k == Reversed(front + s) {
      var i :| 0 <= i < |names| && names[i] == s;
      assert Keyed(names, front)[i] == k;
    }
  }

  lemma ReversedTwice(s: Bytes)
    ensures Reversed(Reversed(s)) == s
  {}

  lemma ReversedInjective(a: Bytes, b: Bytes)
    ensures Reversed(a) == Reversed(b) <==> a == b
  {
    ReversedTwice(a);
    ReversedTwice(b);
  }

  lemma FrontSplit(marker: byte, t: Bytes, front: Bytes, s: Bytes)
    requires NameOk(s) && marker <= PREFIX_LABEL && |front| <= 1
    ensures [marker] + t == front + s <==> front == [marker] && t == s
  {
    var a, b := [marker] + t, front + s;
    if front != [] && a == b {
      assert a[0] == marker && b[0] == front[0];
      assert a[1..] == t && b[1..] == s;
    }
    if front == [] {
      assert b == s && a[0] == marker;
    }
  }

  /** A marked key of the list belongs to the list that uses the marker. */
  lemma KeyedFront(names: seq<Bytes>, front: Bytes, t: Bytes, marker: byte)
    requires forall s :: s in names ==> NameOk(s)
    requires front == [] || |front| == 1
    requires marker == ROOT_LABEL || marker == PREFIX_LABEL
    requires |front| == 1 ==> front[0] == ROOT_LABEL || front[0] == PREFIX_LABEL
    ensures Reversed([marker] + t) in Keyed(names, front) <==> front == [marker] && t in names
  {
    KeyedHas(names, front, Reversed([marker] + t));
    forall s | s in names
      ensures Reversed([marker] + t) == Reversed(front + s) <==> front == [marker] && t == s
    {
      ReversedInjective([marker] + t, front + s);
      FrontSplit(marker, t, front, s);
    }
  }

  lemma MarkedKey(e: Entries, t: Bytes, marker: byte)
    requires e.Clean() && (marker == ROOT_LABEL || marker == PREFIX_LABEL)
    ensures Reversed([marker] + t) in KeysOf(e) <==> t in if marker == ROOT_LABEL then e.suffixes else e.prefixes
  {
    KeyedFront(e.domains, [], t, marker);
    KeyedFront(e.suffixes, [ROOT_LABEL], t, marker);
    KeyedFront(e.prefixes, [PREFIX_LABEL], t, marker);
  }

  lemma {:induction false} ReversedAppend(a: Bytes, b: Bytes)
    ensures Reversed(a + b) == Reversed(b) + Reversed(a)
  {}

  /** Reading `m` bytes of the reversed name is reading the last `m` bytes of the name. */
  lemma TailReversed(name: Bytes, m: nat, x: byte)
    requires m <= |name|
    ensures Reversed(name)[..m] + [x] == Reversed([x] + name[|name| - m..])
  {
    var a, t := name[..|name| - m], name[|name| - m..];
    assert name == a + t;
    ReversedAppend(a, t);
    assert (Reversed(t) + Reversed(a))[..m] == Reversed(t);
    assert ([x] + t)[1..] == t;
  }

  /** The last `m` bytes of the name are an entry that covers the name. */
  ghost predicate TailListed(e: Entries, name: Bytes, m: nat)
    requires m <= |name|
  {
    var t := name[|name| - m..];
    t in e.prefixes || (t in e.suffixes && (m == |name| || name[|name| - m - 1] == DOT))
  }

  lemma HitByTail(keys: seq<Bytes>, e: Entries, name: Bytes, r: Bytes, m: nat)
    requires m <= |name| == |r|
    requires m < |name| ==> r[m] == name[|name| - m - 1]
    requires r[..m] + [ROOT_LABEL] in keys <==> name[|name| - m..] in e.suffixes
    requires r[..m] + [PREFIX_LABEL] in keys <==> name[|name| - m..] in e.prefixes
    ensures Hit(keys, r, m) <==> TailListed(e, name, m)
  {}

  /** A hit after `m` bytes is an entry equal to the last `m` bytes of the name. */
  lemma HitMeaning(e: Entries, name: Bytes, m: nat)
    requires e.Clean() && m <= |name|
    ensures Hit(KeysOf(e), Reversed(name), m) <==> TailListed(e, name, m)
  {
    MarkedTail(e, name, m, ROOT_LABEL);
    MarkedTail(e, name, m, PREFIX_LABEL);
    HitByTail(KeysOf(e), e, name, Reversed(name), m);
  }

  lemma MarkedTail(e: Entries, name: Bytes, m: nat, marker: byte)
    requires e.Clean() && m <= |name| && (marker == ROOT_LABEL || marker == PREFIX_LABEL)
    ensures Reversed(name)[..m] + [marker] in KeysOf(e)
      <==> name[|name| - m..] in if marker == ROOT_LABEL then e.suffixes else e.prefixes
  {
    TailReversed(name, m, marker);
    MarkedKey(e, name[|name| - m..], marker);
  }

  /** An exact key is a domain, unless the name itself starts with the suffix marker. */
  lemma ExactMeaning(e: Entries, name: Bytes)
    requires e.Clean() && forall s :: s in e.suffixes ==> name != [ROOT_LABEL] + s
    ensures Reversed(name) in KeysOf(e) ==> name in e.domains || (exists p :: p in e.prefixes && EndsWith(name, p))
    ensures name in e.domains ==> Reversed(name) in KeysOf(e)
  {
    var r := Reversed(name);
    KeyedHas(e.domains, [], r);
    KeyedHas(e.suffixes, [ROOT_LABEL], r);
    KeyedHas(e.prefixes, [PREFIX_LABEL], r);
    forall s: Bytes
      ensures r == Reversed([] + s) <==> name == s
      ensures r == Reversed([ROOT_LABEL] + s) <==> name == [ROOT_LABEL] + s
      ensures r == Reversed([PREFIX_LABEL] + s) ==> EndsWith(name, s)
    {
      assert [] + s == s;
      ReversedInjective(name, s);
      ReversedInjective(name, [ROOT_LABEL] + s);
      ReversedInjective(name, [PREFIX_LABEL] + s);
    }
  }

  lemma UnderTail(name: Bytes, s: Bytes)
    ensures Under(name, s) <==>
      |s| <= |name| && name[|name| - |s|..] == s && (|s| == |name| || name[|name| - |s| - 1] == DOT)
  {
    if |s| < |name| {
      var tail := name[|name| - |s| - 1..];
      assert tail == [tail[0]] + name[|name| - |s|..];
      assert tail == [DOT] + s <==> tail[0] == DOT && name[|name| - |s|..] == s;
    }
  }

  /** Some tail of the name is listed exactly when a suffix or prefix entry covers it. */
  lemma SomeTail(e: Entries, name: Bytes)
    ensures (exists m :: 0 <= m <= |name| && TailListed(e, name, m))
      <==> (exists s :: s in e.suffixes && Under(name, s)) || (exists p :: p in e.prefixes && EndsWith(name, p))
  {
    if m :| 0 <= m <= |name| && TailListed(e, name, m) {
      var t := name[|name| - m..];
      UnderTail(name, t);
      assert (t in e.suffixes && Under(name, t)) || (t in e.prefixes && EndsWith(name, t));
    }
    if s :| s in e.suffixes && Under(name, s) {
      UnderTail(name, s);
      assert TailListed(e, name, |s|);
    }
    if p :| p in e.prefixes && EndsWith(name, p) {
      assert TailListed(e, name, |p|);
    }
  }

  /** Before the last `m` bytes the name has a line feed, and those bytes are a suffix entry. */
  ghost predicate FeedBefore(e: Entries, name: Bytes, m: nat) {
    m < |name| && name[|name| - m - 1] == ROOT_LABEL && name[|name| - m..] in e.suffixes
  }

  /** A shorter tail of the name than `m` bytes is listed. */
  ghost predicate ShorterListed(e: Entries, name: Bytes, m: nat)
    requires m <= |name|
  {
    exists j :: 0 <= j < m && TailListed(e, name, j)
  }

  /** The names that are told wrong: a line feed stands where the tree keeps the marker of a
      suffix entry, and nothing shorter settles the name.  Then the answer is yes if the
      name starts there, though it should be yes if what follows is a prefix entry. */
  ghost predicate MistoldAt(e: Entries, name: Bytes, m: nat) {
    && FeedBefore(e, name, m) && !ShorterListed(e, name, m)
    && ((m + 1 == |name|) != (name[|name| - m..] in e.prefixes))
  }

  ghost predicate Mistold(e: Entries, name: Bytes) {
    exists m :: MistoldAt(e, name, m)
  }

  /** Where such a line feed stands is where the walk meets a marker. */
  lemma SnagMeaning(e: Entries, name: Bytes, m: nat)
    requires e.Clean() && m < |name|
    ensures Snag(KeysOf(e), Reversed(name), m) <==> FeedBefore(e, name, m)
    ensures HitBefore(KeysOf(e), Reversed(name), 0, m) <==> ShorterListed(e, name, m)
  {
    MarkedTail(e, name, m, ROOT_LABEL);
    forall j | 0 <= j < m
      ensures Hit(KeysOf(e), Reversed(name), j) <==> TailListed(e, name, j)
    {
      HitMeaning(e, name, j);
    }
  }

  /** Past such a line feed no tail is listed, so the list decides on the tails before it. */
  lemma FeedSettles(e: Entries, name: Bytes, m: nat)
    requires e.Clean() && FeedBefore(e, name, m)
    ensures Listed(e, name) <==> ShorterListed(e, name, m) || name[|name| - m..] in e.prefixes
    ensures Mistold(e, name) <==> MistoldAt(e, name, m)
  {
    SomeTail(e, name);
    var at := |name| - m - 1;
    assert !NameOk(name);
    forall j | m < j <= |name|
      ensures !TailListed(e, name, j) && !FeedBefore(e, name, j)
    {
      assert name[|name| - j..][at - (|name| - j)] == ROOT_LABEL;
    }
    forall j | 0 <= j < m
      ensures !FeedBefore(e, name, j)
    {
      assert name[|name| - m..][m - j - 1] == name[|name| - j - 1];
    }
    assert TailListed(e, name, m) <==> name[|name| - m..] in e.prefixes;
  }

  /** A line feed in front of a suffix entry is taken for the entry itself: "\na" against
      the suffix "a". */
  lemma FeedIsMistold()
    ensures var e := Entries([], [[97]], []);
      Mistold(e, [ROOT_LABEL, 97]) && !Listed(e, [ROOT_LABEL, 97])
  {
    var e, name := Entries([], [[97]], []), [ROOT_LABEL, 97];
    assert name[|name| - 1..] == [97];
    FeedSettles(e, name, 1);
    assert name[|name| - 0..] == [];
    assert MistoldAt(e, name, 1);
  }

  /** With no prefix entries the wrong answers are those alone. */
  lemma MistoldSuffixes(e: Entries, name: Bytes)
    requires e.Clean() && e.prefixes == []
    ensures (Listed(e, name) != Mistold(e, name))
      <==> (Listed(e, name) || exists s :: s in e.suffixes && name == [ROOT_LABEL] + s)
  {
    if s :| s in e.suffixes && name == [ROOT_LABEL] + s {
      assert name[1..] == s;
      FeedSettles(e, name, |s|);
    }
    if Mistold(e, name) {
      var m :| MistoldAt(e, name, m);
      FeedSettles(e, name, m);
      assert name == [ROOT_LABEL] + name[1..];
    }
  }

  /** Membership of the keys is membership of the list. */
  lemma MemberIsListed(e: Entries, name: Bytes)
    requires e.Clean() && forall m :: !FeedBefore(e, name, m)
    ensures Member(KeysOf(e), Reversed(name), 0) <==> Listed(e, name)
  {
    forall s | s in e.suffixes
      ensures name != [ROOT_LABEL] + s
    {
      if name == [ROOT_LABEL] + s {
        assert FeedBefore(e, name, |s|);
      }
    }
    ExactMeaning(e, name);
    SomeTail(e, name);
    forall m | 0 <= m <= |name|
      ensures Hit(KeysOf(e), Reversed(name), m) <==> TailListed(e, name, m)
    {
      HitMeaning(e, name, m);
    }
  }

  lemma KeysClean(e: Entries)
    requires e.Clean()
    ensures KeysOk(KeysOf(e))
  {
    forall k | k in KeysOf(e)
      ensures KeyOk(k)
    {
      KeyedHas(e.domains, [], k);
      KeyedHas(e.suffixes, [ROOT_LABEL], k);
      KeyedHas(e.prefixes, [PREFIX_LABEL], k);
    }
  }
}
