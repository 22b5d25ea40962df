/** The router's hash-based suffix list, and its agreement with the packed tree. */
module SuffixSet {
  import opened Common
  import opened SuccinctTrie
  import opened DomainEntries
  import opened RuleSetFile

  /** `trim_start_matches('.')`. */
  function TrimDots(s: Bytes): Bytes {
    if s != [] && s[0] == DOT then TrimDots(s[1..]) else s
  }

  function Normalised(s: Bytes): Bytes {
    LowerAll(TrimDots(s))
  }

  /** All dots in front go, and nothing but dots; what is left is in lower case. */
  lemma {:induction false} NormalisedIs(s: Bytes) returns (dots: nat)
    ensures dots <= |s| && Normalised(s) == LowerAll(s[dots..])
    ensures (forall k :: 0 <= k < dots ==> s[k] == '.' as int) && (dots < |s| ==> s[dots] != '.' as int)
  {
    if s != [] && s[0] == DOT {
      var more := NormalisedIs(s[1..]);
      dots := more + 1;
      assert s[1..][more..] == s[dots..];
      assert forall k :: 0 < k < dots ==> s[k] == s[1..][k - 1];
    } else {
      dots := 0;
      assert s[0..] == s;
    }
  }

  function NormalisedAll(list: seq<Bytes>): (r: seq<Bytes>)
    ensures |r| == |list| && forall i :: 0 <= i < |list| ==> r[i] == Normalised(list[i])
  {
    if list == [] then [] else [Normalised(list[0])] + NormalisedAll(list[1..])
  }

  /** Some listed suffix is the name or one of its parents. */
  ghost predicate Covered(suffixes: set<Bytes>, name: Bytes) {
    exists s :: s in suffixes && Under(name, s)
  }

  datatype SuffixSet = SuffixSet(names: set<Bytes>)
  {
    /** Probe the name and each of its parents, from the longest to the shortest. */
    method Matches(domain: Bytes) returns (hit: bool)
      ensures hit <==> Covered(names, domain)
    {
      var rest := domain;
      while true
        invariant Covered(names, domain) <==> Covered(names, rest)
        decreases |rest|
      {
        if rest in names {
          assert Under(rest, rest);
          return true;
        }
        var dot := 0;
        while dot < |rest| && rest[dot] != DOT
          invariant dot <= |rest|
          invariant forall i :: 0 <= i < dot ==> rest[i] != DOT
        {
          dot := dot + 1;
        }
        CutAtDot(names, rest, dot);
        if dot == |rest| {
          return false;
        }
        rest := rest[dot + 1..];
      }
    }
  }

  method NewSuffixSet(list: seq<Bytes>) returns (s: SuffixSet)
    ensures forall x :: x in s.names <==> x in NormalisedAll(list)
  {
    var names := {};
    ghost var all := NormalisedAll(list);
    for i := 0 to |list|
      invariant forall x :: x in names <==> exists k :: 0 <= k < i && all[k] == x
    {
      names := names + {Normalised(list[i])};
      assert all[i] == Normalised(list[i]);
    }
    s := SuffixSet(names);
  }

  /** A parent of `rest` is what follows its first dot, or a parent of that. */
  lemma CutAtDot(names: set<Bytes>, rest: Bytes, dot: nat)
    requires dot <= |rest| && rest !in names
    requires forall i :: 0 <= i < dot ==> rest[i] != DOT
    requires dot < |rest| ==> rest[dot] == DOT
    ensures dot == |rest| ==> !Covered(names, rest)
    ensures dot < |rest| ==> (Covered(names, rest) <==> Covered(names, rest[dot + 1..]))
  {
    forall s | s in names
      ensures Under(rest, s) <==> dot < |rest| && Under(rest[dot + 1..], s)
    {
      UnderTail(rest, s);
      if dot < |rest| {
        var tail := rest[dot + 1..];
        UnderTail(tail, s);
        if |s| <= |tail| {
          assert tail[|tail| - |s|..] == rest[|rest| - |s|..];
        }
      }
    }
  }

  /** A line feed and a listed suffix: what the packed tree takes for the suffix. */
  ghost predicate FeedThenListed(suffixes: set<Bytes>, name: Bytes) {
    exists s :: s in suffixes && name == [ROOT_LABEL] + s
  }

  lemma OnlySuffixes(suffixes: seq<Bytes>, names: set<Bytes>, name: Bytes)
    requires forall x :: x in names <==> x in suffixes
    ensures Listed(Entries([], suffixes, []), name) <==> Covered(names, name)
  {}

  lemma CoveredByIndex(list: seq<Bytes>, names: set<Bytes>, name: Bytes)
    requires forall x :: x in names <==> x in NormalisedAll(list)
    ensures Covered(names, name) <==> exists i :: 0 <= i < |list| && Under(name, Normalised(list[i]))
  {
    if s :| s in names && Under(name, s) {
      var i :| 0 <= i < |list| && NormalisedAll(list)[i] == s;
    }
    if i :| 0 <= i < |list| && Under(name, Normalised(list[i])) {
      assert NormalisedAll(list)[i] in names;
    }
  }

  /** The hash probes and the packed tree of the same suffixes agree on every name, but for
      a suffix behind a line feed. */
  lemma SuffixSetAgreesWithTrie(list: seq<Bytes>, table: SuffixSet, ds: DomainSet, name: Bytes)
    requires forall x :: x in table.names <==> x in NormalisedAll(list)
    requires Answers(ds, Entries([], NormalisedAll(list), []))
    requires Entries([], NormalisedAll(list), []).Clean()
    ensures Covered(table.names, name) <==> exists i :: 0 <= i < |list| && Under(name, Normalised(list[i]))
    ensures ds.Answer(name) <==> Covered(table.names, name) || FeedThenListed(table.names, name)
  {
    MistoldSuffixes(Entries([], NormalisedAll(list), []), name);
    OnlySuffixes(NormalisedAll(list), table.names, name);
    CoveredByIndex(list, table.names, name);
  }
}
