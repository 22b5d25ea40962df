/** Reading and writing the domain tree of a rule-set file, end to end. */
module RuleSetFile {
  import opened Common
  import opened Words
  import opened Bitmap
  import opened PackedBits
  import opened SuccinctTrie
  import opened DocumentCodec
  import opened Keys
  import opened TrieBuilder
  import opened TrieMeaning
  import opened DomainEntries

  /** What `read` checks of a decoded document: one zero fewer than ones up to the last one,
      and a label for each zero. */
  ghost predicate Sound(bitmap: seq<Word>, labels: Bytes) {
    var b := Unpack(bitmap);
    Ones(b) > 0 && Last(b) + 1 == Ones(b) + |labels| && |labels| + 1 == Ones(b)
  }

  method SumOnes(bitmap: seq<Word>) returns (ones: nat)
    ensures ones == Ones(Unpack(bitmap))
  {
    ones := 0;
    for i := 0 to |bitmap|
      invariant ones == Rank(Unpack(bitmap), 64 * i)
    {
      RankInWord(bitmap, i, 64);
      ones := ones + CountOnes(bitmap[i]);
    }
  }

  /** The place of the last one, or -1. */
  method LastOne(bitmap: seq<Word>) returns (last: int)
    ensures Ones(Unpack(bitmap)) == 0 ==> last == -1
    ensures Ones(Unpack(bitmap)) > 0 ==> last == Last(Unpack(bitmap))
  {
    last := -1;
    for i := |bitmap| downto 0
      invariant forall k :: i <= k < |bitmap| ==> bitmap[k] == 0
    {
      if bitmap[i] != 0 {
        last := 64 * i + (63 - LeadingZeros(bitmap[i]));
        LastInWord(bitmap, i);
        return;
      }
    }
    if Ones(Unpack(bitmap)) > 0 {
      var k, j := BitPlace(bitmap, Last(Unpack(bitmap)));
      NoBits(j);
    }
  }

  /** A set bit of the array is a set bit of one of its words. */
  lemma BitPlace(ws: seq<Word>, p: nat) returns (k: nat, j: nat)
    requires At(Unpack(ws), p)
    ensures k < |ws| && j < 64 && p == 64 * k + j && Bit(ws[k], j)
  {
    k, j := p / 64, p % 64;
    UnpackAt(ws, k, j);
  }

  lemma LastInWord(bitmap: seq<Word>, i: nat)
    requires i < |bitmap| && bitmap[i] != 0 && forall k :: i < k < |bitmap| ==> bitmap[k] == 0
    ensures Ones(Unpack(bitmap)) > 0
    ensures Last(Unpack(bitmap)) == 64 * i + (63 - LeadingZeros(bitmap[i]))
  {
    ZeroWord(bitmap[i]);
    var n := LengthBelow(bitmap[i], 64);
    UnpackAt(bitmap, i, n - 1);
    forall q: nat | At(Unpack(bitmap), q)
      ensures q <= 64 * i + (n - 1)
    {
      LaterBit(bitmap, i, n, q);
    }
    LastUnique(Unpack(bitmap), 64 * i + (n - 1));
  }

  lemma LaterBit(bitmap: seq<Word>, i: nat, n: nat, q: nat)
    requires i < |bitmap| && forall k :: i < k < |bitmap| ==> bitmap[k] == 0
    requires n <= 64 && forall j :: n <= j < 64 ==> !Bit(bitmap[i], j)
    requires At(Unpack(bitmap), q)
    ensures q < 64 * i + n
  {
    var k, j := BitPlace(bitmap, q);
    NoBits(j);
    assert k <= i;
    assert k == i ==> j < n;
  }

  lemma LastUnique(b: Bits, p: nat)
    requires At(b, p) && forall q: nat :: At(b, q) ==> q <= p
    ensures Ones(b) > 0 && Last(b) == p
  {
    LastIsLast(b, p);
  }

  /** The label limit keeps every place of a sound bitmap within the 32-bit samples. */
  lemma SoundFits(bitmap: seq<Word>, labels: Bytes)
    requires Sound(bitmap, labels) && |labels| <= 0x1000_0000
    ensures Fits32(Unpack(bitmap))
  {
    forall p: nat | At(Unpack(bitmap), p)
      ensures p < U32
    {
      LastIsLast(Unpack(bitmap), p);
    }
  }

  lemma {:induction false} PadLeaves(leaves: seq<Word>, n: nat, k: nat)
    ensures At(Unpack(leaves + seq(n, _ => 0)), k) == At(Unpack(leaves), k)
  {
    if n == 0 {
      assert leaves + seq(n, _ => 0) == leaves;
    } else {
      PadLeaves(leaves, n - 1, k);
      assert leaves + seq(n, _ => 0) == leaves + seq(n - 1, _ => 0) + [0];
      AppendZero(leaves + seq(n - 1, _ => 0), k);
    }
  }

  lemma LabelsLimited(data: Bytes)
    ensures Decode(data).Ok? ==> |Decode(data).value.labels| <= 0x1000_0000
  {}

  /** The vectors of a document, before they are checked. */
  method ReadVectors(r: Reader) returns (out: Result<(seq<Word>, seq<Word>, Bytes)>)
    modifies r
    ensures out.Ok? <==> Decode(old(r.rest)).Ok?
    ensures out.Ok? ==> Decode(old(r.rest)) == Ok(Raw(out.value.0, out.value.1, out.value.2, r.rest))
  {
    var _ :- r.ReadByte();
    var leaves :- r.ReadU64s();
    var bitmap :- r.ReadU64s();
    var n :- r.ReadLen();
    var labels :- r.ReadExact(n);
    out := Ok((leaves, bitmap, labels));
  }

  /** Room for `need` words of leaf bits. */
  method Padded(leaves0: seq<Word>, need: nat) returns (leaves: seq<Word>)
    ensures forall k: nat :: At(Unpack(leaves), k) == At(Unpack(leaves0), k)
  {
    leaves := leaves0;
    if |leaves| < need {
      leaves := leaves + seq(need - |leaves|, _ => 0);
      forall k: nat
        ensures At(Unpack(leaves), k) == At(Unpack(leaves0), k)
      {
        PadLeaves(leaves0, need - |leaves0|, k);
      }
    }
  }

  /** The check of `read`. */
  method IsSound(bitmap: seq<Word>, labels: Bytes) returns (ok: bool, ones: nat)
    ensures ok <==> Sound(bitmap, labels)
  {
    ones := SumOnes(bitmap);
    var last := LastOne(bitmap);
    var zeros := last + 1 - Min(ones, last + 1);
    ok := ones == zeros + 1 && |labels| == zeros;
  }

  /** `read`: accepts exactly the sound documents, whoever wrote them. */
  method Read(r: Reader) returns (out: Result<DomainSet>)
    modifies r
    ensures out.Ok? <==>
      (var raw := Decode(old(r.rest)); raw.Ok? && Sound(raw.value.bitmap, raw.value.labels))
    ensures out.Ok? ==>
      var raw := Decode(old(r.rest)).value;
      && out.value.Accepted() && r.rest == raw.rest
      && out.value.bitmap == raw.bitmap && out.value.labels == raw.labels
      && forall k: nat :: out.value.Leaf(k) == At(Unpack(raw.leaves), k)
  {
    var vectors :- ReadVectors(r);
    var leaves0, bitmap, labels := vectors.0, vectors.1, vectors.2;
    LabelsLimited(old(r.rest));
    var ok, ones := IsSound(bitmap, labels);
    if !ok {
      return Err;
    }
    var leaves := Padded(leaves0, (ones + 63) / 64);
    SoundFits(bitmap, labels);
    var ranks, selects := BuildIndex(bitmap);
    out := Ok(DomainSet(leaves, bitmap, labels, ranks, selects));
  }

  // ----- writing

  /** The builder's `uvar`. */
  method WriteUvarint(out0: Bytes, v0: nat) returns (out: Bytes)
    ensures out == out0 + Uvarint(v0)
  {
    out := out0;
    var v := v0;
    while v >= 0x80
      invariant out + Uvarint(v) == out0 + Uvarint(v0)
    {
      out := out + [v % 0x80 + 0x80];
      v := v / 0x80;
    }
    out := out + [v];
  }

  method WriteVector(out0: Bytes, ws: seq<Word>) returns (out: Bytes)
    ensures out == out0 + VectorBytes(ws)
  {
    out := WriteUvarint(out0, |ws|);
    for i := 0 to |ws|
      invariant out + WordsBytes(ws[i..]) == out0 + VectorBytes(ws)
    {
      assert ws[i..][0] == ws[i] && ws[i..][1..] == ws[i + 1..];
      out := out + BigEndian.ToBytes(ws[i], 8);
    }
  }

  method Write(leaves: seq<Word>, bitmap: seq<Word>, labels: Bytes) returns (out: Bytes)
    ensures out == Encode(leaves, bitmap, labels)
  {
    out := WriteVector([0], leaves);
    out := WriteVector(out, bitmap);
    out := WriteUvarint(out, |labels|);
    out := out + labels;
    EncodeFlat(leaves, bitmap, labels);
  }

  lemma EncodeFlat(leaves: seq<Word>, bitmap: seq<Word>, labels: Bytes)
    ensures Encode(leaves, bitmap, labels)
      == [0] + VectorBytes(leaves) + VectorBytes(bitmap) + Uvarint(|labels|) + labels
  {
    Reassociate([0], VectorBytes(leaves), VectorBytes(bitmap) + (Uvarint(|labels|) + labels));
    Reassociate([0] + VectorBytes(leaves), VectorBytes(bitmap), Uvarint(|labels|) + labels);
    Reassociate([0] + VectorBytes(leaves) + VectorBytes(bitmap), Uvarint(|labels|), labels);
  }

  // ----- how many nodes a tree has

  lemma ChildFor(keys: seq<Bytes>, pre: seq<Bytes>, from: nat, labs: Bytes, k: Bytes, n: nat) returns (p: nat)
    requires k in keys && n < |k| && Children(keys, pre, k[..n], from, labs)
    ensures p < |pre| && pre[p] == k[..n + 1]
  {
    assert k[..n] <= k && k[|k[..n]|] == k[n];
    var c :| 0 <= c < |labs| && labs[c] == k[n];
    p := from + c;
    assert k[..n] + [k[n]] == k[..n + 1];
  }

  lemma {:induction false} EveryPrefix(keys: seq<Bytes>, pre: seq<Bytes>, ends: seq<nat>, labels: Bytes,
      k: Bytes, n: nat) returns (p: nat)
    requires Parents(keys, pre, ends, labels, |pre|) && |pre| > 0 && pre[0] == []
    requires k in keys && n <= |k|
    ensures p < |pre| && pre[p] == k[..n]
  {
    if n == 0 {
      p := 0;
    } else {
      var q := EveryPrefix(keys, pre, ends, labels, k, n - 1);
      assert ChildrenOf(keys, pre, ends, labels, q);
      p := ChildFor(keys, pre, First(ends, q), Tags(labels, First(ends, q), ends[q]), k, n - 1);
    }
  }

  lemma {:induction false} CoveredBound(s: set<Bytes>, a: seq<Bytes>)
    requires forall x :: x in s ==> x in a
    ensures |s| <= |a|
  {
    if a == [] {
      assert s == {};
    } else {
      CoveredBound(s - {a[|a| - 1]}, a[..|a| - 1]);
      assert |s| <= |s - {a[|a| - 1]}| + 1 by {
        assert s <= s - {a[|a| - 1]} + {a[|a| - 1]};
        SubsetSize(s, s - {a[|a| - 1]} + {a[|a| - 1]});
      }
    }
  }

  lemma SubsetSize(s: set<Bytes>, t: set<Bytes>)
    requires s <= t
    ensures |s| <= |t|
  {
    assert t == s + (t - s);
  }

  /** The tree has one node for every prefix of a key. */
  lemma NodeCount(keys: seq<Bytes>, pre: seq<Bytes>, ends: seq<nat>, labels: Bytes)
    requires Tree(keys, pre, ends, labels, |pre|)
    ensures |pre| == |Prefixes(keys)|
  {
    DistinctBound(pre, Prefixes(keys));
    forall q | q in Prefixes(keys)
      ensures q in pre
    {
      var j, n :| 0 <= j < |keys| && 0 <= n <= |keys[j]| && keys[j][..n] == q;
      var p := EveryPrefix(keys, pre, ends, labels, keys[j], n);
    }
    CoveredBound(Prefixes(keys), pre);
  }

  lemma SamePrefixes(a: seq<Bytes>, b: seq<Bytes>)
    requires forall k :: k in a <==> k in b
    ensures Prefixes(a) == Prefixes(b)
  {
    forall q | q in Prefixes(a)
      ensures q in Prefixes(b)
    {
      var j, n :| 0 <= j < |a| && 0 <= n <= |a[j]| && a[j][..n] == q;
      assert a[j] in b;
      var i :| 0 <= i < |b| && b[i] == a[j];
    }
    forall q | q in Prefixes(b)
      ensures q in Prefixes(a)
    {
      var j, n :| 0 <= j < |b| && 0 <= n <= |b[j]| && b[j][..n] == q;
      assert b[j] in a;
      var i :| 0 <= i < |a| && a[i] == b[j];
    }
  }

  // ----- a list of entries, written, read and asked

  /** `ds` answers every name as the list says, but for the names that are told wrong. */
  ghost predicate Answers(ds: DomainSet, e: Entries) {
    ds.Accepted() && forall name :: ds.Answer(name) <==> (Listed(e, name) != Mistold(e, name))
  }

  lemma HoldsAnswers(ds: DomainSet, e: Entries, keys: seq<Bytes>, pre: seq<Bytes>, ends: seq<nat>)
    requires e.Clean() && Holds(ds, keys, pre, ends)
    requires forall k :: k in keys <==> k in KeysOf(e)
    ensures Answers(ds, e)
  {
    KeysClean(e);
    AllNodeFacts(ds, keys, pre, ends);
    assert KeysOk(keys);
    forall name: Bytes
      ensures ds.Answer(name) <==> (Listed(e, name) != Mistold(e, name))
    {
      if m :| FeedBefore(e, name, m) {
        FeedAnswer(ds, e, keys, pre, ends, name, m);
      } else {
        PlainAnswer(ds, e, keys, pre, ends, name);
      }
    }
  }

  /** With a line feed in front of a suffix entry. */
  lemma FeedAnswer(ds: DomainSet, e: Entries, keys: seq<Bytes>, pre: seq<Bytes>, ends: seq<nat>, name: Bytes, m: nat)
    requires e.Clean() && NodesOk(ds, keys, pre, ends) && KeysOk(keys) && FeedBefore(e, name, m)
    requires forall k :: k in keys <==> k in KeysOf(e)
    ensures ds.Answer(name) <==> (Listed(e, name) != Mistold(e, name))
  {
    SnagMeaning(e, name, m);
    SameMember(keys, KeysOf(e), Reversed(name), m);
    FeedSettles(e, name, m);
    var hit := WalkToSnag(ds, keys, pre, ends, name, 0, 0, m);
  }

  /** Without one. */
  lemma PlainAnswer(ds: DomainSet, e: Entries, keys: seq<Bytes>, pre: seq<Bytes>, ends: seq<nat>, name: Bytes)
    requires e.Clean() && NodesOk(ds, keys, pre, ends) && forall m :: !FeedBefore(e, name, m)
    requires forall k :: k in keys <==> k in KeysOf(e)
    ensures ds.Answer(name) <==> Listed(e, name)
  {
    forall i | 0 <= i < |name|
      ensures !Snag(keys, Reversed(name), i)
    {
      SnagMeaning(e, name, i);
      SameMember(keys, KeysOf(e), Reversed(name), i);
    }
    WalkMember(ds, keys, pre, ends, name, 0, 0);
    SameMember(keys, KeysOf(e), Reversed(name), 0);
    MemberIsListed(e, name);
  }

  lemma SameMember(a: seq<Bytes>, b: seq<Bytes>, r: Bytes, i: nat)
    requires (forall k :: k in a <==> k in b) && i <= |r|
    ensures Member(a, r, 0) <==> Member(b, r, 0)
    ensures HitBefore(a, r, 0, i) <==> HitBefore(b, r, 0, i)
    ensures i < |r| ==> (Snag(a, r, i) <==> Snag(b, r, i))
  {
    assert forall m :: 0 <= m <= |r| ==> Hit(a, r, m) == Hit(b, r, m);
  }

  /** A tree in memory passes the check of the reader. */
  lemma TreeSound(keys: seq<Bytes>, pre: seq<Bytes>, ends: seq<nat>, labels: Bytes, bitmap: seq<Word>,
      leaves: seq<Word>)
    requires Tree(keys, pre, ends, labels, |pre|) && TrieBuilder.Marked(keys, bitmap, leaves, pre, ends, |pre|)
    ensures Sound(bitmap, labels)
  {
    SelectIsStop(Unpack(bitmap), ends, |ends| - 1);
  }

  /** Build the tree for a list of entries, write it and read it back.  That succeeds
      exactly when the reversed, marked names have at most 2^28 non-empty prefixes,
      and then the set answers as the list does. */
  method DomainSetOf(e: Entries) returns (out: Result<DomainSet>)
    requires e.Clean() && !e.Empty()
    requires 2 * |Prefixes(KeysOf(e))| < U64
    ensures out.Ok? <==> |Prefixes(KeysOf(e))| <= 0x1000_0001
    ensures out.Ok? ==> Answers(out.value, e)
  {
    var leaves, bitmap, labels, keys, pre, ends := BuildSet(KeysOf(e));
    SamePrefixes(keys, KeysOf(e));
    NodeCount(keys, pre, ends, labels);
    var doc := Write(leaves, bitmap, labels);
    DocumentRoundTrip(leaves, bitmap, labels, []);
    assert doc + [] == doc;
    var reader := new Reader(doc);
    out := Read(reader);
    TreeSound(keys, pre, ends, labels, bitmap, leaves);
    if out.Ok? {
      HoldsAnswers(out.value, e, keys, pre, ends);
    }
  }

  /** From a list of entries to an answer, through the written document. */
  method Ask(e: Entries, name: Bytes) returns (r: Option<bool>)
    requires e.Clean() && !e.Empty()
    requires |Prefixes(KeysOf(e))| <= 0x1000_0001
    ensures r == Some(Listed(e, name) != Mistold(e, name))
    ensures ROOT_LABEL !in name ==> r == Some(Listed(e, name))
  {
    var ds := DomainSetOf(e);
    r := ds.value.Lookup(name);
  }
}
