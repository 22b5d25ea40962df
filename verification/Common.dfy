/** Types shared by every part of the model. */
module Common {

  type byte = b: nat | b < 256

  type Bytes = seq<byte>

  const DOT: byte := 46

  /** The types of DNS records that hold an address. */
  const QTYPE_A: nat := 1
  const QTYPE_AAAA: nat := 28

  datatype Option<+T> = None | Some(value: T)

  /** An operation that can fail the way `io::Result` does; the message is not modelled. */
  datatype Result<+T> = Ok(value: T) | Err {
    predicate IsFailure() {
      Err?
    }

    function PropagateFailure<U>(): Result<U>
      requires Err?
    {
      Err
    }

    function Extract(): T
      requires Ok?
    {
      value
    }
  }

  function Min(a: nat, b: nat): nat {
    if a <= b then a else b
  }

  function Max(a: nat, b: nat): nat {
    if a <= b then b else a
  }

  /** ASCII lower case. */
  function Lower(b: byte): byte {
    if 65 <= b <= 90 then b + 32 else b
  }

  /** Capital letters become small ones, and nothing else changes. */
  lemma LowerIs(b: byte)
    ensures 'A' as int <= b <= 'Z' as int ==> Lower(b) == 'a' as int + (b - 'A' as int)
    ensures b < 'A' as int || 'Z' as int < b ==> Lower(b) == b
  {}

  function LowerAll(s: Bytes): (r: Bytes)
    ensures |r| == |s| && forall i :: 0 <= i < |s| ==> r[i] == Lower(s[i])
  {
    seq(|s|, i requires 0 <= i < |s| => Lower(s[i]))
  }

  lemma Reassociate(a: Bytes, b: Bytes, c: Bytes)
    ensures (a + b) + c == a + (b + c)
  {}

  /** `b` stands in `data` at place `i`. */
  ghost predicate Has(data: Bytes, i: nat, b: Bytes) {
    i + |b| <= |data| && forall k :: 0 <= k < |b| ==> data[i + k] == b[k]
  }

  lemma HasParts(data: Bytes, i: nat, a: Bytes, b: Bytes)
    requires Has(data, i, a + b)
    ensures Has(data, i, a) && Has(data, i + |a|, b)
  {
    forall k | 0 <= k < |a|
      ensures data[i + k] == a[k]
    {
      assert (a + b)[k] == a[k];
    }
    forall k | 0 <= k < |b|
      ensures data[i + |a| + k] == b[k]
    {
      assert (a + b)[|a| + k] == b[k];
    }
  }

  lemma HasFour(data: Bytes, i: nat, a: Bytes, b: Bytes, c: Bytes, d: Bytes)
    requires Has(data, i, a + b + c + d)
    ensures Has(data, i, a) && Has(data, i + |a|, b) && Has(data, i + |a| + |b|, c + d)
  {
    assert a + b + c + d == a + (b + (c + d));
    HasParts(data, i, a, b + (c + d));
    HasParts(data, i + |a|, b, c + d);
  }

  lemma HasFirst(data: Bytes, i: nat, b: Bytes)
    requires Has(data, i, b) && b != []
    ensures i < |data| && data[i] == b[0]
  {
    assert data[i + 0] == b[0];
  }
}
