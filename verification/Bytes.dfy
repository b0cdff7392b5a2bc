/** Bytes, as the Go source's `byte`. */
module Bytes {
  type Byte = b: int | 0 <= b < 256

  lemma {:induction false} Associate(a: seq<Byte>, b: seq<Byte>, c: seq<Byte>)
    ensures a + b + c == a + (b + c)
  {}

  lemma {:induction false} Behind(s: seq<Byte>, i: nat, n: nat)
    requires i + n <= |s|
    ensures s[i..][n..] == s[i + n..]
  {}

  /** All parts, in order. */
  function Concat(parts: seq<seq<Byte>>): seq<Byte> {
    if parts == [] then [] else Concat(parts[..|parts| - 1]) + parts[|parts| - 1]
  }

  lemma {:induction false} ConcatMore(parts: seq<seq<Byte>>, p: seq<Byte>)
    ensures Concat(parts + [p]) == Concat(parts) + p
  {
    assert (parts + [p])[..|parts|] == parts;
  }

  lemma {:induction false} ConcatLength(parts: seq<seq<Byte>>, i: nat)
    requires i <= |parts|
    ensures |Concat(parts[..i])| <= |Concat(parts)|
    ensures i < |parts| ==> Concat(parts[..i + 1]) == Concat(parts[..i]) + parts[i]
    decreases |parts|
  {
    if i < |parts| {
      assert parts[..i + 1][..i] == parts[..i];
      var front := parts[..|parts| - 1];
      ConcatLength(front, i);
      assert front[..i] == parts[..i];
    } else {
      assert parts[..i] == parts;
    }
  }
}
