/**
 html.UnescapeString as the source runs it: one buffer, a read cursor src and a write cursor
 dst that never overtakes it.
 */
module HtmlInPlace {
  import opened Bytes
  import opened ByteSource
  import opened Splitting
  import opened Grammar
  import opened Html

  /** The loop over the digits of a numeric reference. */
  method ReadNumber(s: seq<Byte>, i0: nat, hex: bool) returns (x: int, i: nat)
    requires i0 <= |s|
    ensures (x, i) == Number(s, i0, hex, 0)
  {
    x, i := 0, i0;
    while i < |s|
      invariant i <= |s| && Number(s, i0, hex, 0) == Number(s, i, hex, x)
    {
      var c := s[i];
      i := i + 1;
      if hex {
        if IsHex(c) {
          x := Wrap32(16 * x + Unhex(c));
          continue;
        }
      } else if IsDigit(c) {
        x := Wrap32(10 * x + Unhex(c));
        continue;
      }
      if c != SEMICOLON {
        i := i - 1;
      }
      break;
    }
  }

  /** The loop over the characters of a name. */
  method ReadName(s: seq<Byte>) returns (i: nat)
    requires |s| > 1
    ensures i == NameEnd(s, 1)
  {
    i := 1;
    while i < |s|
      invariant 1 <= i <= |s| && NameEnd(s, 1) == NameEnd(s, i)
    {
      var c := s[i];
      i := i + 1;
      if IsAlnum(c) {
        continue;
      }
      if c != SEMICOLON {
        i := i - 1;
      }
      break;
    }
  }

  /** The loop over the prefixes of a name, the longest first. */
  method FindPrefix(t: Tables, name: seq<Byte>) returns (k: nat)
    requires name != []
    ensures k == PrefixEntity(t, name, MaxPrefix(name))
  {
    var j := MaxPrefix(name);
    while j > 1
      invariant j <= MaxPrefix(name)
      invariant PrefixEntity(t, name, MaxPrefix(name)) == PrefixEntity(t, name, j)
    {
      if One(t, name[..j]) != 0 {
        return j;
      }
      j := j - 1;
    }
    return 0;
  }

  /** What the reference at the start of s stands for, found by the source's loops. */
  method ReadReference(t: Tables, s: seq<Byte>) returns (r: Reference)
    requires s != [] && s[0] == AMPERSAND
    ensures r == Refer(t, s)
  {
    if |s| <= 1 {
      return Reference(s[..1], 1);
    }
    if s[1] == HASH {
      if |s| <= 3 {
        return Reference(s[..1], 1);
      }
      var hex := s[2] == 0x78 || s[2] == 0x58;
      var x, i := ReadNumber(s, if hex then 3 else 2, hex);
      if i <= 3 {
        return Reference(s[..1], 1);
      }
      return Reference(Encoded(Repair(x)), i);
    }
    var i := ReadName(s);
    var name := s[1..i];
    if |name| > 0 {
      if One(t, name) != 0 {
        return Reference(Encoded(One(t, name)), i);
      }
      if Two(t, name).0 != 0 {
        return Reference(Encoded(Two(t, name).0) + Encoded(Two(t, name).1), i);
      }
      var j := FindPrefix(t, name);
      if j > 1 {
        return Reference(Encoded(One(t, name[..j])), j + 1);
      }
    }
    return Reference(s[..i], i);
  }

  /** unescapeEntity: write what the reference at src stands for at dst. */
  method UnescapeEntity(t: Tables, b: array<Byte>, dst: nat, src: nat) returns (dst1: nat, src1: nat)
    requires Fits(t) && dst <= src < b.Length && b[src] == AMPERSAND
    modifies b
    ensures dst <= dst1 <= src1 <= b.Length && src < src1
    ensures var r := Refer(t, old(b[src..])); src1 == src + r.size && b[..dst1] == old(b[..dst]) + r.out
    ensures b[src1..] == old(b[src1..])
  {
    hide Refer, Fits;
    var s := b[src..];
    var r := ReadReference(t, s);
    ReferFits(t, s);
    dst1, src1 := dst + |r.out|, src + r.size;
    ghost var rest := b[src1..];
    Store(b, dst, r.out);
    assert forall i :: dst1 <= i < b.Length ==> b[i] == b[dst1..][i - dst1];
  }

  lemma {:induction false} UnescapeText(t: Tables, s: seq<Byte>, i: nat)
    requires i <= |s| && AMPERSAND !in s[..i]
    ensures Unescape(t, s) == s[..i] + Unescape(t, s[i..])
    decreases i
  {
    if i > 0 {
      assert s[0] == s[..i][0];
      assert s[1..][..i - 1] == s[..i][1..];
      UnescapeText(t, s[1..], i - 1);
      assert s[1..][i - 1..] == s[i..];
      assert s[..i] == [s[0]] + s[1..][..i - 1];
    } else {
      assert s[..0] == [] && s[0..] == s;
    }
  }

  /** The buffer up to dst is the result so far; from src on it is still the input. */
  ghost predicate Halfway(t: Tables, s: seq<Byte>, b: seq<Byte>, dst: nat, src: nat) {
    && dst <= src <= |s| == |b|
    && b[src..] == s[src..]
    && Unescape(t, s) == b[..dst] + Unescape(t, s[src..])
  }

  /** Copy i bytes of plain text. */
  method CopyText(t: Tables, s: seq<Byte>, b: array<Byte>, dst: nat, src: nat, i: nat)
    requires Halfway(t, s, b[..], dst, src)
    requires src + i <= |s| && AMPERSAND !in s[src..src + i]
    modifies b
    ensures Halfway(t, s, b[..], dst + i, src + i)
  {
    hide Unescape;
    ghost var b0 := b[..];
    Store(b, dst, s[src..src + i]);
    ghost var b1 := b[..];
    assert b1[..dst + i] == b0[..dst] + s[src..src + i];
    assert b1[dst + i..] == b0[dst + i..];
    SuffixOf(b1, b0, dst + i, src + i);
    SuffixOf(b0, s, src, src + i);
    HalfwayText(t, s, b0[..dst], src, i);
  }

  lemma {:induction false} SuffixOf(a: seq<Byte>, b: seq<Byte>, i: nat, j: nat)
    requires i <= j <= |a| == |b| && a[i..] == b[i..]
    ensures a[j..] == b[j..]
  {
    assert a[i..][j - i..] == a[j..] && b[i..][j - i..] == b[j..];
  }

  /** Unescape the reference at src. */
  method TakeReference(t: Tables, s: seq<Byte>, b: array<Byte>, dst: nat, src: nat) returns (dst1: nat, src1: nat)
    requires Fits(t) && Halfway(t, s, b[..], dst, src) && src < |s| && s[src] == AMPERSAND
    modifies b
    ensures Halfway(t, s, b[..], dst1, src1) && src1 > src
  {
    hide Fits, Unescape, Refer;
    ghost var b0 := b[..];
    assert b[src] == b0[src..][0] && b[src..] == s[src..] && b[..dst] == b0[..dst];
    dst1, src1 := UnescapeEntity(t, b, dst, src);
    ghost var b1 := b[..];
    assert b1[..dst1] == b[..dst1] && b1[src1..] == b0[src1..];
    SuffixOf(b0, s, src, src1);
    HalfwayReference(t, s, b0[..dst], src);
  }

  lemma {:induction false} HalfwayText(t: Tables, s: seq<Byte>, out: seq<Byte>, src: nat, i: nat)
    requires src + i <= |s| && AMPERSAND !in s[src..src + i] && Unescape(t, s) == out + Unescape(t, s[src..])
    ensures Unescape(t, s) == out + s[src..src + i] + Unescape(t, s[src + i..])
  {
    hide Unescape;
    assert s[src..][..i] == s[src..src + i] && s[src..][i..] == s[src + i..];
    UnescapeText(t, s[src..], i);
  }

  lemma {:induction false} HalfwayReference(t: Tables, s: seq<Byte>, out: seq<Byte>, src: nat)
    requires src < |s| && s[src] == AMPERSAND && Unescape(t, s) == out + Unescape(t, s[src..])
    ensures var r := Refer(t, s[src..]); Unescape(t, s) == out + r.out + Unescape(t, s[src + r.size..])
  {
    var r := Refer(t, s[src..]);
    assert Unescape(t, s[src..]) == r.out + Unescape(t, s[src..][r.size..]);
    hide Unescape, Refer;
    assert s[src..][r.size..] == s[src + r.size..];
  }

  /** The length of the plain text at src. */
  method TextLength(s: seq<Byte>, src: nat) returns (i: nat)
    requires src <= |s|
    ensures src + i <= |s| && AMPERSAND !in s[src..src + i]
    ensures if src + i < |s| then s[src + i] == AMPERSAND else AMPERSAND !in s[src..]
  {
    i := IndexByte(s[src..], AMPERSAND);
    assert s[src..src + i] == s[src..][..i];
    assert src + i == |s| ==> s[src..] == s[src..src + i];
  }

  /** []byte(s) */
  method BytesOf(s: seq<Byte>) returns (b: array<Byte>)
    ensures fresh(b) && b.Length == |s| && b[..] == s
  {
    b := new Byte[|s|];
    Store(b, 0, s);
  }

  lemma {:induction false} PlainText(t: Tables, s: seq<Byte>)
    requires AMPERSAND !in s[0..]
    ensures Unescape(t, s) == s
  {
    HalfwayStart(t, s);
    HalfwayLast(t, s, s, 0, 0);
    hide Halfway, Unescape;
    assert s[..0] + s[0..] == s;
  }

  /** UnescapeString. */
  method UnescapeString(t: Tables, s: seq<Byte>) returns (r: seq<Byte>)
    requires Fits(t)
    ensures r == Unescape(t, s)
  {
    hide Fits, Unescape, Halfway;
    HalfwayStart(t, s);
    var i := TextLength(s, 0);
    if i == |s| {
      PlainText(t, s);
      return s;
    }
    var b := BytesOf(s);
    CopyText(t, s, b, 0, 0, i);
    var dst, src := TakeReference(t, s, b, i, i);
    r := UnescapeRest(t, s, b, dst, src);
  }

  /** The loop of UnescapeString. */
  method UnescapeRest(t: Tables, s: seq<Byte>, b: array<Byte>, dst0: nat, src0: nat) returns (r: seq<Byte>)
    requires Fits(t) && b.Length == |s| && Halfway(t, s, b[..], dst0, src0)
    modifies b
    ensures r == Unescape(t, s)
  {
    hide Fits, Unescape, Halfway;
    var dst, src := dst0, src0;
    while src < |s|
      invariant Halfway(t, s, b[..], dst, src)
      decreases |s| - src
    {
      HalfwayLast(t, s, b[..], dst, src);
      var i := TextLength(s, src);
      if src + i == |s| {
        Store(b, dst, s[src..]);
        return b[..dst + i];
      }
      if i > 0 {
        CopyText(t, s, b, dst, src, i);
      }
      dst, src := TakeReference(t, s, b, dst + i, src + i);
    }
    HalfwayLast(t, s, b[..], dst, src);
    assert s[src..] == [];
    return b[..dst];
  }

  lemma {:induction false} HalfwayStart(t: Tables, s: seq<Byte>)
    ensures Halfway(t, s, s, 0, 0)
  {
    hide Unescape;
    assert s[0..] == s && s[..0] == [];
  }

  lemma {:induction false} HalfwayLast(t: Tables, s: seq<Byte>, b: seq<Byte>, dst: nat, src: nat)
    requires Halfway(t, s, b, dst, src)
    ensures dst <= src <= |s| == |b|
    ensures AMPERSAND !in s[src..] ==> Unescape(t, s) == b[..dst] + s[src..]
  {
    hide Unescape;
    if AMPERSAND !in s[src..] {
      NoReference(t, s, b[..dst], src);
    }
  }

  lemma {:induction false} NoReference(t: Tables, s: seq<Byte>, out: seq<Byte>, src: nat)
    requires src <= |s| && AMPERSAND !in s[src..] && Unescape(t, s) == out + Unescape(t, s[src..])
    ensures Unescape(t, s) == out + s[src..]
  {
    var rest := s[src..];
    assert rest[..|rest|] == rest && rest[|rest|..] == [];
    UnescapeText(t, rest, |rest|);
    assert Unescape(t, []) == [];
  }
}
