/**
 UTF-8 as unicode/utf8/utf8.go decodes it (section 4 of RFC 3629): the width and the range
 of second bytes are fixed by the first byte; anything else is one byte of error.
 */
module Utf8 {
  import opened Bytes

  const RUNE_ERROR: nat := 0xFFFD
  const RUNE_SELF: nat := 0x80

  /** The width a first byte announces; 1 for ASCII and for bytes that start no rune. */
  function Width(b: Byte): (n: nat)
    ensures 1 <= n <= 4
  {
    if 0xC2 <= b <= 0xDF then 2
    else if 0xE0 <= b <= 0xEF then 3
    else if 0xF0 <= b <= 0xF4 then 4
    else 1
  }

  predicate Continuation(b: Byte) { 0x80 <= b <= 0xBF }

  /** The accepted range of second bytes. */
  predicate SecondOk(first: Byte, second: Byte) {
    && (if first == 0xE0 then 0xA0 else if first == 0xF0 then 0x90 else 0x80) <= second
    && second <= (if first == 0xED then 0x9F else if first == 0xF4 then 0x8F else 0xBF)
  }

  /** p begins with a complete encoding of more than one byte. */
  predicate Multibyte(p: seq<Byte>) {
    && |p| > 1 && Width(p[0]) > 1 && |p| >= Width(p[0])
    && SecondOk(p[0], p[1])
    && (Width(p[0]) > 2 ==> Continuation(p[2]))
    && (Width(p[0]) > 3 ==> Continuation(p[3]))
  }

  /** utf8.DecodeRune. */
  function DecodeRune(p: seq<Byte>): (r: (nat, nat))
    ensures r.1 <= |p| && r.1 <= 4 && (p != [] ==> r.1 > 0)
    ensures r.1 > 1 <==> Multibyte(p)
  {
    if p == [] then (RUNE_ERROR, 0)
    else if p[0] < RUNE_SELF then (p[0], 1)
    else if !Multibyte(p) then (RUNE_ERROR, 1)
    else
      var x: int, b1: int := p[0], p[1] - 0x80;
      if Width(x) == 2 then ((x - 0xC0) * 0x40 + b1, 2)
      else
        var b2: int := p[2] - 0x80;
        if Width(x) == 3 then ((x - 0xE0) * 0x1000 + b1 * 0x40 + b2, 3)
        else ((x - 0xF0) * 0x40000 + b1 * 0x1000 + b2 * 0x40 + (p[3] - 0x80), 4)
  }

  /** utf8.FullRune: p begins with a complete encoding, or with an error that more bytes
      cannot repair. */
  predicate FullRune(p: seq<Byte>) {
    && p != []
    && (|| |p| >= Width(p[0])
        || (|p| > 1 && !SecondOk(p[0], p[1]))
        || (|p| > 2 && !Continuation(p[2])))
  }

  /** More bytes do not change what a full rune decodes to. */
  lemma {:induction false} FullRuneStable(p: seq<Byte>, q: seq<Byte>)
    requires FullRune(p) && p <= q
    ensures DecodeRune(q) == DecodeRune(p) && FullRune(q)
  {}

  /** A whole rune, or all that is left, decodes as the stream does. */
  lemma {:induction false} DecodeHeld(held: seq<Byte>, data: seq<Byte>)
    requires FullRune(held) || data == []
    ensures DecodeRune(held) == DecodeRune(held + data)
  {
    if FullRune(held) {
      FullRuneStable(held, held + data);
    } else {
      assert held + data == held;
    }
  }

  /** An incomplete rune: everything after its first byte is a continuation byte, and until
      it is completed it reads as errors of width 1. */
  lemma {:induction false} Incomplete(p: seq<Byte>, i: nat)
    requires p != [] && !FullRune(p) && i < |p|
    ensures DecodeRune(p) == (RUNE_ERROR, 1) && |p| < 4
    ensures i > 0 ==> Continuation(p[i])
    ensures DecodeRune(p[i..]) == (RUNE_ERROR, 1)
  {
    assert i == 0 || i == 1 || i == 2;
  }

  lemma {:induction false} WideIsFull(p: seq<Byte>)
    requires DecodeRune(p).1 > 1
    ensures FullRune(p)
  {}

  predicate ValidRune(r: nat) { r < 0xD800 || 0xE000 <= r <= 0x10FFFF }

  /** utf8.EncodeRune for valid runes. */
  function EncodeRune(r: nat): (p: seq<Byte>)
    requires ValidRune(r)
    ensures 1 <= |p| <= 4
  {
    if r < 0x80 then [r]
    else if r < 0x800 then [0xC0 + r / 0x40, 0x80 + r % 0x40]
    else if r < 0x10000 then [0xE0 + r / 0x1000, 0x80 + r / 0x40 % 0x40, 0x80 + r % 0x40]
    else [0xF0 + r / 0x40000, 0x80 + r / 0x1000 % 0x40, 0x80 + r / 0x40 % 0x40, 0x80 + r % 0x40]
  }

  lemma {:induction false} Digits(r: nat)
    ensures r == (r / 0x40) * 0x40 + r % 0x40
    ensures r == (r / 0x1000) * 0x1000 + (r / 0x40 % 0x40) * 0x40 + r % 0x40
    ensures r == (r / 0x40000) * 0x40000 + (r / 0x1000 % 0x40) * 0x1000 + (r / 0x40 % 0x40) * 0x40 + r % 0x40
  {
    assert (r / 0x40) / 0x40 == r / 0x1000;
    assert (r / 0x1000) / 0x40 == r / 0x40000;
  }

  lemma {:induction false} DigitsBack(a: nat, b: nat, c: nat, d: nat)
    requires b < 0x40 && c < 0x40 && d < 0x40
    ensures var r := a * 0x40000 + b * 0x1000 + c * 0x40 + d;
      r / 0x40000 == a && r / 0x1000 % 0x40 == b && r / 0x40 % 0x40 == c && r % 0x40 == d
  {
    SixBits(a * 0x1000 + b * 0x40 + c, d);
    SixBits(a * 0x40 + b, c);
    SixBits(a, b);
  }

  /** Appending six bits, and taking them off again. */
  lemma {:induction false} SixBits(q: nat, d: nat)
    requires d < 0x40
    ensures (q * 0x40 + d) / 0x40 == q && (q * 0x40 + d) % 0x40 == d
    ensures (q * 0x40 + d) / 0x1000 == q / 0x40 && (q * 0x40 + d) / 0x40000 == q / 0x1000
  {}

  /** Decoding undoes encoding, whatever follows. */
  lemma {:induction false} DecodeEncoded(r: nat, rest: seq<Byte>)
    requires ValidRune(r)
    ensures DecodeRune(EncodeRune(r) + rest) == (r, |EncodeRune(r)|)
    ensures FullRune(EncodeRune(r) + rest)
  {
    Digits(r);
    if r < 0x80 {
    } else if r < 0x800 {
      DecodeTwo(r, rest);
    } else if r < 0x10000 {
      DecodeThree(r, rest);
    } else {
      DecodeFour(r, rest);
    }
  }

  lemma {:induction false} DecodeTwo(r: nat, rest: seq<Byte>)
    requires 0x80 <= r < 0x800
    ensures var p := EncodeRune(r) + rest; DecodeRune(p) == (r, 2) && FullRune(p) && |EncodeRune(r)| == 2
  {
    Digits(r);
    var p := EncodeRune(r) + rest;
    assert p[0] == 0xC0 + r / 0x40 && p[1] == 0x80 + r % 0x40;
  }

  lemma {:induction false} DecodeThree(r: nat, rest: seq<Byte>)
    requires ValidRune(r) && 0x800 <= r < 0x10000
    ensures var p := EncodeRune(r) + rest; DecodeRune(p) == (r, 3) && FullRune(p) && |EncodeRune(r)| == 3
  {
    Digits(r);
    var p := EncodeRune(r) + rest;
    assert p[0] == 0xE0 + r / 0x1000 && p[1] == 0x80 + r / 0x40 % 0x40 && p[2] == 0x80 + r % 0x40;
  }

  lemma {:induction false} DecodeFour(r: nat, rest: seq<Byte>)
    requires ValidRune(r) && 0x10000 <= r
    ensures var p := EncodeRune(r) + rest; DecodeRune(p) == (r, 4) && FullRune(p) && |EncodeRune(r)| == 4
  {
    Digits(r);
    var p := EncodeRune(r) + rest;
    assert p[0] == 0xF0 + r / 0x40000 && p[1] == 0x80 + r / 0x1000 % 0x40;
    assert p[2] == 0x80 + r / 0x40 % 0x40 && p[3] == 0x80 + r % 0x40;
  }

  /** A complete multi-byte encoding is the encoding of the rune it decodes to. */
  lemma {:induction false} EncodeDecoded(p: seq<Byte>)
    requires Multibyte(p)
    ensures var (r, n) := DecodeRune(p); ValidRune(r) && r >= RUNE_SELF && p[..n] == EncodeRune(r)
  {
    if Width(p[0]) == 2 {
      DecodedTwo(p);
    } else if Width(p[0]) == 3 {
      DecodedThree(p);
    } else {
      DecodedFour(p);
    }
  }

  lemma {:induction false} DecodedTwo(p: seq<Byte>)
    requires Multibyte(p) && Width(p[0]) == 2
    ensures var (r, n) := DecodeRune(p); ValidRune(r) && r >= RUNE_SELF && p[..n] == EncodeRune(r)
  {
    var x: int, b1: int := p[0], p[1] - 0x80;
    DigitsBack(0, 0, x - 0xC0, b1);
  }

  lemma {:induction false} DecodedThree(p: seq<Byte>)
    requires Multibyte(p) && Width(p[0]) == 3
    ensures var (r, n) := DecodeRune(p); ValidRune(r) && r >= RUNE_SELF && p[..n] == EncodeRune(r)
  {
    var x: int, b1: int := p[0], p[1] - 0x80;
    DigitsBack(0, x - 0xE0, b1, p[2] - 0x80);
  }

  lemma {:induction false} DecodedFour(p: seq<Byte>)
    requires Multibyte(p) && Width(p[0]) == 4
    ensures var (r, n) := DecodeRune(p); ValidRune(r) && r >= RUNE_SELF && p[..n] == EncodeRune(r)
  {
    var x: int, b1: int := p[0], p[1] - 0x80;
    DigitsBack(x - 0xF0, b1, p[2] - 0x80, p[3] - 0x80);
  }
}
