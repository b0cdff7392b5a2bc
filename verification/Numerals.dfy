/** Numerals in bases 2, 8, 10 and 16, and the text fmt gives an integer. */
module Numerals {
  import opened Bytes
  import opened Words

  const ZERO: Byte := 0x30
  const BLANK: Byte := 0x20
  const MINUS: Byte := 0x2D
  const PLUS: Byte := 0x2B

  predicate Base(b: nat) { b == 2 || b == 8 || b == 10 || b == 16 }

  /** digits[d] of ldigits or udigits. */
  function Digit(d: nat, upper: bool): (c: Byte)
    requires d <= 16
  {
    if d < 10 then ZERO + d
    else if d == 16 then (if upper then 0x58 else 0x78)
    else if upper then 0x41 + d - 10 else 0x61 + d - 10
  }

  function DigitValue(c: Byte): int {
    if c <= 0x39 then c - ZERO as int else if c <= 0x46 then c as int - 0x41 + 10 else c as int - 0x61 + 10
  }

  lemma {:induction false} DigitRoundTrip(d: nat, upper: bool)
    requires d < 16
    ensures DigitValue(Digit(d, upper)) == d
  {}

  function Numeral(u: nat, base: nat, upper: bool): (s: seq<Byte>)
    requires Base(base)
    ensures s != []
  {
    if u < base then [Digit(u, upper)] else Numeral(u / base, base, upper) + [Digit(u % base, upper)]
  }

  /** The number a string of digits denotes. */
  function Denotes(s: seq<Byte>, base: nat): int {
    if s == [] then 0 else Denotes(s[..|s| - 1], base) * base + DigitValue(s[|s| - 1])
  }

  lemma {:induction false} NumeralDenotes(u: nat, base: nat, upper: bool)
    requires Base(base)
    ensures Denotes(Numeral(u, base, upper), base) == u
  {
    var s := Numeral(u, base, upper);
    DigitRoundTrip(u % base, upper);
    if u < base {
      assert s[..0] == [];
      assert Denotes([], base) == 0;
    } else {
      NumeralDenotes(u / base, base, upper);
      assert s[..|s| - 1] == Numeral(u / base, base, upper);
    }
  }

  /** No numeral of a 64-bit number has more than 64 digits. */
  lemma {:induction false} NumeralLength(u: nat, base: nat, upper: bool, bits: nat)
    requires Base(base) && u < Pow2(bits) && bits > 0
    ensures |Numeral(u, base, upper)| <= bits
    decreases bits
  {
    if u >= base {
      assert u / base <= u / 2 by {
        assert base * (u / base) <= u;
        assert 2 * (u / base) <= base * (u / base);
      }
      assert Pow2(1) == 2;
      NumeralLength(u / base, base, upper, bits - 1);
    }
  }

  /** Leading zeros up to prec digits. */
  function Zeros(n: nat): (s: seq<Byte>)
    ensures |s| == n && forall i :: 0 <= i < n ==> s[i] == ZERO
  {
    seq(n, i => ZERO)
  }

  function Body(u: nat, base: nat, upper: bool, prec: int): (s: seq<Byte>)
    requires Base(base)
    ensures s != [] && |s| >= prec
  {
    var d := Numeral(u, base, upper);
    if prec > |d| then Zeros(prec - |d|) + d else d
  }

  /** Leading zeros change neither the number ... */
  lemma {:induction false} ZerosDenote(n: nat, s: seq<Byte>, base: nat)
    ensures Denotes(Zeros(n) + s, base) == Denotes(s, base)
    decreases n + |s|
  {
    var t := Zeros(n) + s;
    if s != [] {
      ZerosDenote(n, s[..|s| - 1], base);
      assert t[..|t| - 1] == Zeros(n) + s[..|s| - 1];
    } else if n > 0 {
      ZerosDenote(n - 1, [], base);
      assert t[..n - 1] == Zeros(n - 1) + [];
      assert Denotes([], base) == 0;
    }
  }

  lemma {:induction false} BodyDenotes(u: nat, base: nat, upper: bool, prec: int)
    requires Base(base)
    ensures Denotes(Body(u, base, upper, prec), base) == u
  {
    var d := Numeral(u, base, upper);
    NumeralDenotes(u, base, upper);
    if prec > |d| {
      ZerosDenote(prec - |d|, d, base);
    }
  }

  /** What %# puts before the digits. */
  function SharpPrefix(base: nat, upper: bool, body: seq<Byte>): seq<Byte>
    requires body != []
  {
    if base == 2 then [ZERO, 0x62]
    else if base == 8 then (if body[0] != ZERO then [ZERO] else [])
    else if base == 16 then [ZERO, Digit(16, upper)]
    else []
  }

  /** Flags as the format sets them. */
  datatype Flags = Flags(minus: bool, plus: bool, sharp: bool, space: bool, zero: bool)

  function Sign(negative: bool, f: Flags): seq<Byte> {
    if negative then [MINUS] else if f.plus then [PLUS] else if f.space then [BLANK] else []
  }

  /** Everything before the digits. */
  function Lead(negative: bool, f: Flags, base: nat, octal: bool, upper: bool, body: seq<Byte>): (s: seq<Byte>)
    requires body != []
    ensures |s| <= 5
  {
    Sign(negative, f)
      + (if octal then [ZERO, 0x6F] else [])
      + (if f.sharp then SharpPrefix(base, upper, body) else [])
  }

  /** The lead is short enough: three bytes, or four before a digit other than 0. */
  lemma {:induction false} LeadLength(negative: bool, f: Flags, base: nat, octal: bool, upper: bool, body: seq<Byte>)
    requires body != [] && (octal ==> base == 8)
    ensures |Lead(negative, f, base, octal, upper, body)| <= 4
    ensures body[0] == ZERO ==> |Lead(negative, f, base, octal, upper, body)| <= 3
  {}

  lemma {:induction false} NumeralStep(u: nat, base: nat, upper: bool)
    requires Base(base)
    ensures Numeral(u, base, upper) ==
      if u < base then [Digit(u, upper)] else Numeral(u / base, base, upper) + [Digit(u % base, upper)]
    ensures u >= base ==> u / base < u
  {}

  /** The lead from right to left. */
  lemma {:induction false} LeadParts(negative: bool, f: Flags, base: nat, octal: bool, upper: bool, body: seq<Byte>)
    requires body != []
    ensures var sign, oct := Sign(negative, f), if octal then [ZERO, 0x6F] else [];
      var sharp := if f.sharp then SharpPrefix(base, upper, body) else [];
      && Lead(negative, f, base, octal, upper, body) + body == sign + (oct + (sharp + body))
      && |Lead(negative, f, base, octal, upper, body)| == |sign| + |oct| + |sharp|
  {
    var sign, oct := Sign(negative, f), if octal then [ZERO, 0x6F] else [];
    var sharp := if f.sharp then SharpPrefix(base, upper, body) else [];
    hide SharpPrefix, Sign;
    Associate(sign, oct, sharp + body);
    Associate(sign + oct, sharp, body);
  }
}
