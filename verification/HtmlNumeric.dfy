/**
 Numeric character references: the number the digits denote, taken as an int32, with the repairs
 of the numeric character reference end state of the HTML standard.
 */
module HtmlNumeric {
  import opened Bytes
  import opened Utf8
  import opened Grammar
  import opened Html
  import Numerals

  function RadixOf(hex: bool): (b: nat) { if hex then 16 else 10 }

  /** How a reference is written: an x or X for hexadecimal, the digits, and perhaps a semicolon. */
  datatype Form = Form(marker: seq<Byte>, digits: seq<Byte>, semicolon: bool) {
    predicate Hex() { marker != [] }

    predicate Proper() {
      && (marker == [] || marker == [0x78] || marker == [0x58])
      && forall i :: 0 <= i < |digits| ==> IsNumeral(digits[i], Hex())
    }

    function Text(): seq<Byte> {
      [AMPERSAND, HASH] + marker + digits + (if semicolon then [SEMICOLON] else [])
    }

    /** The number the digits denote. */
    function Value(): int { Numerals.Denotes(digits, RadixOf(Hex())) }

    /** The reference ends before tail. */
    predicate EndsAt(tail: seq<Byte>) {
      semicolon || tail == []
      || (!IsNumeral(tail[0], Hex()) && tail[0] != SEMICOLON
          && (digits == [] && marker == [] ==> tail[0] != 0x78 && tail[0] != 0x58))
    }
  }

  // ---- int32 ----

  lemma {:induction false} WrapMultiple(x: int, k: int)
    ensures Wrap32(x + 0x1_0000_0000 * k) == Wrap32(x)
  {
    var m := 0x1_0000_0000;
    var y := x + 0x8000_0000;
    assert (y + m * k) % m == y % m by {
      assert y + m * k == m * (y / m + k) + y % m;
    }
  }

  /** One more digit on the wrapped number wraps the number. */
  lemma {:induction false} WrapDigit(x: int, b: int, u: int)
    ensures Wrap32(b * Wrap32(x) + u) == Wrap32(b * x + u)
  {
    var m := 0x1_0000_0000;
    var q := (x + 0x8000_0000) / m;
    assert Wrap32(x) == x - m * q;
    assert b * Wrap32(x) + u == b * x + u + m * (-(b * q)) by {
      MulApart(b, x, m, q);
    }
    WrapMultiple(b * x + u, -(b * q));
  }

  lemma {:induction false} MulApart(b: int, x: int, m: int, q: int)
    ensures b * (x - m * q) == b * x + m * (-(b * q))
  {
    assert b * (x - m * q) == b * x - b * (m * q);
    assert b * (m * q) == m * (b * q);
  }

  // ---- reading the digits ----

  lemma {:induction false} DigitIs(c: Byte, hex: bool)
    requires IsNumeral(c, hex)
    ensures Numerals.DigitValue(c) == Unhex(c)
  {}

  lemma {:induction false} DenotesMore(d: seq<Byte>, k: nat, b: nat)
    requires k < |d|
    ensures Numerals.Denotes(d[..k + 1], b) == Numerals.Denotes(d[..k], b) * b + Numerals.DigitValue(d[k])
  {
    assert d[..k + 1][..k] == d[..k];
  }

  /** The digits from k on, when those before are read. */
  lemma {:induction false} NumberReads(s: seq<Byte>, start: nat, f: Form, tail: seq<Byte>, k: nat)
    requires f.Proper() && f.EndsAt(tail) && k <= |f.digits|
    requires start <= |s| && s[start..] == f.digits + (if f.semicolon then [SEMICOLON] else []) + tail
    ensures Number(s, start + k, f.Hex(), Wrap32(Numerals.Denotes(f.digits[..k], RadixOf(f.Hex()))))
      == (Wrap32(f.Value()), |s| - |tail|)
    decreases |f.digits| - k
  {
    var b := RadixOf(f.Hex());
    var d := f.digits;
    hide Wrap32, Numerals.Denotes;
    if k == |d| {
      assert d[..k] == d;
      NumberEnds(s, start, f, tail, Wrap32(f.Value()));
    } else {
      assert s[start + k] == s[start..][k] == d[k];
      NumberReads(s, start, f, tail, k + 1);
      DenotesMore(d, k, b);
      DigitIs(d[k], f.Hex());
      WrapDigit(Numerals.Denotes(d[..k], b), b, Unhex(d[k]));
    }
  }

  lemma {:induction false} NumberEnds(s: seq<Byte>, start: nat, f: Form, tail: seq<Byte>, x: int)
    requires f.EndsAt(tail)
    requires start <= |s| && s[start..] == f.digits + (if f.semicolon then [SEMICOLON] else []) + tail
    ensures start + |f.digits| <= |s|
    ensures Number(s, start + |f.digits|, f.Hex(), x) == (x, |s| - |tail|)
  {
    var i := start + |f.digits|;
    assert i < |s| ==> s[i] == s[start..][|f.digits|];
  }

  /** A numeric reference stands for the rune its digits denote as an int32, repaired, and takes up
      all of its text. One of three bytes or fewer, such as &#5 without a semicolon, is no
      reference. */
  lemma {:induction false} NumericStands(t: Tables, f: Form, tail: seq<Byte>)
    requires f.Proper() && f.EndsAt(tail)
    ensures Refer(t, f.Text() + tail) ==
      if |f.Text()| > 3 then Reference(Encoded(Repair(Wrap32(f.Value()))), |f.Text()|)
      else Reference([AMPERSAND], 1)
  {
    var s := f.Text() + tail;
    assert s[0] == AMPERSAND && s[1] == HASH && s[..1] == [AMPERSAND];
    NumberOf(f, tail);
    if |s| > 3 {
      MarkerRead(f, tail);
    }
    hide Number, Encoded, Repair, Wrap32, Numerals.Denotes;
  }

  lemma {:induction false} NumberOf(f: Form, tail: seq<Byte>)
    requires f.Proper() && f.EndsAt(tail)
    ensures |f.Text() + tail| >= 2 + |f.marker|
    ensures Number(f.Text() + tail, 2 + |f.marker|, f.Hex(), 0) == (Wrap32(f.Value()), |f.Text()|)
  {
    var s := f.Text() + tail;
    var start := 2 + |f.marker|;
    assert s[start..] == f.digits + (if f.semicolon then [SEMICOLON] else []) + tail;
    assert f.digits[..0] == [];
    assert Wrap32(Numerals.Denotes([], RadixOf(f.Hex()))) == 0;
    hide Number, Wrap32, Numerals.Denotes;
    NumberReads(s, start, f, tail, 0);
  }

  lemma {:induction false} MarkerRead(f: Form, tail: seq<Byte>)
    requires f.Proper() && f.EndsAt(tail) && |f.Text() + tail| > 3
    ensures var s := f.Text() + tail; (s[2] == 0x78 || s[2] == 0x58) <==> f.Hex()
  {
    var s := f.Text() + tail;
    if f.marker != [] {
      assert s[2] == f.marker[0];
    } else if f.digits != [] {
      assert s[2] == f.digits[0];
    } else if !f.semicolon {
      assert s[2] == tail[0];
    }
  }

  // ---- the standard ----

  /** The rune the standard gives a number: the replacement character for 0, for surrogates and for
      what is too large, and Windows-1252 for 0x80 to 0x9F. */
  function StandardRune(v: nat): (r: nat) {
    if v == 0 || v > 0x10FFFF || 0xD800 <= v <= 0xDFFF then RUNE_ERROR
    else if 0x80 <= v <= 0x9F then REPLACEMENTS[v - 0x80]
    else v
  }

  lemma {:induction false} ReplacementsValid(i: nat)
    requires i < 32
    ensures ValidRune(REPLACEMENTS[i]) && REPLACEMENTS[i] != RUNE_ERROR
  {}

  lemma {:induction false} EncodeInjective(a: nat, b: nat)
    requires ValidRune(a) && ValidRune(b)
    ensures EncodeRune(a) == EncodeRune(b) <==> a == b
  {
    DecodeEncoded(a, []);
    DecodeEncoded(b, []);
    hide EncodeRune, DecodeRune;
  }

  lemma {:induction false} ValueNatural(d: seq<Byte>, hex: bool)
    requires forall i :: 0 <= i < |d| ==> IsNumeral(d[i], hex)
    ensures Numerals.Denotes(d, RadixOf(hex)) >= 0
  {
    if d != [] {
      var n := |d| - 1;
      ValueNatural(d[..n], hex);
      DigitIs(d[n], hex);
    }
  }

  /** A number that is too large but whose remainder is a rune. */
  predicate Astray(v: nat) {
    var m := v % 0x1_0000_0000;
    v > 0x10FFFF && 0 < m <= 0x10FFFF && !(0xD800 <= m <= 0xDFFF) && m != RUNE_ERROR
  }

  lemma {:induction false} RepairedIs(v: nat)
    ensures Encoded(Repair(Wrap32(v))) == EncodeRune(StandardRune(v)) <==> !Astray(v)
  {
    var m := v % 0x1_0000_0000;
    WrapRemainder(v);
    var x := Repair(Wrap32(v));
    if 0x80 <= Wrap32(v) <= 0x9F {
      ReplacementsValid(Wrap32(v) - 0x80);
    }
    if v > 0x10FFFF && x >= 0 {
      EncodeInjective(x, RUNE_ERROR);
    }
    hide EncodeRune, Wrap32;
  }

  lemma {:induction false} WrapRemainder(v: nat)
    ensures var m := v % 0x1_0000_0000; Wrap32(v) == if m < 0x8000_0000 then m else m - 0x1_0000_0000
  {
    var m := v % 0x1_0000_0000;
    WrapMultiple(m, v / 0x1_0000_0000);
  }

  /** A numeric reference stands for the rune the standard says, except that the source's int32 lets
      a number that is too large come round to another rune. */
  lemma {:induction false} NumericStandard(t: Tables, f: Form, tail: seq<Byte>)
    requires f.Proper() && f.EndsAt(tail) && |f.Text()| > 3
    ensures f.Value() >= 0
    ensures Refer(t, f.Text() + tail) == Reference(EncodeRune(StandardRune(f.Value())), |f.Text()|) <==> !Astray(f.Value())
  {
    ValueNatural(f.digits, f.Hex());
    NumericStands(t, f, tail);
    hide Encoded, Repair, Wrap32, StandardRune, EncodeRune, Refer;
    RepairedIs(f.Value());
  }

  // ---- every rune has a reference ----

  lemma {:induction false} NumeralProper(u: nat, hex: bool, upper: bool)
    ensures var d := Numerals.Numeral(u, RadixOf(hex), upper);
      d != [] && forall i :: 0 <= i < |d| ==> IsNumeral(d[i], hex)
    decreases u
  {
    var b := RadixOf(hex);
    Numerals.NumeralStep(u, b, upper);
    hide Numerals.Numeral;
    if u >= b {
      NumeralProper(u / b, hex, upper);
    }
  }

  /** The reference made of a rune's number, in decimal or hexadecimal of either case. */
  function ReferenceTo(r: nat, marker: seq<Byte>, upper: bool): Form {
    Form(marker, Numerals.Numeral(r, RadixOf(marker != []), upper), true)
  }

  /** Writing a rune as its number and unescaping gives back the rune, unless it is 0 or one of the
      control characters that are taken for Windows-1252. */
  lemma {:induction false} RuneRoundTrip(t: Tables, r: nat, marker: seq<Byte>, upper: bool, tail: seq<Byte>)
    requires ValidRune(r) && r != 0 && !(0x80 <= r <= 0x9F) && (marker == [] || marker == [0x78] || marker == [0x58])
    ensures Unescape(t, ReferenceTo(r, marker, upper).Text() + tail) == EncodeRune(r) + Unescape(t, tail)
  {
    var f := ReferenceTo(r, marker, upper);
    NumeralProper(r, f.Hex(), upper);
    Numerals.NumeralDenotes(r, RadixOf(f.Hex()), upper);
    hide Numerals.Numeral, Numerals.Denotes, Refer, EncodeRune;
    NumericStandard(t, f, tail);
    var s := f.Text() + tail;
    assert s[0] == AMPERSAND && s[|f.Text()|..] == tail;
  }

  /** &#4294967361; is read as the letter A. */
  lemma {:induction false} ComesRound(t: Tables)
    ensures Astray(4294967361) && StandardRune(4294967361) == RUNE_ERROR
    ensures Refer(t, ReferenceTo(4294967361, [], false).Text() + []).out == [0x41]
  {
    var f := ReferenceTo(4294967361, [], false);
    NumeralProper(4294967361, false, false);
    Numerals.NumeralDenotes(4294967361, 10, false);
    hide Numerals.Numeral, Numerals.Denotes, Refer;
    NumericStands(t, f, []);
    WrapRemainder(4294967361);
    hide Wrap32;
    assert EncodeRune(0x41) == [0x41];
  }
}
