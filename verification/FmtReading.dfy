/**
 Formatted integers read back: an independent reader of signed numerals gives the value again,
 and the sign, the base prefix, the case of the digits and the side of the padding are the ones
 that were asked for.
 */
module FmtReading {
  import opened Bytes
  import opened Words
  import opened Numerals
  import opened FmtInteger

  const LETTER_B: Byte := 0x62
  const LETTER_O: Byte := 0x6F

  // ---- digits ----

  /** A digit of the base, in the case asked for. */
  predicate DigitOf(c: Byte, base: nat, upper: bool) {
    || (ZERO <= c < ZERO + (if base < 10 then base else 10))
    || (base == 16 && (if upper then 0x41 <= c <= 0x46 else 0x61 <= c <= 0x66))
  }

  predicate DigitsOf(s: seq<Byte>, base: nat, upper: bool) { forall i :: 0 <= i < |s| ==> DigitOf(s[i], base, upper) }

  lemma {:induction false} NumeralDigits(u: nat, base: nat, upper: bool)
    requires Base(base)
    ensures DigitsOf(Numeral(u, base, upper), base, upper)
  {
    NumeralStep(u, base, upper);
    hide Numeral;
    if u >= base {
      NumeralDigits(u / base, base, upper);
    }
  }

  /** The digits written are digits of the base, hexadecimal ones in the case of the verb. */
  lemma {:induction false} BodyDigits(u: nat, base: nat, upper: bool, prec: int)
    requires Base(base)
    ensures DigitsOf(Body(u, base, upper, prec), base, upper)
  {
    NumeralDigits(u, base, upper);
    hide Numeral;
  }

  // ---- the lead ----

  /** The prefix of a base: 0b, 0, 0x or 0X for the sharp flag, 0o for the verb O. */
  predicate PrefixShown(s: seq<Byte>, f: Flags, base: nat, octal: bool, upper: bool) {
    && (octal ==> [ZERO, LETTER_O] <= s)
    && (f.sharp && base == 2 && !octal ==> [ZERO, LETTER_B] <= s)
    && (f.sharp && base == 8 ==> [ZERO] <= s)
    && (f.sharp && base == 16 && !octal ==> [ZERO, if upper then 0x58 else 0x78] <= s)
  }

  /** The sign is a minus for a negative number and otherwise what the flags ask for, plus before
      space; behind it stands the prefix, or the digits when none was asked for. */
  lemma {:induction false} LeadShown(m: nat, negative: bool, f: Flags, base: nat, octal: bool, upper: bool, prec: int)
    requires Base(base)
    ensures var t := Text(m, negative, f, base, octal, upper, prec);
      && t != []
      && (t[0] == MINUS <==> negative)
      && (t[0] == PLUS <==> !negative && f.plus)
      && (t[0] == BLANK <==> !negative && !f.plus && f.space)
      && var rest := if t[0] in {MINUS, PLUS, BLANK} then t[1..] else t;
         PrefixShown(rest, f, base, octal, upper) && (!f.sharp && !octal ==> rest == Body(m, base, upper, prec))
  {
    var body := Body(m, base, upper, prec);
    BodyDigits(m, base, upper, prec);
    hide Body;
    LeadParts(negative, f, base, octal, upper, body);
    assert DigitOf(body[0], base, upper);
    var sign, oct := Sign(negative, f), if octal then [ZERO, LETTER_O] else [];
    var sharp := if f.sharp then SharpPrefix(base, upper, body) else [];
    var tail := oct + (sharp + body);
    assert tail[0] == ZERO || DigitOf(tail[0], base, upper);
    assert sign + tail == if sign == [] then tail else [sign[0]] + tail;
    PrefixIs(f, base, octal, upper, body);
  }

  lemma {:induction false} PrefixIs(f: Flags, base: nat, octal: bool, upper: bool, body: seq<Byte>)
    requires body != [] && Base(base)
    ensures var oct := if octal then [ZERO, LETTER_O] else [];
      var sharp := if f.sharp then SharpPrefix(base, upper, body) else [];
      PrefixShown(oct + (sharp + body), f, base, octal, upper)
  {}

  // ---- padding ----

  /** The output is the text with blanks, on the left or with the minus flag on the right, up to the
      width and no further. */
  lemma {:induction false} FormattedSides(u: Word, base: nat, isSigned: bool, octal: bool, upper: bool, f: Flags,
                       widPresent: bool, wid: int, precPresent: bool, prec: int)
    requires Base(base) && wid >= 0 && prec >= 0 && !(precPresent && prec == 0 && Magnitude(u, isSigned) == 0)
    ensures var negative := Negative(u, isSigned);
      var t := Text(Magnitude(u, isSigned), negative, f, base, octal, upper, Precision(negative, f, widPresent, wid, precPresent, prec));
      var r := Formatted(u, base, isSigned, octal, upper, f, widPresent, wid, precPresent, prec);
      && |r| == (if |t| < wid then wid else |t|)
      && r == if f.minus then t + Fill(wid - |t|, BLANK) else Fill(wid - |t|, BLANK) + t
  {
    hide Text, Magnitude, Negative, RuneCount, Precision;
    var m, negative := Magnitude(u, isSigned), Negative(u, isSigned);
    var digits := Precision(negative, f, widPresent, wid, precPresent, prec);
    TextAscii(m, negative, f, base, octal, upper, digits);
    AsciiCount(Text(m, negative, f, base, octal, upper, digits));
  }

  // ---- reading ----

  function SkipBlanks(s: seq<Byte>): seq<Byte> { if s != [] && s[0] == BLANK then SkipBlanks(s[1..]) else s }

  function DropBlanks(s: seq<Byte>): seq<Byte> {
    if s != [] && s[|s| - 1] == BLANK then DropBlanks(s[..|s| - 1]) else s
  }

  predicate IsMarker(c: Byte, base: nat) {
    (base == 2 && c == LETTER_B) || (base == 8 && c == LETTER_O) || (base == 16 && (c == 0x78 || c == 0x58))
  }

  /** The digits behind 0b, 0o or 0x, if the base's prefix is there. */
  function Unprefixed(s: seq<Byte>, base: nat): seq<Byte> {
    if |s| >= 2 && s[0] == ZERO && IsMarker(s[1], base) then s[2..] else s
  }

  /** Blanks, a sign, a prefix and digits, read as an integer. */
  function ReadInteger(s: seq<Byte>, base: nat): int {
    var t := DropBlanks(SkipBlanks(s));
    if t == [] then 0
    else if t[0] == MINUS then -Denotes(Unprefixed(t[1..], base), base)
    else if t[0] == PLUS then Denotes(Unprefixed(t[1..], base), base)
    else Denotes(Unprefixed(t, base), base)
  }

  lemma {:induction false} SkipFill(n: int, s: seq<Byte>)
    ensures SkipBlanks(Fill(n, BLANK) + s) == SkipBlanks(s)
    decreases n
  {
    var t := Fill(n, BLANK) + s;
    if n > 0 {
      SkipFill(n - 1, s);
      assert t[1..] == Fill(n - 1, BLANK) + s;
    } else {
      assert t == s;
    }
  }

  lemma {:induction false} DropFill(n: int, s: seq<Byte>)
    ensures DropBlanks(s + Fill(n, BLANK)) == DropBlanks(s)
    decreases n
  {
    var t := s + Fill(n, BLANK);
    if n > 0 {
      DropFill(n - 1, s);
      assert t[..|t| - 1] == s + Fill(n - 1, BLANK);
    } else {
      assert t == s;
    }
  }

  predicate Dark(s: seq<Byte>) { s != [] && s[0] != BLANK && s[|s| - 1] != BLANK }

  /** Text between blanks is read alone, and so is text behind a blank for a sign. */
  lemma {:induction false} BlanksIgnored(t: seq<Byte>, n: int, base: nat)
    requires Dark(t)
    ensures ReadInteger(Fill(n, BLANK) + t, base) == ReadInteger(t, base)
    ensures ReadInteger(t + Fill(n, BLANK), base) == ReadInteger(t, base)
    ensures ReadInteger(Fill(n, BLANK) + ([BLANK] + t), base) == ReadInteger(t, base)
    ensures ReadInteger([BLANK] + t + Fill(n, BLANK), base) == ReadInteger(t, base)
  {
    SkipFill(n, t);
    DropFill(n, t);
    SkipFill(n, [BLANK] + t);
    SkipOne(t);
    SkipOne(t + Fill(n, BLANK));
    Associate([BLANK], t, Fill(n, BLANK));
    hide DropBlanks, Denotes, Unprefixed;
    assert (t + Fill(n, BLANK))[0] == t[0];
  }

  lemma {:induction false} SkipOne(t: seq<Byte>)
    ensures SkipBlanks([BLANK] + t) == SkipBlanks(t)
  {
    assert ([BLANK] + t)[1..] == t;
  }

  /** The digits are read as the number, whatever prefix stands before them. */
  lemma {:induction false} PrefixIgnored(f: Flags, base: nat, octal: bool, upper: bool, body: seq<Byte>)
    requires body != [] && Base(base) && (octal ==> base == 8) && DigitsOf(body, base, upper)
    ensures var oct := if octal then [ZERO, LETTER_O] else [];
      var sharp := if f.sharp then SharpPrefix(base, upper, body) else [];
      Denotes(Unprefixed(oct + (sharp + body), base), base) == Denotes(body, base)
  {
    var oct := if octal then [ZERO, LETTER_O] else [];
    var sharp := if f.sharp then SharpPrefix(base, upper, body) else [];
    var s := oct + (sharp + body);
    assert |body| >= 2 ==> !IsMarker(body[1], base) by {
      assert |body| >= 2 ==> DigitOf(body[1], base, upper);
    }
    assert DigitOf(body[0], base, upper);
    assert Zeros(1) == [ZERO];
    ZerosDenote(1, body, base);
    hide Denotes;
    if octal {
      assert s[2..] == sharp + body;
      assert sharp == [] ==> sharp + body == body;
    } else {
      assert s == sharp + body;
      assert sharp == [] ==> s == body;
      assert |sharp| == 2 ==> s[2..] == body;
    }
  }

  /** The text without a sign. */
  function Unsigned(f: Flags, base: nat, octal: bool, upper: bool, body: seq<Byte>): seq<Byte>
    requires body != []
  {
    (if octal then [ZERO, LETTER_O] else []) + ((if f.sharp then SharpPrefix(base, upper, body) else []) + body)
  }

  lemma {:induction false} UnsignedDark(f: Flags, base: nat, octal: bool, upper: bool, body: seq<Byte>)
    requires body != [] && Base(base) && DigitsOf(body, base, upper)
    ensures var s := Unsigned(f, base, octal, upper, body); Dark(s) && s[0] != MINUS && s[0] != PLUS
  {
    assert DigitOf(body[0], base, upper) && DigitOf(body[|body| - 1], base, upper);
    var s := Unsigned(f, base, octal, upper, body);
    assert s[|s| - 1] == body[|body| - 1];
  }

  lemma {:induction false} DarkRead(s: seq<Byte>, base: nat)
    requires Dark(s)
    ensures ReadInteger(s, base) ==
      if s[0] == MINUS then -Denotes(Unprefixed(s[1..], base), base)
      else if s[0] == PLUS then Denotes(Unprefixed(s[1..], base), base)
      else Denotes(Unprefixed(s, base), base)
  {
    hide Denotes, Unprefixed;
  }

  /** Sign, prefix and digits between blanks read as the signed number the digits denote. */
  lemma {:induction false} TextRead(negative: bool, f: Flags, base: nat, octal: bool, upper: bool, body: seq<Byte>, n: int)
    requires body != [] && Base(base) && (octal ==> base == 8) && DigitsOf(body, base, upper)
    ensures var t := Sign(negative, f) + Unsigned(f, base, octal, upper, body);
      var v := (if negative then -1 else 1) * Denotes(body, base);
      ReadInteger(Fill(n, BLANK) + t, base) == v && ReadInteger(t + Fill(n, BLANK), base) == v
  {
    var s := Unsigned(f, base, octal, upper, body);
    UnsignedDark(f, base, octal, upper, body);
    PrefixIgnored(f, base, octal, upper, body);
    hide Unsigned, ReadInteger, Unprefixed, Denotes, DigitsOf, Dark, Fill;
    SignedRead(Sign(negative, f), s, n, base);
  }

  lemma {:induction false} SignedRead(sign: seq<Byte>, s: seq<Byte>, n: int, base: nat)
    requires sign in {[], [BLANK], [PLUS], [MINUS]} && Dark(s) && s[0] != MINUS && s[0] != PLUS
    ensures var v := (if sign == [MINUS] then -1 else 1) * Denotes(Unprefixed(s, base), base);
      ReadInteger(Fill(n, BLANK) + (sign + s), base) == v && ReadInteger(sign + s + Fill(n, BLANK), base) == v
  {
    hide ReadInteger, Unprefixed, Denotes, Fill;
    DarkRead(s, base);
    BlanksIgnored(s, n, base);
    var t := sign + s;
    if sign == [] {
      assert t == s;
    } else if sign != [BLANK] {
      assert t[1..] == s && t[0] == sign[0] && t[|t| - 1] == s[|s| - 1];
      DarkRead(t, base);
      BlanksIgnored(t, n, base);
    }
  }

  /** Reading what fmtInteger writes gives back the number, for every width, precision and flags;
      only the value 0 with precision 0 is written as blanks. */
  lemma {:induction false} ReadsBack(u: Word, base: nat, isSigned: bool, octal: bool, upper: bool, f: Flags,
                       widPresent: bool, wid: int, precPresent: bool, prec: int)
    requires Base(base) && (octal ==> base == 8) && wid >= 0 && prec >= 0
    requires !(precPresent && prec == 0 && Meaning(u, isSigned) == 0)
    ensures ReadInteger(Formatted(u, base, isSigned, octal, upper, f, widPresent, wid, precPresent, prec), base) == Meaning(u, isSigned)
  {
    MagnitudeExact(u, isSigned);
    hide Magnitude, Negative, Meaning, Formatted, Precision;
    var m, negative := Magnitude(u, isSigned), Negative(u, isSigned);
    var digits := Precision(negative, f, widPresent, wid, precPresent, prec);
    FormattedSides(u, base, isSigned, octal, upper, f, widPresent, wid, precPresent, prec);
    hide Fill;
    var t := Text(m, negative, f, base, octal, upper, digits);
    TextReadsBack(m, negative, f, base, octal, upper, digits, wid - |t|);
    hide Text, ReadInteger;
  }

  lemma {:induction false} TextReadsBack(m: nat, negative: bool, f: Flags, base: nat, octal: bool, upper: bool, digits: int, n: int)
    requires Base(base) && (octal ==> base == 8)
    ensures var t := Text(m, negative, f, base, octal, upper, digits);
      var v := if negative then 0 - m else m;
      ReadInteger(Fill(n, BLANK) + t, base) == v && ReadInteger(t + Fill(n, BLANK), base) == v
  {
    var body := Body(m, base, upper, digits);
    BodyDigits(m, base, upper, digits);
    BodyDenotes(m, base, upper, digits);
    LeadParts(negative, f, base, octal, upper, body);
    hide Body, Sign, ReadInteger, Denotes, Fill, SharpPrefix, Lead, DigitsOf;
    assert Text(m, negative, f, base, octal, upper, digits) == Sign(negative, f) + Unsigned(f, base, octal, upper, body);
    hide Text, Unsigned;
    TextRead(negative, f, base, octal, upper, body, n);
  }
}
