/**
 fmt.fmtInteger and the padding it uses, fmt/format.go: digits are written from the right into
 a buffer whose size is fixed beforehand.
 */
module FmtInteger {
  import opened Bytes
  import opened Words
  import opened Utf8
  import opened ByteSource
  import opened Numerals

  const INTBUF: nat := 68

  /** utf8.RuneCount. */
  function RuneCount(s: seq<Byte>): (n: nat)
    decreases |s|
  {
    if s == [] then 0 else 1 + RuneCount(s[DecodeRune(s).1..])
  }

  lemma {:induction false} AsciiCount(s: seq<Byte>)
    requires forall i :: 0 <= i < |s| ==> s[i] < RUNE_SELF
    ensures RuneCount(s) == |s|
    decreases |s|
  {
    if s != [] {
      assert DecodeRune(s) == (s[0], 1);
      AsciiCount(s[1..]);
    }
  }

  function Fill(n: int, c: Byte): (s: seq<Byte>)
    ensures |s| == if n > 0 then n else 0
    ensures forall i :: 0 <= i < |s| ==> s[i] == c
  {
    seq(if n > 0 then n else 0, i => c)
  }

  function PadByte(f: Flags): Byte { if f.zero && !f.minus then ZERO else BLANK }

  /** b padded to the width, on the left or, with the minus flag, on the right. */
  function Padded(b: seq<Byte>, wid: nat, f: Flags): (r: seq<Byte>)
    ensures |r| >= |b|
  {
    var fill := Fill(wid - RuneCount(b), PadByte(f));
    if f.minus then b + fill else fill + b
  }

  /** Whether a 64-bit pattern stands for a negative number. */
  predicate Negative(u: nat, isSigned: bool) { isSigned && u >= W63 }

  /** u, or -u on 64 bits. */
  function Magnitude(u: nat, isSigned: bool): nat
    requires u < W64
  {
    if Negative(u, isSigned) then (W64 - u) % W64 else u
  }

  /** The number a 64-bit pattern stands for. */
  function Meaning(u: nat, isSigned: bool): int
    requires u < W64
  {
    if Negative(u, isSigned) then u - W64 else u
  }

  /** The magnitude is exact, for the least 64-bit integer too. */
  lemma {:induction false} MagnitudeExact(u: nat, isSigned: bool)
    requires u < W64
    ensures Magnitude(u, isSigned) < W64
    ensures Negative(u, isSigned) <==> Meaning(u, isSigned) < 0
    ensures Meaning(u, isSigned) == if Negative(u, isSigned) then 0 - Magnitude(u, isSigned) else Magnitude(u, isSigned)
  {}

  /** Digits asked for: by a precision, or by zero padding to a width. */
  function Precision(negative: bool, f: Flags, widPresent: bool, wid: nat, precPresent: bool, prec: nat): int {
    if precPresent then prec
    else if f.zero && !f.minus && widPresent then (if negative || f.plus || f.space then wid - 1 else wid)
    else 0
  }

  /** The text before padding. */
  function Text(m: nat, negative: bool, f: Flags, base: nat, octal: bool, upper: bool, prec: int): (s: seq<Byte>)
    requires Base(base)
  {
    var body := Body(m, base, upper, prec);
    Lead(negative, f, base, octal, upper, body) + body
  }

  class Fmt {
    /** The output buffer: the first len bytes of data; the rest is spare capacity. */
    var data: array<Byte>
    var len: nat
    const intbuf: array<Byte>
    var flags: Flags
    var widPresent: bool
    var precPresent: bool
    var wid: int
    var prec: int

    ghost predicate Valid()
      reads this
    {
      && len <= data.Length && intbuf.Length == INTBUF && intbuf != data
      && wid >= 0 && prec >= 0
      && (!widPresent ==> wid == 0) && (!precPresent ==> prec == 0)
    }

    ghost function Contents(): seq<Byte>
      requires len <= data.Length
      reads this, data
    {
      data[..len]
    }

    /** Make room for n more bytes. */
    method Grow(n: nat)
      requires Valid()
      modifies this`data
      ensures Valid() && (data == old(data) || fresh(data)) && len + n <= data.Length
      ensures Contents() == old(Contents())
    {
      if len + n > data.Length {
        var bigger := new Byte[data.Length * 2 + n];
        Store(bigger, 0, data[..len]);
        data := bigger;
      }
    }

    method Write(b: seq<Byte>)
      requires Valid()
      modifies this`data, this`len, data
      ensures Valid() && (data == old(data) || fresh(data))
      ensures Contents() == old(Contents()) + b
    {
      Grow(|b|);
      Store(data, len, b);
      len := len + |b|;
    }

    /** writePadding. */
    method WritePadding(n: int)
      requires Valid()
      modifies this`data, this`len, data
      ensures Valid() && (data == old(data) || fresh(data))
      ensures Contents() == old(Contents()) + Fill(n, PadByte(flags))
    {
      if n <= 0 {
        assert Fill(n, PadByte(flags)) == [];
        return;
      }
      Grow(n);
      var padByte := PadByte(flags);
      ghost var before := data[..len];
      for i := 0 to n
        invariant data.Length >= len + n && Valid() && before == data[..len]
        invariant data == old(data) || fresh(data)
        invariant forall j :: len <= j < len + i ==> data[j] == padByte
      {
        data[len + i] := padByte;
      }
      len := len + n;
      assert data[..len] == before + Fill(n, padByte);
    }

    /** pad. */
    method Pad(b: seq<Byte>)
      requires Valid()
      modifies this`data, this`len, data
      ensures Valid() && (data == old(data) || fresh(data))
      ensures Contents() == old(Contents()) + Padded(b, wid, flags)
    {
      hide RuneCount;
      if !widPresent || wid == 0 {
        Write(b);
        assert Padded(b, wid, flags) == b;
        return;
      }
      var width := wid - RuneCount(b);
      if !flags.minus {
        WritePadding(width);
        Write(b);
      } else {
        Write(b);
        WritePadding(width);
      }
    }

    /** fmtInteger. The buffer is never indexed out of range, and what is written is the
        padded text; octal is the verb O. */
    method FormatInteger(u: Word, base: nat, isSigned: bool, octal: bool, upper: bool)
      requires Valid() && Base(base) && (octal ==> base == 8)
      modifies this`data, this`len, this`flags, data, intbuf
      ensures Valid() && (data == old(data) || fresh(data)) && flags == old(flags)
      ensures Contents() == old(Contents()) + Formatted(u, base, isSigned, octal, upper, flags, widPresent, wid, precPresent, prec)
    {
      hide Text, Padded, Fill, Precision;
      var negative := Negative(u, isSigned);
      var m := Magnitude(u, isSigned);
      MagnitudeExact(u, isSigned);
      hide Magnitude, Negative;
      if precPresent && prec == 0 && m == 0 {
        PadNothing();
        return;
      }
      var digits := Precision(negative, flags, widPresent, wid, precPresent, prec);
      PrecisionFits(negative, flags, widPresent, wid, precPresent, prec);
      var room := INTBUF;
      if (widPresent || precPresent) && 3 + wid + prec > INTBUF {
        room := 3 + wid + prec;
      }
      var b := WriteText(room, m, negative, base, octal, upper, digits);
      PadPlain(b);
    }

    /** Pad with blanks, whatever the zero flag says. */
    method PadPlain(b: seq<Byte>)
      requires Valid()
      modifies this`data, this`len, this`flags, data
      ensures Valid() && (data == old(data) || fresh(data)) && flags == old(flags)
      ensures Contents() == old(Contents()) + Padded(b, wid, flags.(zero := false))
    {
      hide Padded;
      var oldZero := flags.zero;
      flags := flags.(zero := false);
      Pad(b);
      flags := flags.(zero := oldZero);
    }

    method PadNothing()
      requires Valid()
      modifies this`data, this`len, this`flags, data
      ensures Valid() && (data == old(data) || fresh(data)) && flags == old(flags)
      ensures Contents() == old(Contents()) + Fill(wid, BLANK)
    {
      hide Fill;
      var oldZero := flags.zero;
      flags := flags.(zero := false);
      WritePadding(wid);
      flags := flags.(zero := oldZero);
    }

    /** Write sign, prefix and digits from the right into intbuf, or into a larger buffer. */
    method WriteText(room: nat, m: Word, negative: bool, base: nat, octal: bool, upper: bool, digits: int) returns (b: seq<Byte>)
      requires Valid() && Base(base) && (octal ==> base == 8)
      requires room >= INTBUF && digits + 3 <= room
      modifies intbuf
      ensures b == Text(m, negative, flags, base, octal, upper, digits)
      ensures Contents() == old(Contents())
    {
      var buf := intbuf;
      if room > INTBUF {
        buf := new Byte[room];
      }
      ghost var body := Body(m, base, upper, digits);
      BodyLength(m, base, upper, digits);
      LeadLength(negative, flags, base, octal, upper, body);
      hide Numeral, Lead, Body;
      var i := PutBody(buf, m, base, upper, digits);
      i := PutLead(buf, i, negative, flags, base, octal, upper);
      b := buf[i..];
    }
  }

  /** At most 64 digits, or as many as were asked for, and then the first is 0. */
  lemma {:induction false} BodyLength(m: Word, base: nat, upper: bool, digits: int)
    requires Base(base)
    ensures |Numeral(m, base, upper)| <= 64
    ensures var body := Body(m, base, upper, digits);
      |body| <= 64 || (|body| == digits && body[0] == ZERO)
  {
    Pow2Is64();
    NumeralLength(m, base, upper, 64);
    hide Pow2, Numeral;
  }

  /** The digits asked for, a sign and 0x fit the buffer. */
  lemma {:induction false} PrecisionFits(negative: bool, f: Flags, widPresent: bool, wid: nat, precPresent: bool, prec: nat)
    requires (!widPresent ==> wid == 0) && (!precPresent ==> prec == 0)
    ensures Precision(negative, f, widPresent, wid, precPresent, prec) <= wid + prec
    ensures !widPresent && !precPresent ==> Precision(negative, f, widPresent, wid, precPresent, prec) == 0
  {}

  /** What fmtInteger appends. */
  function Formatted(u: Word, base: nat, isSigned: bool, octal: bool, upper: bool, f: Flags,
                     widPresent: bool, wid: int, precPresent: bool, prec: int): seq<Byte>
    requires Base(base) && wid >= 0 && prec >= 0
  {
    var m, negative := Magnitude(u, isSigned), Negative(u, isSigned);
    if precPresent && prec == 0 && m == 0 then Fill(wid, BLANK)
    else
      var digits := Precision(negative, f, widPresent, wid, precPresent, prec);
      Padded(Text(m, negative, f, base, octal, upper, digits), wid, f.(zero := false))
  }

  /** The loop that writes the digits, the least significant first. */
  method PutDigits(buf: array<Byte>, u0: nat, base: nat, upper: bool) returns (i: nat)
    requires Base(base) && |Numeral(u0, base, upper)| <= buf.Length
    modifies buf
    ensures i < buf.Length && buf[i..] == Numeral(u0, base, upper)
  {
    hide Numeral, Digit;
    var u: nat := u0;
    i := buf.Length;
    ghost var tail: seq<Byte> := [];
    while u >= base
      invariant |tail| == buf.Length - i && tail == buf[i..]
      invariant Numeral(u0, base, upper) == Numeral(u, base, upper) + tail
      decreases u
    {
      NumeralStep(u, base, upper);
      var next := u / base;
      Associate(Numeral(next, base, upper), [Digit(u % base, upper)], tail);
      i := Put(buf, i, Digit(u % base, upper));
      tail := [Digit(u % base, upper)] + tail;
      u := next;
    }
    NumeralStep(u, base, upper);
    i := Put(buf, i, Digit(u, upper));
  }

  /** The digits with their leading zeros. */
  method PutBody(buf: array<Byte>, m: nat, base: nat, upper: bool, digits: int) returns (i: nat)
    requires Base(base) && |Numeral(m, base, upper)| <= buf.Length && digits <= buf.Length
    modifies buf
    ensures i < buf.Length && buf[i..] == Body(m, base, upper, digits)
  {
    hide Numeral;
    i := PutDigits(buf, m, base, upper);
    i := PutZeros(buf, i, digits);
  }

  /** The loop that writes leading zeros. */
  method PutZeros(buf: array<Byte>, i0: nat, prec: int) returns (i: nat)
    requires i0 < buf.Length && prec <= buf.Length
    modifies buf
    ensures i <= i0
    ensures buf[i..] == (if prec > buf.Length - i0 then Zeros(prec - (buf.Length - i0)) else []) + old(buf[i0..])
  {
    i := i0;
    ghost var digits := buf[i0..];
    ghost var tail := Zeros(0) + digits;
    hide Zeros;
    while i > 0 && prec > buf.Length - i
      invariant i <= i0 && buf[i..] == tail && tail == Zeros(i0 - i) + digits
      invariant i < i0 ==> prec >= buf.Length - i
    {
      ZerosMore(i0 - i);
      Associate([ZERO], Zeros(i0 - i), digits);
      i := Put(buf, i, ZERO);
      tail := [ZERO] + tail;
    }
    assert i == i0 ==> tail == [] + digits;
  }

  lemma {:induction false} ZerosMore(n: nat)
    ensures Zeros(n + 1) == [ZERO] + Zeros(n)
  {}

  /** Write one byte in front. */
  method Put(buf: array<Byte>, i0: nat, c: Byte) returns (i: nat)
    requires 0 < i0 <= buf.Length
    modifies buf
    ensures i == i0 - 1 && buf[i..] == [c] + old(buf[i0..])
  {
    i := i0 - 1;
    buf[i] := c;
  }

  /** Write what %# asks for. */
  method PutSharp(buf: array<Byte>, i0: nat, sharp: bool, base: nat, upper: bool) returns (i: nat)
    requires i0 < buf.Length && Base(base)
    requires sharp ==> |SharpPrefix(base, upper, buf[i0..])| <= i0
    modifies buf
    ensures i <= i0 && buf[i..] == (if sharp then SharpPrefix(base, upper, old(buf[i0..])) else []) + old(buf[i0..])
  {
    i := i0;
    if sharp {
      if base == 2 {
        i := Put(buf, i, 0x62);
        i := Put(buf, i, ZERO);
      } else if base == 8 {
        if buf[i] != ZERO {
          i := Put(buf, i, ZERO);
        }
      } else if base == 16 {
        i := Put(buf, i, Digit(16, upper));
        i := Put(buf, i, ZERO);
      }
    }
  }

  method PutOctal(buf: array<Byte>, i0: nat, octal: bool) returns (i: nat)
    requires i0 < buf.Length && (octal ==> 2 <= i0)
    modifies buf
    ensures i <= i0 && buf[i..] == (if octal then [ZERO, 0x6F] else []) + old(buf[i0..])
  {
    i := i0;
    if octal {
      i := Put(buf, i, 0x6F);
      i := Put(buf, i, ZERO);
    }
  }

  method PutSign(buf: array<Byte>, i0: nat, negative: bool, f: Flags) returns (i: nat)
    requires i0 < buf.Length && |Sign(negative, f)| <= i0
    modifies buf
    ensures i <= i0 && buf[i..] == Sign(negative, f) + old(buf[i0..])
  {
    i := i0;
    if negative {
      i := Put(buf, i, MINUS);
    } else if f.plus {
      i := Put(buf, i, PLUS);
    } else if f.space {
      i := Put(buf, i, BLANK);
    }
  }

  /** Write the prefixes and the sign. */
  method PutLead(buf: array<Byte>, i0: nat, negative: bool, f: Flags, base: nat, octal: bool, upper: bool) returns (i: nat)
    requires i0 < buf.Length && Base(base)
    requires |Lead(negative, f, base, octal, upper, buf[i0..])| <= i0
    modifies buf
    ensures i <= i0 && buf[i..] == Lead(negative, f, base, octal, upper, old(buf[i0..])) + old(buf[i0..])
  {
    hide SharpPrefix, Sign, Lead;
    ghost var body := buf[i0..];
    LeadParts(negative, f, base, octal, upper, body);
    ghost var sharp := if f.sharp then SharpPrefix(base, upper, body) else [];
    i := PutSharp(buf, i0, f.sharp, base, upper);
    assert buf[i..] == sharp + body && i == i0 - |sharp|;
    i := PutOctal(buf, i, octal);
    i := PutSign(buf, i, negative, f);
  }

  // ---- what the text says ----

  /** The text is a lead and digits; the digits denote the magnitude exactly, and there are at
      least as many as the precision asks for. */
  lemma {:induction false} TextMeans(u: Word, isSigned: bool, f: Flags, base: nat, octal: bool, upper: bool, digits: int)
    requires Base(base)
    ensures var m, negative := Magnitude(u, isSigned), Negative(u, isSigned);
      var body := Body(m, base, upper, digits);
      && Text(m, negative, f, base, octal, upper, digits) == Lead(negative, f, base, octal, upper, body) + body
      && |body| >= digits
      && Meaning(u, isSigned) == (if negative then -1 else 1) * Denotes(body, base)
      && (negative <==> Lead(negative, f, base, octal, upper, body) != [] && Lead(negative, f, base, octal, upper, body)[0] == MINUS)
  {
    MagnitudeExact(u, isSigned);
    var m := Magnitude(u, isSigned);
    BodyDenotes(m, base, upper, digits);
    hide Magnitude, Denotes, Body;
  }

  lemma {:induction false} NumeralAscii(u: nat, base: nat, upper: bool)
    requires Base(base)
    ensures forall i :: 0 <= i < |Numeral(u, base, upper)| ==> Numeral(u, base, upper)[i] < RUNE_SELF
  {
    if u >= base {
      NumeralAscii(u / base, base, upper);
    }
  }

  /** The output is as wide as asked for. */
  lemma {:induction false} FormattedWidth(u: Word, base: nat, isSigned: bool, octal: bool, upper: bool, f: Flags,
                       widPresent: bool, wid: int, precPresent: bool, prec: int)
    requires Base(base) && wid >= 0 && prec >= 0
    ensures |Formatted(u, base, isSigned, octal, upper, f, widPresent, wid, precPresent, prec)| >= wid
  {
    hide Text, Magnitude, Negative, RuneCount, Precision;
    var m, negative := Magnitude(u, isSigned), Negative(u, isSigned);
    var digits := Precision(negative, f, widPresent, wid, precPresent, prec);
    TextAscii(m, negative, f, base, octal, upper, digits);
    AsciiCount(Text(m, negative, f, base, octal, upper, digits));
  }

  lemma {:induction false} TextAscii(m: nat, negative: bool, f: Flags, base: nat, octal: bool, upper: bool, digits: int)
    requires Base(base)
    ensures var t := Text(m, negative, f, base, octal, upper, digits); forall i :: 0 <= i < |t| ==> t[i] < RUNE_SELF
  {
    BodyAscii(m, base, upper, digits);
    var body := Body(m, base, upper, digits);
    LeadAscii(negative, f, base, octal, upper, body);
    hide Lead, Body, Numeral;
  }

  lemma {:induction false} BodyAscii(m: nat, base: nat, upper: bool, digits: int)
    requires Base(base)
    ensures var s := Body(m, base, upper, digits); forall i :: 0 <= i < |s| ==> s[i] < RUNE_SELF
  {
    NumeralAscii(m, base, upper);
    hide Numeral;
  }

  lemma {:induction false} LeadAscii(negative: bool, f: Flags, base: nat, octal: bool, upper: bool, body: seq<Byte>)
    requires body != []
    ensures var s := Lead(negative, f, base, octal, upper, body); forall i :: 0 <= i < |s| ==> s[i] < RUNE_SELF
  {}
}
