/** The character classes of section 5.1 of RFC 2045 and the hexadecimal digits, for the mime package. */
module Grammar {
  import opened Bytes
  import opened Utf8

  const SPACE: Byte := 0x20
  const QUOTE: Byte := 0x22
  const PERCENT: Byte := 0x25
  const APOSTROPHE: Byte := 0x27
  const STAR: Byte := 0x2A
  const SLASH: Byte := 0x2F
  const SEMICOLON: Byte := 0x3B
  const EQUALS: Byte := 0x3D
  const QUESTION: Byte := 0x3F
  const BACKSLASH: Byte := 0x5C
  const UNDERSCORE: Byte := 0x5F
  const TAB: Byte := 0x09

  /** Charset names, in lower case. */
  const UTF_8: seq<Byte> := [0x75, 0x74, 0x66, 0x2D, 0x38]
  const US_ASCII: seq<Byte> := [0x75, 0x73, 0x2D, 0x61, 0x73, 0x63, 0x69, 0x69]

  /** One of ( ) < > @ , ; : \ " / [ ] ? = */
  predicate IsTSpecial(c: Byte) {
    c in {0x28, 0x29, 0x3C, 0x3E, 0x40, 0x2C, 0x3B, 0x3A, 0x5C, 0x22, 0x2F, 0x5B, 0x5D, 0x3F, 0x3D}
  }

  predicate IsAlpha(c: Byte) { 0x61 <= c <= 0x7A || 0x41 <= c <= 0x5A }

  predicate IsDigit(c: Byte) { 0x30 <= c <= 0x39 }

  /** A letter, a digit, or one of ! # $ % & ' * + - . ^ _ ` { | } ~ */
  predicate IsTokenChar(c: Byte) {
    || IsAlpha(c) || IsDigit(c)
    || c in {0x21, 0x23, 0x24, 0x25, 0x26, 0x27, 0x2A, 0x2B, 0x2D, 0x2E, 0x5E, 0x5F, 0x60, 0x7B, 0x7C, 0x7D, 0x7E}
  }

  /** The token characters are the visible characters of ASCII other than tspecials. */
  lemma {:induction false} TokenCharClass(c: Byte)
    ensures IsTokenChar(c) <==> 0x21 <= c <= 0x7E && !IsTSpecial(c)
  {}

  predicate AllTokenChars(s: seq<Byte>) { forall i :: 0 <= i < |s| ==> IsTokenChar(s[i]) }

  predicate IsToken(s: seq<Byte>) { s != [] && AllTokenChars(s) }

  function LowerByte(c: Byte): (r: Byte) {
    if 0x41 <= c <= 0x5A then c + 0x20 else c
  }

  /** strings.ToLower, on ASCII. */
  function Lower(s: seq<Byte>): (r: seq<Byte>)
    ensures |r| == |s|
  {
    seq(|s|, i requires 0 <= i < |s| => LowerByte(s[i]))
  }

  /** needsEncoding: some rune is neither a visible ASCII character, a space nor a tab. */
  predicate NeedsEncoding(s: seq<Byte>)
    decreases |s|
  {
    s != [] &&
    var (r, w) := DecodeRune(s);
    ((r < 0x20 || r > 0x7E) && r != TAB) || NeedsEncoding(s[w..])
  }

  predicate Printable(c: Byte) { 0x20 <= c <= 0x7E || c == TAB }

  /** Byte by byte: only printable bytes need no encoding. */
  lemma {:induction false} NeedsEncodingBytes(s: seq<Byte>)
    ensures NeedsEncoding(s) <==> exists i :: 0 <= i < |s| && !Printable(s[i])
    decreases |s|
  {
    if s != [] {
      var (r, w) := DecodeRune(s);
      if s[0] < RUNE_SELF {
        NeedsEncodingBytes(s[1..]);
        assert forall i :: 0 < i < |s| ==> s[i] == s[1..][i - 1];
      } else {
        assert !Printable(s[0]);
        FirstNeedsEncoding(s);
      }
    }
  }

  lemma {:induction false} FirstNeedsEncoding(s: seq<Byte>)
    requires s != [] && s[0] >= RUNE_SELF
    ensures NeedsEncoding(s)
  {
    if Multibyte(s) {
      EncodeDecoded(s);
    }
  }

  // ---- hexadecimal digits ----

  function UpperHex(n: nat): (c: Byte)
    requires n < 16
  {
    if n < 10 then 0x30 + n else 0x41 + n - 10
  }

  predicate IsHex(c: Byte) { IsDigit(c) || 0x61 <= c <= 0x66 || 0x41 <= c <= 0x46 }

  function Unhex(c: Byte): (n: nat)
    ensures n < 16
  {
    if IsDigit(c) then c - 0x30
    else if 0x61 <= c <= 0x66 then c - 0x61 + 10
    else if 0x41 <= c <= 0x46 then c - 0x41 + 10
    else 0
  }

  function HexByte(hi: Byte, lo: Byte): (b: Byte) { Unhex(hi) * 16 + Unhex(lo) }

  lemma {:induction false} HexRoundTrip(b: Byte)
    ensures IsHex(UpperHex(b / 16)) && IsHex(UpperHex(b % 16))
    ensures HexByte(UpperHex(b / 16), UpperHex(b % 16)) == b
  {}
}
