/**
 html.EscapeString and html.UnescapeString. Unescape is the reference: it reads the input and
 writes elsewhere. The source rewrites one buffer in place, which is the same as long as no
 reference stands for more bytes than it takes up.
 */
module Html {
  import opened Bytes
  import opened Utf8
  import opened Grammar

  const AMPERSAND: Byte := 0x26
  const HASH: Byte := 0x23
  const LONGEST_WITHOUT_SEMICOLON: nat := 6

  /** The entity maps; a name that is missing stands for 0. */
  datatype Tables = Tables(one: map<seq<Byte>, nat>, two: map<seq<Byte>, (nat, nat)>)

  function One(t: Tables, name: seq<Byte>): nat { if name in t.one then t.one[name] else 0 }

  function Two(t: Tables, name: seq<Byte>): (nat, nat) { if name in t.two then t.two[name] else (0, 0) }

  /** utf8.EncodeRune: what is not a rune is written as the error rune. */
  function Encoded(x: int): (r: seq<Byte>)
    ensures 1 <= |r| <= 4
  {
    if x >= 0 && ValidRune(x) then EncodeRune(x) else EncodeRune(RUNE_ERROR)
  }

  /** Each entity's encoding is no longer than its reference, the & included. */
  ghost predicate Fits(t: Tables) {
    && (forall n :: n in t.one ==> |Encoded(t.one[n])| <= |n| + 1)
    && (forall n :: n in t.two ==> |Encoded(t.two[n].0)| + |Encoded(t.two[n].1)| <= |n| + 1)
  }

  /** amp; lt; gt; */
  const AMP: seq<Byte> := [0x61, 0x6D, 0x70, 0x3B]
  const LT: seq<Byte> := [0x6C, 0x74, 0x3B]
  const GT: seq<Byte> := [0x67, 0x74, 0x3B]

  /** The entries that escaping relies on. */
  predicate Standard(t: Tables) {
    One(t, AMP) == 0x26 && One(t, LT) == 0x3C && One(t, GT) == 0x3E
  }

  // ---- numeric references ----

  /** Arithmetic on int32. */
  function Wrap32(x: int): (r: int)
    ensures -0x8000_0000 <= r < 0x8000_0000
    ensures -0x8000_0000 <= x < 0x8000_0000 ==> r == x
  {
    (x + 0x8000_0000) % 0x1_0000_0000 - 0x8000_0000
  }

  predicate IsNumeral(c: Byte, hex: bool) { if hex then IsHex(c) else IsDigit(c) }

  /** Read digits from i on: the number, and where it ends, a semicolon included. */
  function Number(s: seq<Byte>, i: nat, hex: bool, x: int): (r: (int, nat))
    requires i <= |s|
    ensures i <= r.1 <= |s|
    decreases |s| - i
  {
    if i == |s| then (x, i)
    else if IsNumeral(s[i], hex) then Number(s, i + 1, hex, Wrap32((if hex then 16 else 10) * x + Unhex(s[i])))
    else if s[i] == SEMICOLON then (x, i + 1)
    else (x, i)
  }

  /** The Windows-1252 replacements for 0x80 to 0x9F. */
  const REPLACEMENTS: seq<nat> := [
    0x20AC, 0x0081, 0x201A, 0x0192, 0x201E, 0x2026, 0x2020, 0x2021,
    0x02C6, 0x2030, 0x0160, 0x2039, 0x0152, 0x008D, 0x017D, 0x008F,
    0x0090, 0x2018, 0x2019, 0x201C, 0x201D, 0x2022, 0x2013, 0x2014,
    0x02DC, 0x2122, 0x0161, 0x203A, 0x0153, 0x009D, 0x017E, 0x0178]

  function Repair(x: int): int {
    if 0x80 <= x <= 0x9F then REPLACEMENTS[x - 0x80]
    else if x == 0 || 0xD800 <= x <= 0xDFFF || x > 0x10FFFF then RUNE_ERROR
    else x
  }

  // ---- references ----

  /** What a reference at the start of the text stands for, and how many bytes it takes up. */
  datatype Reference = Reference(out: seq<Byte>, size: nat)

  function Numeric(s: seq<Byte>): (r: Reference)
    requires |s| > 1 && s[0] == AMPERSAND && s[1] == HASH
    ensures 1 <= r.size <= |s| && |r.out| <= r.size
  {
    if |s| <= 3 then Reference(s[..1], 1)
    else
      var hex := s[2] == 0x78 || s[2] == 0x58;
      var (x, i) := Number(s, if hex then 3 else 2, hex, 0);
      if i <= 3 then Reference(s[..1], 1) else Reference(Encoded(Repair(x)), i)
  }

  predicate IsAlnum(c: Byte) { IsAlpha(c) || IsDigit(c) }

  /** Where the name that goes on at i ends, a semicolon included. */
  function NameEnd(s: seq<Byte>, i: nat): (e: nat)
    requires i <= |s|
    ensures i <= e <= |s|
    decreases |s| - i
  {
    if i == |s| then i
    else if IsAlnum(s[i]) then NameEnd(s, i + 1)
    else if s[i] == SEMICOLON then i + 1
    else i
  }

  /** The longest prefix of a name, of at most j bytes and at least two, that is an entity. */
  function PrefixEntity(t: Tables, name: seq<Byte>, j: int): (k: nat)
    requires j <= |name|
    ensures k > 0 ==> 1 < k <= j && One(t, name[..k]) != 0
    ensures forall m :: (if k > 0 then k else 1) < m <= j ==> One(t, name[..m]) == 0
    decreases j
  {
    if j <= 1 then 0
    else if One(t, name[..j]) != 0 then j
    else PrefixEntity(t, name, j - 1)
  }

  function MaxPrefix(name: seq<Byte>): int {
    if |name| - 1 > LONGEST_WITHOUT_SEMICOLON then LONGEST_WITHOUT_SEMICOLON else |name| - 1
  }

  function Named(t: Tables, s: seq<Byte>): (r: Reference)
    requires |s| > 1 && s[0] == AMPERSAND
    ensures 1 <= r.size <= |s|
  {
    var i := NameEnd(s, 1);
    var name := s[1..i];
    if name == [] then Reference(s[..i], i)
    else if One(t, name) != 0 then Reference(Encoded(One(t, name)), i)
    else if Two(t, name).0 != 0 then Reference(Encoded(Two(t, name).0) + Encoded(Two(t, name).1), i)
    else
      var j := PrefixEntity(t, name, MaxPrefix(name));
      if j > 0 then Reference(Encoded(One(t, name[..j])), j + 1) else Reference(s[..i], i)
  }

  function Refer(t: Tables, s: seq<Byte>): (r: Reference)
    requires s != [] && s[0] == AMPERSAND
    ensures 1 <= r.size <= |s|
  {
    if |s| == 1 then Reference(s[..1], 1)
    else if s[1] == HASH then Numeric(s)
    else Named(t, s)
  }

  /** No reference grows: a numeric one takes up four bytes or more, a named one what the
      tables allow. */
  lemma {:induction false} ReferFits(t: Tables, s: seq<Byte>)
    requires Fits(t) && s != [] && s[0] == AMPERSAND
    ensures |Refer(t, s).out| <= Refer(t, s).size
  {
    if |s| > 1 && s[1] != HASH {
      var i := NameEnd(s, 1);
      var name := s[1..i];
      var j := PrefixEntity(t, name, MaxPrefix(name));
      assert One(t, name) != 0 ==> name in t.one;
      assert Two(t, name).0 != 0 ==> name in t.two;
      assert j > 0 ==> name[..j] in t.one;
      hide Encoded, NameEnd, PrefixEntity;
    }
  }

  // ---- the two functions ----

  function Unescape(t: Tables, s: seq<Byte>): (r: seq<Byte>)
    decreases |s|
  {
    if s == [] then []
    else if s[0] == AMPERSAND then Refer(t, s).out + Unescape(t, s[Refer(t, s).size..])
    else [s[0]] + Unescape(t, s[1..])
  }

  /** What the replacer puts in place of a byte. */
  function EscapeByte(c: Byte): seq<Byte> {
    if c == AMPERSAND then [AMPERSAND] + AMP
    else if c == 0x27 then [AMPERSAND, HASH, 0x33, 0x39, SEMICOLON]
    else if c == 0x3C then [AMPERSAND] + LT
    else if c == 0x3E then [AMPERSAND] + GT
    else if c == 0x22 then [AMPERSAND, HASH, 0x33, 0x34, SEMICOLON]
    else [c]
  }

  function Escape(s: seq<Byte>): seq<Byte> {
    if s == [] then [] else EscapeByte(s[0]) + Escape(s[1..])
  }

  /** A name with its semicolon is read whole, whatever follows. */
  lemma {:induction false} NameRead(s: seq<Byte>, i: nat, e: nat)
    requires 1 <= i < e <= |s| && s[e - 1] == SEMICOLON && forall j :: i <= j < e - 1 ==> IsAlnum(s[j])
    ensures NameEnd(s, i) == e
    decreases e - i
  {
    if i < e - 1 {
      NameRead(s, i + 1, e);
    }
  }

  lemma {:induction false} NamedRead(t: Tables, name: seq<Byte>, c: Byte, tail: seq<Byte>)
    requires name in {AMP, LT, GT} && One(t, name) == c && 0 < c < RUNE_SELF
    ensures Refer(t, [AMPERSAND] + name + tail) == Reference([c], 1 + |name|)
  {
    var s := [AMPERSAND] + name + tail;
    var e := 1 + |name|;
    assert s[1..e] == name;
    assert forall j :: 1 <= j < e ==> s[j] == name[j - 1];
    NameRead(s, 1, e);
    assert Encoded(c) == [c];
    hide NameEnd, PrefixEntity, Encoded, Numeric;
  }

  lemma {:induction false} NumericRead(t: Tables, d: Byte, tail: seq<Byte>)
    requires d == 0x34 || d == 0x39
    ensures Refer(t, [AMPERSAND, HASH, 0x33, d, SEMICOLON] + tail) == Reference([d - 0x12], 5)
  {
    var s := [AMPERSAND, HASH, 0x33, d, SEMICOLON] + tail;
    var u := Unhex(d);
    assert Number(s, 4, false, 30 + u) == (30 + u, 5);
    assert Number(s, 3, false, 3) == Number(s, 4, false, Wrap32(10 * 3 + u));
    assert Number(s, 2, false, 0) == Number(s, 3, false, Wrap32(10 * 0 + 3));
    assert Numeric(s) == Reference(Encoded(Repair(30 + u)), 5);
    hide Number, Numeric;
  }

  lemma {:induction false} ByteRead(t: Tables, c: Byte, tail: seq<Byte>)
    requires Standard(t)
    ensures Unescape(t, EscapeByte(c) + tail) == [c] + Unescape(t, tail)
  {
    var e := EscapeByte(c);
    var s := e + tail;
    assert s[|e|..] == tail;
    if c == AMPERSAND {
      NamedRead(t, AMP, c, tail);
    } else if c == 0x3C {
      NamedRead(t, LT, c, tail);
    } else if c == 0x3E {
      NamedRead(t, GT, c, tail);
    } else if c == 0x27 {
      NumericRead(t, 0x39, tail);
    } else if c == 0x22 {
      NumericRead(t, 0x34, tail);
    }
    hide Refer;
  }

  /** Unescaping undoes escaping, for every byte string. */
  lemma {:induction false} RoundTrip(t: Tables, s: seq<Byte>)
    requires Standard(t)
    ensures Unescape(t, Escape(s)) == s
  {
    if s != [] {
      RoundTrip(t, s[1..]);
      ByteRead(t, s[0], Escape(s[1..]));
    }
  }

  /** nLt; with its two runes, which the source leaves out of its table. */
  const NLT: seq<Byte> := [0x6E, 0x4C, 0x74, 0x3B]

  /** A table with nLt; would not fit: the reference takes up five bytes and stands for six. */
  lemma {:induction false} WideEntity(t: Tables)
    requires One(t, NLT) == 0 && Two(t, NLT) == (0x226A, 0x20D2)
    ensures !Fits(t)
    ensures var r := Refer(t, [AMPERSAND] + NLT); r.size == 5 && |r.out| == 6
  {
    var s := [AMPERSAND] + NLT;
    NameRead(s, 1, 5);
    assert s[1..5] == NLT;
    assert |Encoded(0x226A)| == 3 && |Encoded(0x20D2)| == 3;
    assert NLT in t.two;
  }
}
