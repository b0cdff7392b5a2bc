/**
 The split functions of bufio/scan.go, and the law that makes a Scanner independent of how
 its reader cuts the input into chunks: what a split function says about a prefix of the
 input agrees with what it says about the whole input at EOF.
 */
module Splitting {
  import opened Options
  import opened Bytes
  import opened Utf8

  datatype Splitter = ScanBytes | ScanLines | ScanWords | ScanRunes

  const NEWLINE: Byte := 10
  const CR: Byte := 13
  const ERROR_RUNE: seq<Byte> := [0xEF, 0xBF, 0xBD]

  /** bytes.IndexByte, with |s| for "not found". */
  function IndexByte(s: seq<Byte>, c: Byte): (i: nat)
    ensures i <= |s| && c !in s[..i] && (i < |s| ==> s[i] == c)
  {
    if s == [] || s[0] == c then 0
    else
      var i := 1 + IndexByte(s[1..], c);
      assert s[..i] == [s[0]] + s[1..][..i - 1];
      i
  }

  function DropCR(s: seq<Byte>): seq<Byte> {
    if s != [] && s[|s| - 1] == CR then s[..|s| - 1] else s
  }

  /** Unicode white space. */
  predicate IsSpace(r: nat) {
    if r <= 0xFF then r == 0x20 || 0x09 <= r <= 0x0D || r == 0x85 || r == 0xA0
    else 0x2000 <= r <= 0x200A || r in {0x1680, 0x2028, 0x2029, 0x202F, 0x205F, 0x3000}
  }

  /** The number of bytes of leading white space. */
  function SkipSpaces(s: seq<Byte>): (n: nat)
    ensures n <= |s|
    decreases |s|
  {
    if s == [] then 0
    else
      var (r, w) := DecodeRune(s);
      if IsSpace(r) then w + SkipSpaces(s[w..]) else 0
  }

  /** Where the first white space rune begins, and its width. */
  function WordEnd(s: seq<Byte>): (e: Option<(nat, nat)>)
    ensures e.Some? ==> e.value.0 + e.value.1 <= |s| && e.value.1 > 0
    decreases |s|
  {
    if s == [] then None
    else
      var (r, w) := DecodeRune(s);
      if IsSpace(r) then Some((0, w))
      else
        var e := WordEnd(s[w..]);
        if e.None? then None else Some((w + e.value.0, e.value.1))
  }

  /** What a split function returns: bytes to advance, and a token if there is one. */
  type Cut = (nat, Option<seq<Byte>>)

  function SplitLines(data: seq<Byte>, atEOF: bool): (r: Cut) {
    if atEOF && data == [] then (0, None)
    else
      var i := IndexByte(data, NEWLINE);
      if i < |data| then (i + 1, Some(DropCR(data[..i])))
      else if atEOF then (|data|, Some(DropCR(data)))
      else (0, None)
  }

  function SplitRunes(data: seq<Byte>, atEOF: bool): (r: Cut) {
    if data == [] then (0, None)
    else if data[0] < RUNE_SELF then (1, Some(data[..1]))
    else
      var (_, width) := DecodeRune(data);
      if width > 1 then (width, Some(data[..width]))
      else if !atEOF && !FullRune(data) then (0, None)
      else (1, Some(ERROR_RUNE))
  }

  function SplitWords(data: seq<Byte>, atEOF: bool): (r: Cut)
    ensures r.0 <= |data| && (r.1.Some? ==> r.0 > 0)
  {
    WordFrom(data, SkipSpaces(data), atEOF)
  }

  /** The word that begins at start, past the leading white space. */
  function WordFrom(data: seq<Byte>, start: nat, atEOF: bool): (r: Cut)
    requires start <= |data|
    ensures r.0 <= |data| && (r.1.Some? ==> r.0 > 0)
  {
    var e := WordEnd(data[start..]);
    if e.Some? then (start + e.value.0 + e.value.1, Some(data[start..start + e.value.0]))
    else if atEOF && |data| > start then (|data|, Some(data[start..]))
    else (start, None)
  }

  function Split(k: Splitter, data: seq<Byte>, atEOF: bool): (r: Cut)
    ensures r.0 <= |data|
    ensures r.1.Some? ==> r.0 > 0
  {
    match k
    case ScanBytes => if data == [] then (0, None) else (1, Some(data[..1]))
    case ScanLines => SplitLines(data, atEOF)
    case ScanRunes => SplitRunes(data, atEOF)
    case ScanWords => SplitWords(data, atEOF)
  }

  /** The next token of the whole remaining input, and how far it reaches. */
  function NextToken(k: Splitter, rest: seq<Byte>): (r: Option<(seq<Byte>, nat)>)
    ensures r.Some? ==> 0 < r.value.1 <= |rest|
  {
    FromCut(Split(k, rest, true))
  }

  function FromCut(c: Cut): Option<(seq<Byte>, nat)> {
    if c.1.None? then None else Some((c.1.value, c.0))
  }

  /** All tokens of an input: the split function run over it at EOF, again and again. */
  function Tokens(k: Splitter, rest: seq<Byte>): (ts: seq<seq<Byte>>)
    decreases |rest|
  {
    var t := NextToken(k, rest);
    if t.None? then [] else [t.value.0] + Tokens(k, rest[t.value.1..])
  }

  // ---- a prefix agrees with the whole ----

  lemma {:induction false} IndexPrefix(d: seq<Byte>, rest: seq<Byte>, c: Byte)
    requires d <= rest && IndexByte(d, c) < |d|
    ensures IndexByte(rest, c) == IndexByte(d, c)
    decreases |d|
  {
    if d[0] != c {
      assert d[1..] <= rest[1..];
      IndexPrefix(d[1..], rest[1..], c);
    }
  }

  lemma {:induction false} LinesAgree(d: seq<Byte>, rest: seq<Byte>)
    requires d <= rest && SplitLines(d, false).1.Some?
    ensures SplitLines(rest, true) == SplitLines(d, false)
  {
    IndexPrefix(d, rest, NEWLINE);
    var i := IndexByte(d, NEWLINE);
    assert rest[..i] == d[..i];
  }

  lemma {:induction false} RunesAgree(d: seq<Byte>, rest: seq<Byte>)
    requires d <= rest && SplitRunes(d, false).1.Some?
    ensures SplitRunes(rest, true) == SplitRunes(d, false)
  {
    assert FullRune(d);
    FullRuneStable(d, rest);
    var w := DecodeRune(d).1;
    assert rest[..w] == d[..w] && rest[..1] == d[..1];
  }

  lemma {:induction false} SpaceIsFull(s: seq<Byte>)
    requires s != [] && IsSpace(DecodeRune(s).0)
    ensures FullRune(s)
  {}

  /** Skipping the white space of a prefix, then the rest's, is skipping the rest's. */
  lemma {:induction false} SkipAgree(d: seq<Byte>, rest: seq<Byte>)
    requires d <= rest
    ensures SkipSpaces(d) <= |rest| && SkipSpaces(rest) == SkipSpaces(d) + SkipSpaces(rest[SkipSpaces(d)..])
    decreases |d|
  {
    if d != [] && IsSpace(DecodeRune(d).0) {
      SpaceIsFull(d);
      FullRuneStable(d, rest);
      var w := DecodeRune(d).1;
      assert d[w..] <= rest[w..];
      SkipAgree(d[w..], rest[w..]);
      assert rest[w..][SkipSpaces(d[w..])..] == rest[SkipSpaces(d)..];
    }
  }

  /** After an incomplete rune at the end of the data no white space follows. */
  lemma {:induction false} IncompleteHasNoEnd(s: seq<Byte>)
    requires s != [] && !FullRune(s)
    ensures WordEnd(s).None?
  {
    Incomplete(s, 0);
    NoEndFrom(s, 1);
    assert s == s[0..];
  }

  lemma {:induction false} NoEndFrom(s: seq<Byte>, i: nat)
    requires s != [] && !FullRune(s) && 0 < i <= |s|
    ensures WordEnd(s[i..]).None?
    decreases |s| - i
  {
    if i < |s| {
      Incomplete(s, i);
      NoEndFrom(s, i + 1);
      assert s[i..][1..] == s[i + 1..];
    }
  }

  lemma {:induction false} WordEndAgree(d: seq<Byte>, rest: seq<Byte>)
    requires d <= rest && WordEnd(d).Some?
    ensures WordEnd(rest) == WordEnd(d) && FullRune(d)
    decreases |d|
  {
    if !FullRune(d) {
      IncompleteHasNoEnd(d);
      assert false;
    }
    FullRuneStable(d, rest);
    var (r, w) := DecodeRune(d);
    if !IsSpace(r) {
      assert d[w..] <= rest[w..];
      WordEndAgree(d[w..], rest[w..]);
    }
  }

  lemma {:induction false} SkipStops(s: seq<Byte>)
    ensures SkipSpaces(s[SkipSpaces(s)..]) == 0
    ensures SkipSpaces(s) < |s| ==> !IsSpace(DecodeRune(s[SkipSpaces(s)..]).0)
    decreases |s|
  {
    if s != [] && IsSpace(DecodeRune(s).0) {
      var w := DecodeRune(s).1;
      SkipStops(s[w..]);
      assert s[w..][SkipSpaces(s[w..])..] == s[SkipSpaces(s)..];
    }
  }

  /** White space found by a prefix that goes on with a word is all of it. */
  lemma {:induction false} SkipFixed(d: seq<Byte>, rest: seq<Byte>)
    requires d <= rest && FullRune(d[SkipSpaces(d)..])
    ensures SkipSpaces(rest) == SkipSpaces(d)
  {
    var start := SkipSpaces(d);
    assert d[start..] <= rest[start..];
    SkipStops(d);
    FullRuneStable(d[start..], rest[start..]);
    SkipAgree(d, rest);
  }

  lemma {:induction false} WordsAgree(d: seq<Byte>, rest: seq<Byte>, atEOF: bool)
    requires d <= rest && SplitWords(d, false).1.Some?
    ensures SplitWords(rest, atEOF) == SplitWords(d, false)
  {
    hide SkipSpaces, WordEnd, FullRune;
    var start := SkipSpaces(d);
    assert d[start..] <= rest[start..];
    WordEndAgree(d[start..], rest[start..]);
    SkipFixed(d, rest);
    var e := WordEnd(d[start..]).value;
    assert SplitWords(d, false) == (start + e.0 + e.1, Some(d[start..start + e.0]));
    assert SplitWords(rest, atEOF) == (start + e.0 + e.1, Some(rest[start..start + e.0]));
    hide *;
    assert rest[start..start + e.0] == d[start..start + e.0];
  }

  /** A token found in a prefix is the next token of the whole input. */
  lemma {:induction false} PrefixToken(k: Splitter, d: seq<Byte>, rest: seq<Byte>)
    requires d <= rest && Split(k, d, false).1.Some?
    ensures NextToken(k, rest) == Some((Split(k, d, false).1.value, Split(k, d, false).0))
  {
    hide SplitLines, SplitRunes, SplitWords;
    match k
    case ScanBytes => assert rest[..1] == d[..1];
    case ScanLines => LinesAgree(d, rest);
    case ScanRunes => RunesAgree(d, rest);
    case ScanWords => WordsAgree(d, rest, true);
  }

  lemma {:induction false} WordFromShift(rest: seq<Byte>, n: nat, m: nat)
    requires n + m <= |rest|
    ensures var (adv, tok) := WordFrom(rest[n..], m, true);
      WordFrom(rest, n + m, true) == (n + adv, tok)
  {
    assert rest[n..][m..] == rest[n + m..];
    hide WordEnd;
    var e := WordEnd(rest[n + m..]);
    assert e.Some? ==> rest[n..][m..m + e.value.0] == rest[n + m..n + m + e.value.0];
  }

  lemma {:induction false} WordsSkip(d: seq<Byte>, rest: seq<Byte>)
    requires d <= rest && SplitWords(d, false).1.None?
    ensures var n := SplitWords(d, false).0;
      n <= |rest| && SplitWords(rest, true) == (n + SplitWords(rest[n..], true).0, SplitWords(rest[n..], true).1)
  {
    hide SkipSpaces, WordEnd;
    var n := SplitWords(d, false).0;
    assert n == SkipSpaces(d);
    SkipAgree(d, rest);
    hide WordFrom;
    var tail := rest[n..];
    assert SplitWords(rest, true) == WordFrom(rest, SkipSpaces(rest), true);
    assert SplitWords(tail, true) == WordFrom(tail, SkipSpaces(tail), true);
    hide *;
    WordFromShift(rest, n, SkipSpaces(tail));
  }

  /** Only ScanWords skips bytes without a token. */
  lemma {:induction false} OnlyWordsSkip(k: Splitter, d: seq<Byte>)
    requires Split(k, d, false).1.None? && !k.ScanWords?
    ensures Split(k, d, false).0 == 0
  {}

  /** Bytes a split function skips without a token do not change the next token. */
  lemma {:induction false} PrefixSkip(k: Splitter, d: seq<Byte>, rest: seq<Byte>)
    requires d <= rest && Split(k, d, false).1.None?
    ensures var n := Split(k, d, false).0;
      var t := NextToken(k, rest[n..]);
      NextToken(k, rest) == if t.None? then None else Some((t.value.0, n + t.value.1))
  {
    hide *;
    if k.ScanWords? {
      PrefixSkipWords(d, rest);
    } else {
      OnlyWordsSkip(k, d);
      assert rest[0..] == rest;
    }
  }

  lemma {:induction false} PrefixSkipWords(d: seq<Byte>, rest: seq<Byte>)
    requires d <= rest && Split(ScanWords, d, false).1.None?
    ensures var n := Split(ScanWords, d, false).0;
      var t := NextToken(ScanWords, rest[n..]);
      NextToken(ScanWords, rest) == if t.None? then None else Some((t.value.0, n + t.value.1))
  {
    hide SplitWords;
    WordsSkip(d, rest);
  }

  // ---- how much room a scan needs ----

  /** A buffer of m bytes that starts at rest can be too small: it may fill up and still give
      the split function nothing to do. */
  predicate Stuck(k: Splitter, rest: seq<Byte>, m: nat) {
    |rest| >= m && Split(k, rest[..m], false) == (0, None)
  }

  /** The next step a scan must be able to take: one white space rune before a word, or one
      token; 0 at the end of the input. */
  function Unit(k: Splitter, rest: seq<Byte>): (n: nat)
    ensures n <= |rest|
  {
    if k.ScanWords? && rest != [] && IsSpace(DecodeRune(rest).0) then DecodeRune(rest).1
    else
      var t := NextToken(k, rest);
      if t.None? then 0 else t.value.1
  }

  /** A buffer of m bytes is large enough for everything in rest. */
  predicate Roomy(k: Splitter, rest: seq<Byte>, m: nat)
    decreases |rest|
  {
    && !Stuck(k, rest, m)
    && (Unit(k, rest) > 0 ==> Roomy(k, rest[Unit(k, rest)..], m))
  }

  /** White space skipped by a prefix is skipped unit by unit. */
  lemma {:induction false} RoomyWhite(d: seq<Byte>, rest: seq<Byte>, m: nat)
    requires d <= rest && Roomy(ScanWords, rest, m)
    ensures Roomy(ScanWords, rest[SkipSpaces(d)..], m)
    decreases |d|
  {
    if d != [] && IsSpace(DecodeRune(d).0) {
      SpaceIsFull(d);
      FullRuneStable(d, rest);
      var w := DecodeRune(d).1;
      assert d[w..] <= rest[w..];
      assert Unit(ScanWords, rest) == w;
      RoomyWhite(d[w..], rest[w..], m);
      assert rest[w..][SkipSpaces(d[w..])..] == rest[SkipSpaces(d)..];
    } else {
      assert rest[0..] == rest;
    }
  }

  lemma {:induction false} RoomySkip(k: Splitter, d: seq<Byte>, rest: seq<Byte>, m: nat)
    requires d <= rest && Roomy(k, rest, m) && Split(k, d, false).1.None?
    ensures Roomy(k, rest[Split(k, d, false).0..], m)
  {
    hide Roomy;
    if k.ScanWords? {
      RoomyWhite(d, rest, m);
    } else {
      assert rest[0..] == rest;
    }
  }

  lemma {:induction false} RoomyToken(k: Splitter, rest: seq<Byte>, m: nat)
    requires Roomy(k, rest, m) && NextToken(k, rest).Some?
    ensures Roomy(k, rest[NextToken(k, rest).value.1..], m)
  {
    if k.ScanWords? {
      var n := SkipSpaces(rest);
      RoomyWhite(rest, rest, m);
      SkipStops(rest);
      WordUnit(rest);
      assert rest[n..][Unit(k, rest[n..])..] == rest[NextToken(k, rest).value.1..];
    }
  }

  /** Past its white space, a word is one unit. */
  lemma {:induction false} WordUnit(rest: seq<Byte>)
    requires NextToken(ScanWords, rest).Some?
    ensures var n := SkipSpaces(rest);
      n < |rest| && n + Unit(ScanWords, rest[n..]) == NextToken(ScanWords, rest).value.1
  {
    var n := SkipSpaces(rest);
    SkipStops(rest);
    assert WordEnd([]) == None;
    WordFromShift(rest, n, 0);
    hide SkipSpaces, WordEnd;
    var tail := rest[n..];
    assert |tail| == 0 ==> tail == [];
  }

  /** More data never takes a step away. */
  lemma {:induction false} ProgressGrows(k: Splitter, d: seq<Byte>, rest: seq<Byte>)
    requires d <= rest && Split(k, d, false) != (0, None)
    ensures Split(k, rest, false) != (0, None)
  {
    match k
    case ScanBytes =>
    case ScanLines => IndexPrefix(d, rest, NEWLINE);
    case ScanRunes => hide IndexByte, SkipSpaces, WordEnd; RunesProgress(d, rest);
    case ScanWords => WordsProgress(d, rest);
  }

  lemma {:induction false} RunesProgress(d: seq<Byte>, rest: seq<Byte>)
    requires d <= rest && SplitRunes(d, false) != (0, None)
    ensures SplitRunes(rest, false) != (0, None)
  {
    assert FullRune(d);
    FullRuneStable(d, rest);
  }

  lemma {:induction false} WordsProgress(d: seq<Byte>, rest: seq<Byte>)
    requires d <= rest && SplitWords(d, false) != (0, None)
    ensures SplitWords(rest, false) != (0, None)
  {
    if SplitWords(d, false).1.Some? {
      WordsAgree(d, rest, false);
    } else {
      SkipAgree(d, rest);
      hide SkipSpaces, WordEnd;
    }
  }

  lemma {:induction false} StuckShrinks(k: Splitter, rest: seq<Byte>, m: nat, n: nat)
    requires m <= n && Stuck(k, rest, n)
    ensures Stuck(k, rest, m)
  {
    hide Split;
    assert rest[..m] <= rest[..n];
    if Split(k, rest[..m], false) != (0, None) {
      ProgressGrows(k, rest[..m], rest[..n]);
    }
  }

  /** The bytes of white space a token starts with. */
  function Indent(k: Splitter, rest: seq<Byte>): (n: nat)
    ensures n <= |rest|
  {
    if k.ScanWords? then SkipSpaces(rest) else 0
  }

  /** Every token, with its delimiter, is shorter than m. */
  predicate ShortTokens(k: Splitter, rest: seq<Byte>, m: nat)
    decreases |rest|
  {
    var t := NextToken(k, rest);
    t.Some? ==> t.value.1 - Indent(k, rest) < m && ShortTokens(k, rest[t.value.1..], m)
  }

  /** A white space rune in front changes no token. */
  lemma {:induction false} NextPastSpace(rest: seq<Byte>)
    requires rest != [] && IsSpace(DecodeRune(rest).0)
    ensures var w := DecodeRune(rest).1;
      var t := NextToken(ScanWords, rest[w..]);
      && Indent(ScanWords, rest) == w + Indent(ScanWords, rest[w..])
      && NextToken(ScanWords, rest) == if t.None? then None else Some((t.value.0, w + t.value.1))
  {
    hide SkipSpaces, DecodeRune, IsSpace, WordFrom;
    var w := DecodeRune(rest).1;
    var tail := rest[w..];
    SkipOne(rest);
    assert NextToken(ScanWords, rest) == FromCut(WordFrom(rest, SkipSpaces(rest), true));
    assert NextToken(ScanWords, tail) == FromCut(WordFrom(tail, SkipSpaces(tail), true));
    FromCutLater(WordFrom(tail, SkipSpaces(tail), true), w);
    assert Indent(ScanWords, rest) == w + Indent(ScanWords, tail);
    hide *;
    WordFromShift(rest, w, SkipSpaces(tail));
  }

  lemma {:induction false} SkipOne(rest: seq<Byte>)
    requires rest != [] && IsSpace(DecodeRune(rest).0)
    ensures var w := DecodeRune(rest).1; SkipSpaces(rest) == w + SkipSpaces(rest[w..])
  {}

  lemma {:induction false} FromCutLater(c: Cut, n: nat)
    ensures FromCut((n + c.0, c.1)) == if FromCut(c).None? then None else Some((FromCut(c).value.0, n + FromCut(c).value.1))
  {}

  lemma {:induction false} ShortPastSpace(rest: seq<Byte>, m: nat)
    requires rest != [] && IsSpace(DecodeRune(rest).0) && ShortTokens(ScanWords, rest, m)
    ensures ShortTokens(ScanWords, rest[DecodeRune(rest).1..], m)
  {
    hide NextToken, Indent, DecodeRune, IsSpace;
    NextPastSpace(rest);
    var w := DecodeRune(rest).1;
    var t := NextToken(ScanWords, rest[w..]);
    if t.Some? {
      assert rest[w..][t.value.1..] == rest[w + t.value.1..];
    }
  }

  /** A word that ends within d ends there for d as well. */
  lemma {:induction false} WordEndWithin(d: seq<Byte>, rest: seq<Byte>)
    requires d <= rest && WordEnd(rest).Some?
    requires WordEnd(rest).value.0 + WordEnd(rest).value.1 <= |d|
    ensures WordEnd(d).Some?
    decreases |d|
  {
    var (r, w) := DecodeRune(rest);
    if FullRune(d) {
      FullRuneStable(d, rest);
      if !IsSpace(r) {
        assert d[w..] <= rest[w..];
        WordEndWithin(d[w..], rest[w..]);
      }
    } else {
      LateEnd(d, rest, 0);
    }
  }

  /** No white space rune lies within an incomplete rune. */
  lemma {:induction false} LateEnd(d: seq<Byte>, rest: seq<Byte>, i: nat)
    requires d <= rest && d != [] && !FullRune(d) && i < |d|
    ensures WordEnd(rest[i..]).Some? ==> i + WordEnd(rest[i..]).value.0 + WordEnd(rest[i..]).value.1 > |d|
    decreases |d| - i
  {
    var (r, w) := DecodeRune(rest[i..]);
    Incomplete(d, i);
    assert rest[i] == d[i];
    if i + w <= |d| {
      LateRune(d, rest, i);
      assert rest[i..][1..] == rest[i + 1..];
      if i + 1 < |d| {
        LateEnd(d, rest, i + 1);
      }
    }
  }

  lemma {:induction false} LateRune(d: seq<Byte>, rest: seq<Byte>, i: nat)
    requires d <= rest && d != [] && !FullRune(d) && i < |d|
    requires i + DecodeRune(rest[i..]).1 <= |d|
    ensures DecodeRune(rest[i..]) == (RUNE_ERROR, 1)
  {
    var (r, w) := DecodeRune(rest[i..]);
    Incomplete(d, i);
    assert rest[i] == d[i];
    assert i == 0 ==> rest[i..] == rest;
  }

  /** The limits for which tokens shorter than the limit are enough. A rune is recognised by its
      fourth byte at the latest, white space by its third. */
  predicate Enough(k: Splitter, m: nat) {
    match k
    case ScanBytes => m >= 1
    case ScanLines => m >= 1
    case ScanRunes => m == 1 || m >= 4
    case ScanWords => m >= 3
  }

  lemma {:induction false} ShortIsRoomy(k: Splitter, rest: seq<Byte>, m: nat)
    requires Enough(k, m) && ShortTokens(k, rest, m)
    ensures Roomy(k, rest, m)
    decreases |rest|
  {
    ShortNotStuck(k, rest, m);
    var n := Unit(k, rest);
    if n > 0 {
      if k.ScanWords? && IsSpace(DecodeRune(rest).0) {
        ShortPastSpace(rest, m);
      }
      ShortIsRoomy(k, rest[n..], m);
    }
  }

  lemma {:induction false} ShortNotStuck(k: Splitter, rest: seq<Byte>, m: nat)
    requires Enough(k, m) && ShortTokens(k, rest, m)
    ensures !Stuck(k, rest, m)
  {
    if |rest| >= m {
      match k
      case ScanBytes =>
      case ScanLines => LinesNotStuck(rest, m);
      case ScanRunes => RunesNotStuck(rest, m);
      case ScanWords => WordsNotStuck(rest, m);
    }
  }

  lemma {:induction false} LinesNotStuck(rest: seq<Byte>, m: nat)
    requires 0 < m <= |rest| && SplitLines(rest, true).0 < m
    ensures SplitLines(rest[..m], false).1.Some?
  {
    var i := IndexByte(rest, NEWLINE);
    assert rest[..m][i] == NEWLINE;
    assert NEWLINE in rest[..m];
  }

  lemma {:induction false} RunesNotStuck(rest: seq<Byte>, m: nat)
    requires Enough(ScanRunes, m) && m <= |rest| && ShortTokens(ScanRunes, rest, m)
    ensures SplitRunes(rest[..m], false) != (0, None)
  {
    assert m >= 4;
    assert FullRune(rest[..m]);
  }

  lemma {:induction false} WordsNotStuck(rest: seq<Byte>, m: nat)
    requires 3 <= m <= |rest|
    requires var t := NextToken(ScanWords, rest); t.Some? ==> t.value.1 - SkipSpaces(rest) < m
    ensures SplitWords(rest[..m], false) != (0, None)
  {
    var d := rest[..m];
    SpaceInThree(d, rest);
    if !IsSpace(DecodeRune(d).0) {
      assert rest[0..] == rest && d[0..] == d;
      assert SkipSpaces(rest) == 0 && SkipSpaces(d) == 0;
      hide SkipSpaces;
      WordEndWithin(d, rest);
    }
  }

  /** Three bytes tell white space from anything else. */
  lemma {:induction false} SpaceInThree(d: seq<Byte>, rest: seq<Byte>)
    requires 3 <= |d| && d <= rest
    ensures IsSpace(DecodeRune(d).0) <==> IsSpace(DecodeRune(rest).0)
  {
    if FullRune(d) {
      FullRuneStable(d, rest);
    } else {
      Incomplete(d, 0);
      if Multibyte(rest) {
        EncodeDecoded(rest);
      }
    }
  }

  // ---- inputs that no scan gets through ----

  /** The buffer fills up at rest before its end can be seen: rest goes on behind the buffer, or
      the buffer has no room at all. */
  predicate Blocked(k: Splitter, rest: seq<Byte>, m: nat) {
    Stuck(k, rest, m) && (|rest| > m || m == 0)
  }

  /** A buffer of m bytes is too small for something in rest, however it is delivered. */
  predicate Doomed(k: Splitter, rest: seq<Byte>, m: nat)
    decreases |rest|
  {
    || Blocked(k, rest, m)
    || (Unit(k, rest) > 0 && Doomed(k, rest[Unit(k, rest)..], m))
  }

  lemma {:induction false} DoomedLong(k: Splitter, rest: seq<Byte>, m: nat)
    requires Doomed(k, rest, m)
    ensures |rest| > m || m == 0
    decreases |rest|
  {
    hide Stuck, Unit;
    if !Blocked(k, rest, m) {
      DoomedLong(k, rest[Unit(k, rest)..], m);
    }
  }

  lemma {:induction false} DoomedNotRoomy(k: Splitter, rest: seq<Byte>, m: nat)
    requires Doomed(k, rest, m)
    ensures !Roomy(k, rest, m)
    decreases |rest|
  {
    hide Stuck, Unit;
    if !Blocked(k, rest, m) {
      DoomedNotRoomy(k, rest[Unit(k, rest)..], m);
    }
  }

  /** An input that is neither roomy nor doomed ends in exactly one full buffer without progress:
      only then does it matter whether the reader reports its end with the last bytes. */
  lemma {:induction false} BetweenRoomyAndDoomed(k: Splitter, rest: seq<Byte>, m: nat)
    requires !Roomy(k, rest, m) && !Doomed(k, rest, m)
    ensures m <= |rest| && Split(k, rest[|rest| - m..], false) == (0, None)
    decreases |rest|
  {
    hide Split, Unit;
    if Stuck(k, rest, m) {
      assert rest[|rest| - m..] == rest[..m];
    } else {
      var n := Unit(k, rest);
      BetweenRoomyAndDoomed(k, rest[n..], m);
      assert rest[n..][|rest[n..]| - m..] == rest[|rest| - m..];
    }
  }

  /** Data that gives the split function something to do is not where a scan is blocked. */
  lemma {:induction false} NotBlocked(k: Splitter, d: seq<Byte>, rest: seq<Byte>, m: nat)
    requires d <= rest && |d| <= m && Split(k, d, false) != (0, None)
    ensures !Blocked(k, rest, m)
  {
    hide Split;
    if |rest| >= m {
      assert d <= rest[..m];
      ProgressGrows(k, d, rest[..m]);
    }
  }

  lemma {:induction false} DoomedWhite(d: seq<Byte>, rest: seq<Byte>, m: nat)
    requires d <= rest && |d| <= m && Doomed(ScanWords, rest, m)
    ensures Doomed(ScanWords, rest[SkipSpaces(d)..], m)
    decreases |d|
  {
    if d != [] && IsSpace(DecodeRune(d).0) {
      SpaceIsFull(d);
      FullRuneStable(d, rest);
      var w := DecodeRune(d).1;
      assert d[w..] <= rest[w..];
      assert Unit(ScanWords, rest) == w;
      WhiteProgress(d);
      NotBlocked(ScanWords, d, rest, m);
      DoomedWhite(d[w..], rest[w..], m);
      assert rest[w..][SkipSpaces(d[w..])..] == rest[SkipSpaces(d)..];
    } else {
      assert rest[0..] == rest;
    }
  }

  lemma {:induction false} WhiteProgress(d: seq<Byte>)
    requires d != [] && IsSpace(DecodeRune(d).0)
    ensures Split(ScanWords, d, false) != (0, None)
  {
    assert SkipSpaces(d) > 0;
    hide SkipSpaces, WordEnd;
  }

  /** Skipping bytes does not save a doomed input ... */
  lemma {:induction false} DoomedSkip(k: Splitter, d: seq<Byte>, rest: seq<Byte>, m: nat)
    requires d <= rest && |d| <= m && Doomed(k, rest, m) && Split(k, d, false).1.None?
    ensures Doomed(k, rest[Split(k, d, false).0..], m)
  {
    hide Doomed;
    if k.ScanWords? {
      assert Split(k, d, false).0 == SkipSpaces(d);
      DoomedWhite(d, rest, m);
    } else {
      OnlyWordsSkip(k, d);
      assert rest[0..] == rest;
    }
  }

  /** ... and neither does taking a token. */
  lemma {:induction false} DoomedToken(k: Splitter, d: seq<Byte>, rest: seq<Byte>, m: nat)
    requires d <= rest && |d| <= m && Doomed(k, rest, m) && Split(k, d, false).1.Some?
    ensures Doomed(k, rest[Split(k, d, false).0..], m)
  {
    PrefixToken(k, d, rest);
    if k.ScanWords? {
      DoomedWord(d, rest, m);
    } else {
      hide Split, NextToken;
      NotBlocked(k, d, rest, m);
    }
  }

  lemma {:induction false} DoomedWord(d: seq<Byte>, rest: seq<Byte>, m: nat)
    requires d <= rest && |d| <= m && Doomed(ScanWords, rest, m) && Split(ScanWords, d, false).1.Some?
    ensures Doomed(ScanWords, rest[Split(ScanWords, d, false).0..], m)
  {
    var adv := Split(ScanWords, d, false).0;
    var n := SkipSpaces(d);
    PrefixToken(ScanWords, d, rest);
    DoomedWhite(d, rest, m);
    WordsAgreeAt(d, rest);
    WordUnit(rest);
    hide SkipSpaces, Split, NextToken, Unit;
    assert d[n..] <= rest[n..];
    NotBlocked(ScanWords, d[n..], rest[n..], m);
    assert rest[n..][Unit(ScanWords, rest[n..])..] == rest[adv..];
  }

  /** The word that a prefix gives starts where the input's white space ends, and is found from
      there too. */
  lemma {:induction false} WordsAgreeAt(d: seq<Byte>, rest: seq<Byte>)
    requires d <= rest && SplitWords(d, false).1.Some?
    ensures SkipSpaces(rest) == SkipSpaces(d)
    ensures Split(ScanWords, d[SkipSpaces(d)..], false) != (0, None)
  {
    var n := SkipSpaces(d);
    assert d[n..] <= rest[n..];
    WordEndAgree(d[n..], rest[n..]);
    SkipFixed(d, rest);
    SkipStops(d);
    hide SkipSpaces, WordEnd, FullRune;
    assert d[n..][0..] == d[n..];
  }

  /** Below the exact limits short tokens are not enough: an input on which every scan fails, or
      for a buffer without room the empty input. */
  lemma {:induction false} ShortFails(k: Splitter, m: nat) returns (rest: seq<Byte>)
    requires !Enough(k, m)
    ensures ShortTokens(k, rest, m) && Doomed(k, rest, m)
  {
    if m == 0 {
      rest := [];
      NothingToDo(k);
    } else if k.ScanRunes? && m == 2 {
      rest := [0xE2, 0x82, 0x41];
      ErrorOfTwo();
    } else if k.ScanRunes? {
      rest := [0xF0, 0x90, 0x80, 0x41];
      ErrorOfThree();
    } else {
      rest := [0xE3, 0x80, 0x80];
      WideSpace(m);
    }
  }

  lemma {:induction false} NothingToDo(k: Splitter)
    ensures ShortTokens(k, [], 0) && Doomed(k, [], 0)
  {
    var none: seq<Byte> := [];
    assert none[..0] == [];
  }

  /** An encoding error one byte long that is recognised by its third byte. */
  lemma {:induction false} ErrorOfTwo()
    ensures ShortTokens(ScanRunes, [0xE2, 0x82, 0x41], 2) && Doomed(ScanRunes, [0xE2, 0x82, 0x41], 2)
  {
    var s: seq<Byte> := [0xE2, 0x82, 0x41];
    assert s[..2] == [0xE2, 0x82];
    assert s[1..] == [0x82, 0x41];
    assert s[2..] == [0x41];
    assert s[1..][1..] == s[2..];
    assert s[2..][1..] == [];
  }

  /** One that is recognised by its fourth byte. */
  lemma {:induction false} ErrorOfThree()
    ensures ShortTokens(ScanRunes, [0xF0, 0x90, 0x80, 0x41], 3) && Doomed(ScanRunes, [0xF0, 0x90, 0x80, 0x41], 3)
  {
    var s: seq<Byte> := [0xF0, 0x90, 0x80, 0x41];
    assert s[..3] == [0xF0, 0x90, 0x80];
    assert s[1..] == [0x90, 0x80, 0x41] && s[1..][1..] == s[2..];
    assert s[2..] == [0x80, 0x41] && s[2..][1..] == s[3..];
    assert s[3..] == [0x41] && s[3..][1..] == [];
  }

  /** White space that is recognised by its third byte, with no word behind it. */
  lemma {:induction false} WideSpace(m: nat)
    requires m == 1 || m == 2
    ensures ShortTokens(ScanWords, [0xE3, 0x80, 0x80], m) && Doomed(ScanWords, [0xE3, 0x80, 0x80], m)
  {
    var s: seq<Byte> := [0xE3, 0x80, 0x80];
    var d := s[..m];
    assert !FullRune(d);
    Incomplete(d, 0);
    IncompleteHasNoEnd(d);
    assert SkipSpaces(d) == 0 && d[0..] == d;
    assert s[3..] == [] && SkipSpaces([]) == 0 && WordEnd([]) == None;
    assert SkipSpaces(s) == 3;
  }

  /** The exact limits: short tokens are roomy for every input iff the limit is one of them, and
      otherwise some input with short tokens is doomed. */
  lemma {:induction false} ExactLimits(k: Splitter, m: nat)
    ensures (forall rest :: ShortTokens(k, rest, m) ==> Roomy(k, rest, m)) <==> Enough(k, m)
    ensures (exists rest :: ShortTokens(k, rest, m) && Doomed(k, rest, m)) <==> !Enough(k, m)
  {
    hide ShortTokens, Roomy, Doomed;
    if Enough(k, m) {
      forall rest | ShortTokens(k, rest, m)
        ensures Roomy(k, rest, m) && !Doomed(k, rest, m)
      {
        ShortIsRoomy(k, rest, m);
        if Doomed(k, rest, m) {
          DoomedNotRoomy(k, rest, m);
        }
      }
    } else {
      var rest := ShortFails(k, m);
      DoomedNotRoomy(k, rest, m);
    }
  }
}
