/**
 What the tokens of a Scanner are, said without its split functions: lines undo joining, runes
 are those of a range loop, words are runs without white space.
 */
module TokenLaws {
  import opened Options
  import opened Bytes
  import opened Utf8
  import opened Splitting
  import opened RuneReader

  // ---- lines ----

  /** A line as it stands in the input: its text, and whether a carriage return follows it. */
  datatype Line = Line(text: seq<Byte>, cr: bool)

  /** The carriage return at the end is the one that is stripped. */
  predicate Proper(l: Line) {
    NEWLINE !in l.text && (!l.cr && l.text != [] ==> l.text[|l.text| - 1] != CR)
  }

  /** The bytes of a line before its newline. */
  function Before(l: Line): seq<Byte> { if l.cr then l.text + [CR] else l.text }

  /** Lines with their newlines, then a last one without; none if it is empty. */
  function JoinLines(ls: seq<Line>, last: Line): seq<Byte> {
    if ls == [] then Before(last) else Before(ls[0]) + [NEWLINE] + JoinLines(ls[1..], last)
  }

  function Texts(ls: seq<Line>): (r: seq<seq<Byte>>)
    ensures |r| == |ls|
  {
    if ls == [] then [] else [ls[0].text] + Texts(ls[1..])
  }

  lemma {:induction false} BeforeDropped(l: Line)
    requires Proper(l)
    ensures DropCR(Before(l)) == l.text && NEWLINE !in Before(l)
  {}

  lemma {:induction false} FirstLine(l: Line, rest: seq<Byte>)
    requires Proper(l)
    ensures NextToken(ScanLines, Before(l) + [NEWLINE] + rest) == Some((l.text, |Before(l)| + 1))
  {
    BeforeDropped(l);
    hide DropCR, Proper;
    var t := Before(l);
    var s := t + [NEWLINE] + rest;
    var i := IndexByte(s, NEWLINE);
    assert s[|t|] == NEWLINE;
    assert forall j :: 0 <= j < |t| ==> s[j] == t[j] != NEWLINE;
    assert forall j :: 0 <= j < i ==> s[j] == s[..i][j] != NEWLINE;
    assert s[..|t|] == t;
  }

  lemma {:induction false} LastLine(l: Line)
    requires Proper(l) && Before(l) != []
    ensures NextToken(ScanLines, Before(l)) == Some((l.text, |Before(l)|))
  {
    BeforeDropped(l);
    hide DropCR, Proper;
  }

  /** Scanning lines undoes joining them: carriage returns before the newlines are stripped, and a
      last line without a newline counts unless it is empty. */
  lemma {:induction false} LinesRoundTrip(ls: seq<Line>, last: Line)
    requires (forall i :: 0 <= i < |ls| ==> Proper(ls[i])) && Proper(last)
    ensures Tokens(ScanLines, JoinLines(ls, last)) == Texts(ls) + if Before(last) == [] then [] else [last.text]
  {
    hide NextToken, Proper, Before;
    if ls == [] {
      LastTokens(last);
    } else {
      var rest := JoinLines(ls[1..], last);
      LinesRoundTrip(ls[1..], last);
      FirstLine(ls[0], rest);
      LineBehind(Before(ls[0]), rest);
      TokensStep(Before(ls[0]) + [NEWLINE] + rest);
    }
  }

  lemma {:induction false} LastTokens(last: Line)
    requires Proper(last)
    ensures Tokens(ScanLines, Before(last)) == if Before(last) == [] then [] else [last.text]
  {
    assert Tokens(ScanLines, []) == [];
    if Before(last) != [] {
      LastLine(last);
      hide NextToken;
      TokensStep(Before(last));
      assert Before(last)[|Before(last)|..] == [];
    }
  }

  /** Every input is lines joined, so the round trip says what all tokens are. */
  lemma {:induction false} EveryInputIsLines(s: seq<Byte>) returns (ls: seq<Line>, last: Line)
    ensures (forall i :: 0 <= i < |ls| ==> Proper(ls[i])) && Proper(last)
    ensures JoinLines(ls, last) == s
    decreases |s|
  {
    var i := IndexByte(s, NEWLINE);
    var first := AsLine(s[..i]);
    if i == |s| {
      assert s[..i] == s;
      ls, last := [], first;
    } else {
      var more;
      more, last := EveryInputIsLines(s[i + 1..]);
      ls := [first] + more;
      assert ls[1..] == more;
      assert s == s[..i] + [NEWLINE] + s[i + 1..];
    }
  }

  lemma {:induction false} AsLine(t: seq<Byte>) returns (l: Line)
    requires NEWLINE !in t
    ensures Proper(l) && Before(l) == t
  {
    if t != [] && t[|t| - 1] == CR {
      l := Line(t[..|t| - 1], true);
      assert t == t[..|t| - 1] + [CR];
    } else {
      l := Line(t, false);
    }
  }

  lemma {:induction false} LineBehind(l: seq<Byte>, rest: seq<Byte>)
    ensures (l + [NEWLINE] + rest)[|l| + 1..] == rest
  {}

  lemma {:induction false} TokensStep(s: seq<Byte>)
    requires NextToken(ScanLines, s).Some?
    ensures var t := NextToken(ScanLines, s).value; Tokens(ScanLines, s) == [t.0] + Tokens(ScanLines, s[t.1..])
  {
    hide NextToken;
  }

  // ---- bytes ----

  /** ScanBytes yields every byte. */
  lemma {:induction false} BytesAreTokens(s: seq<Byte>)
    ensures |Tokens(ScanBytes, s)| == |s|
    ensures forall i :: 0 <= i < |s| ==> Tokens(ScanBytes, s)[i] == [s[i]]
  {
    if s != [] {
      assert s[..1] == [s[0]];
      BytesAreTokens(s[1..]);
    }
  }

  // ---- runes ----

  lemma {:induction false} RuneIsValid(s: seq<Byte>)
    ensures ValidRune(DecodeRune(s).0)
  {
    if Multibyte(s) {
      EncodeDecoded(s);
    }
  }

  lemma {:induction false} FirstRune(s: seq<Byte>)
    requires s != []
    ensures ValidRune(DecodeRune(s).0)
    ensures NextToken(ScanRunes, s) == Some((EncodeRune(DecodeRune(s).0), DecodeRune(s).1))
  {
    RuneIsValid(s);
    var (r, w) := DecodeRune(s);
    if s[0] < RUNE_SELF {
      assert s[..1] == [s[0]];
    } else if Multibyte(s) {
      EncodeDecoded(s);
    } else {
      assert EncodeRune(RUNE_ERROR) == ERROR_RUNE;
    }
  }

  /** ScanRunes yields the runes of a range loop, encoded. */
  lemma {:induction false} RunesAreRange(s: seq<Byte>)
    ensures |Tokens(ScanRunes, s)| == |Range(s)|
    ensures forall i :: 0 <= i < |Range(s)| ==> ValidRune(Range(s)[i]) && Tokens(ScanRunes, s)[i] == EncodeRune(Range(s)[i])
    decreases |s|
  {
    if s == [] {
      assert NextToken(ScanRunes, []) == None;
    } else {
      FirstRune(s);
      hide NextToken, EncodeRune, ValidRune;
      var w := DecodeRune(s).1;
      RunesAreRange(s[w..]);
    }
  }

  // ---- words ----

  /** A run of bytes with no white space rune in it. */
  predicate IsWord(t: seq<Byte>) { t != [] && WordEnd(t).None? }

  lemma {:induction false} NoSpaceBefore(s: seq<Byte>)
    requires WordEnd(s).Some?
    ensures WordEnd(s[..WordEnd(s).value.0]).None?
  {
    var e := WordEnd(s).value;
    var p := s[..e.0];
    hide WordEnd;
    if WordEnd(p).Some? {
      WordEndAgree(p, s);
      assert false;
    }
  }

  lemma {:induction false} NextWord(s: seq<Byte>)
    ensures var t := NextToken(ScanWords, s); t.Some? ==> IsWord(t.value.0)
  {
    assert WordEnd([]) == None;
    hide SkipSpaces, WordEnd, IsSpace, DecodeRune;
    var start := SkipSpaces(s);
    var rest := s[start..];
    var e := WordEnd(rest);
    SkipStops(s);
    if e.Some? {
      assert rest != [];
      WordStarts(rest);
      NoSpaceBefore(rest);
      assert s[start..start + e.value.0] == rest[..e.value.0];
    }
  }

  lemma {:induction false} WordStarts(s: seq<Byte>)
    requires s != [] && !IsSpace(DecodeRune(s).0) && WordEnd(s).Some?
    ensures WordEnd(s).value.0 > 0
  {}

  /** ScanWords yields words. */
  lemma {:induction false} TokensAreWords(s: seq<Byte>, i: nat)
    requires i < |Tokens(ScanWords, s)|
    ensures IsWord(Tokens(ScanWords, s)[i])
    decreases |s|
  {
    hide NextToken;
    var t := NextToken(ScanWords, s).value;
    NextWord(s);
    if i > 0 {
      TokensAreWords(s[t.1..], i - 1);
    }
  }

  /** The maximal runs without white space, in one pass: cur is the run so far. */
  function Runs(s: seq<Byte>, cur: seq<Byte>): (rs: seq<seq<Byte>>)
    decreases |s|
  {
    if s == [] then (if cur == [] then [] else [cur])
    else
      var (r, w) := DecodeRune(s);
      if IsSpace(r) then (if cur == [] then [] else [cur]) + Runs(s[w..], [])
      else Runs(s[w..], cur + s[..w])
  }

  function RunOf(t: seq<Byte>): seq<seq<Byte>> { if t == [] then [] else [t] }

  /** A run goes on to the next white space, or to the end. */
  ghost predicate RunsOn(s: seq<Byte>, cur: seq<Byte>) {
    var e := WordEnd(s);
    Runs(s, cur) ==
      if e.None? then RunOf(cur + s)
      else RunOf(cur + s[..e.value.0]) + Runs(s[e.value.0 + e.value.1..], [])
  }

  lemma {:induction false} RunsEnd(s: seq<Byte>, cur: seq<Byte>)
    ensures RunsOn(s, cur)
    decreases |s|
  {
    if s == [] {
      assert cur + s == cur;
    } else {
      var (r, w) := DecodeRune(s);
      if IsSpace(r) {
        assert cur + s[..0] == cur;
      } else {
        RunsEnd(s[w..], cur + s[..w]);
        RunsStep(s, cur);
      }
    }
  }

  lemma {:induction false} RunsStep(s: seq<Byte>, cur: seq<Byte>)
    requires s != [] && !IsSpace(DecodeRune(s).0)
    requires RunsOn(s[DecodeRune(s).1..], cur + s[..DecodeRune(s).1])
    ensures RunsOn(s, cur)
  {
    var w := DecodeRune(s).1;
    var e := WordEnd(s[w..]);
    RunsUnfold(s, cur);
    hide Runs, WordEnd, IsSpace, DecodeRune;
    if e.None? {
      TogetherAgain(s, w, |s|, cur);
    } else {
      TogetherAgain(s, w, w + e.value.0, cur);
      Behind(s, w, e.value.0 + e.value.1);
    }
  }

  lemma {:induction false} RunsUnfold(s: seq<Byte>, cur: seq<Byte>)
    requires s != [] && !IsSpace(DecodeRune(s).0)
    ensures var w := DecodeRune(s).1; var e := WordEnd(s[w..]);
      && Runs(s, cur) == Runs(s[w..], cur + s[..w])
      && WordEnd(s) == if e.None? then None else Some((w + e.value.0, e.value.1))
  {}

  lemma {:induction false} TogetherAgain(s: seq<Byte>, w: nat, n: nat, cur: seq<Byte>)
    requires w <= n <= |s|
    ensures cur + s[..w] + s[w..][..n - w] == cur + s[..n]
    ensures n == |s| ==> cur + s[..w] + s[w..] == cur + s
  {
    assert s[..w] + s[w..][..n - w] == s[..n];
    Associate(cur, s[..w], s[w..][..n - w]);
    assert n == |s| ==> s[w..][..n - w] == s[w..] && s[..n] == s;
  }

  lemma {:induction false} RunsSkip(s: seq<Byte>)
    ensures Runs(s, []) == Runs(s[SkipSpaces(s)..], [])
    decreases |s|
  {
    if s != [] && IsSpace(DecodeRune(s).0) {
      var w := DecodeRune(s).1;
      RunsSkip(s[w..]);
      assert s[w..][SkipSpaces(s[w..])..] == s[SkipSpaces(s)..];
    } else {
      assert s[0..] == s;
    }
  }

  /** One token is one run. */
  lemma {:induction false} NextRun(s: seq<Byte>)
    ensures var t := NextToken(ScanWords, s);
      Runs(s, []) == if t.None? then [] else [t.value.0] + Runs(s[t.value.1..], [])
  {
    NextWord(s);
    hide SkipSpaces, Runs, IsWord;
    var start := SkipSpaces(s);
    var rest := s[start..];
    RunsSkip(s);
    RunsEnd(rest, []);
    var e := WordEnd(rest);
    hide WordEnd;
    if e.Some? {
      var i, n := e.value.0, start + e.value.0 + e.value.1;
      assert NextToken(ScanWords, s) == Some((s[start..start + i], n));
      hide NextToken;
      assert [] + rest[..i] == s[start..start + i];
      assert rest[e.value.0 + e.value.1..] == s[n..];
      WordIsRun(s[start..start + i]);
    } else {
      assert NextToken(ScanWords, s) == if start < |s| then Some((rest, |s|)) else None;
      hide NextToken;
      assert [] + rest == rest && s[|s|..] == [];
      RunsNothing();
    }
  }

  lemma {:induction false} WordIsRun(t: seq<Byte>)
    requires IsWord(t)
    ensures RunOf(t) == [t]
  {}

  lemma {:induction false} RunsNothing()
    ensures Runs([], []) == []
  {}

  /** ScanWords yields exactly the maximal runs without white space, in order. */
  lemma {:induction false} TokensAreRuns(s: seq<Byte>)
    ensures Tokens(ScanWords, s) == Runs(s, [])
    decreases |s|
  {
    hide NextToken, Runs;
    NextRun(s);
    var t := NextToken(ScanWords, s);
    if t.Some? {
      TokensAreRuns(s[t.value.1..]);
    }
  }
}
