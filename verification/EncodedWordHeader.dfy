/**
 What DecodeHeader makes of a header that mixes text and encoded-words: the text stays, the words
 are decoded, white space between two of them goes, and a word that does not decode stays as it is.
 */
module EncodedWordHeader {
  import opened Options
  import opened Bytes
  import opened Grammar
  import opened Utf8
  import opened EncodedWord
  import RuneReader

  /** A word of a header, and the text behind it. */
  datatype Item = Item(charset: seq<Byte>, encoding: Byte, text: seq<Byte>, after: seq<Byte>)

  function Written(w: Item): seq<Byte> { WordOf(w.charset, w.encoding, w.text) }

  function Header(ws: seq<Item>): seq<Byte> {
    if ws == [] then [] else Written(ws[0]) + (ws[0].after + Header(ws[1..]))
  }

  predicate Decodes(env: Env, w: Item) { DecodeText(env, w.encoding, w.text).Some? }

  /** The parts are what they look like: no question mark ends one early, and no encoded-word starts
      in the text or, when the word does not decode, in what is left of it. */
  predicate Proper(env: Env, w: Item) {
    && Name(w.charset) && QUESTION !in w.text && NoStart(w.after)
    && (!Decodes(env, w) ==> NoStart(Written(w)[2..] + w.after))
  }

  predicate AllWhite(s: seq<Byte>) { forall i :: 0 <= i < |s| ==> White(s[i]) }

  /** What a word stands for; None when its charset cannot be read. */
  function Content(env: Env, w: Item): Option<seq<Byte>> {
    if Decodes(env, w) then Convert(env, w.charset, DecodeText(env, w.encoding, w.text).value) else Some(Written(w))
  }

  /** The text between two words: white space between two that decode goes. */
  function Between(env: Env, w: Item, rest: seq<Item>): seq<Byte> {
    if Decodes(env, w) && rest != [] && Decodes(env, rest[0]) && AllWhite(w.after) then [] else w.after
  }

  /** The words' contents with the text between them. */
  function Meaning(env: Env, ws: seq<Item>): (r: Option<seq<Byte>>) {
    if ws == [] then Some([])
    else
      var c := Content(env, ws[0]);
      if c.None? then None else Join(c.value + Between(env, ws[0], ws[1..]), Meaning(env, ws[1..]))
  }

  /** The text before the first word, when the loop is at that point. */
  function Ahead(env: Env, gap: seq<Byte>, ws: seq<Item>, between: bool): seq<Byte> {
    if between && ws != [] && Decodes(env, ws[0]) && AllWhite(gap) then [] else gap
  }

  lemma {:induction false} NoneFound(env: Env, s: seq<Byte>, between: bool)
    requires NoStart(s)
    ensures DecodeFrom(env, s, between) == Some(s)
  {
    NoPair(s);
    hide IndexPair;
  }

  lemma {:induction false} NoPair(s: seq<Byte>)
    requires NoStart(s)
    ensures IndexPair(s, EQUALS, QUESTION) == |s|
  {
    if |s| >= 2 {
      NoPair(s[1..]);
    }
  }

  lemma {:induction false} JoinTwice(a: seq<Byte>, b: seq<Byte>, r: Option<seq<Byte>>)
    ensures Join(a, Join(b, r)) == Join(a + b, r)
  {
    if r.Some? {
      Associate(a, b, r.value);
    }
  }

  /** One round of the loop. */
  lemma {:induction false} DecodeStep(env: Env, gap: seq<Byte>, w: Item, tail: seq<Byte>, between: bool)
    requires NoStart(gap) && Proper(env, w)
    ensures DecodeFrom(env, gap + (Written(w) + tail), between) ==
      if !Decodes(env, w) then Join(gap + [EQUALS, QUESTION], DecodeFrom(env, Written(w)[2..] + tail, false))
      else if Content(env, w).None? then None
      else Join(Ahead(env, gap, [w], between) + Content(env, w).value, DecodeFrom(env, tail, true))
  {
    hide Find, DecodeText, Convert, DecodeFrom, Gap, NoStart;
    FindWord(gap, w.charset, w.encoding, w.text, tail);
    StartCut(gap, Written(w), tail);
    hide Written;
    GapIs(gap, Written(w) + tail, between);
    var found := Found(|gap|, |gap| + |Written(w)|, w.charset, w.encoding, w.text);
    FoundStep(env, gap + (Written(w) + tail), between, found);
  }

  lemma {:induction false} FoundStep(env: Env, h: seq<Byte>, between: bool, f: Found)
    requires Find(h) == Some(f)
    ensures var content := DecodeText(env, f.encoding, f.text);
      DecodeFrom(env, h, between) ==
        if content.None? then Join(h[..f.start + 2], DecodeFrom(env, h[f.start + 2..], false))
        else
          var out := Convert(env, f.charset, content.value);
          if out.None? then None else Join(Gap(h, f.start, between) + out.value, DecodeFrom(env, h[f.end..], true))
  {
    hide Find, DecodeText, Convert, Gap;
  }

  lemma {:induction false} GapIs(gap: seq<Byte>, more: seq<Byte>, between: bool)
    ensures Gap(gap + more, |gap|, between) == if between && AllWhite(gap) then [] else gap
  {
    var h := gap + more;
    assert h[..|gap|] == gap && forall i :: 0 <= i < |gap| ==> h[i] == gap[i];
  }

  lemma {:induction false} StartCut(gap: seq<Byte>, word: seq<Byte>, tail: seq<Byte>)
    requires |word| >= 2 && word[0] == EQUALS && word[1] == QUESTION
    ensures var h := gap + (word + tail);
      h[..|gap| + 2] == gap + [EQUALS, QUESTION] && h[|gap| + 2..] == word[2..] + tail && h[|gap| + |word|..] == tail
  {}

  lemma {:induction false} DecodeMixed(env: Env, gap: seq<Byte>, ws: seq<Item>, between: bool)
    requires NoStart(gap) && forall i :: 0 <= i < |ws| ==> Proper(env, ws[i])
    ensures DecodeFrom(env, gap + Header(ws), between) == Join(Ahead(env, gap, ws, between), Meaning(env, ws))
    decreases |ws|
  {
    hide DecodeFrom, NoStart, Proper, AllWhite, Written, Content;
    if ws == [] {
      assert gap + Header(ws) == gap;
      NoneFound(env, gap, between);
      assert gap + [] == gap;
    } else {
      var w, rest := ws[0], ws[1..];
      var tail := w.after + Header(rest);
      DecodeStep(env, gap, w, tail, between);
      ProperParts(env, w);
      if Decodes(env, w) {
        if Content(env, w).Some? {
          DecodeMixed(env, w.after, rest, true);
          var head := Ahead(env, gap, ws, between);
          JoinTwice(head + Content(env, w).value, Between(env, w, rest), Meaning(env, rest));
          JoinTwice(head, Content(env, w).value + Between(env, w, rest), Meaning(env, rest));
          Associate(head, Content(env, w).value, Between(env, w, rest));
        }
      } else {
        var left := Written(w)[2..] + w.after;
        DecodeMixed(env, left, rest, false);
        Associate(Written(w)[2..], w.after, Header(rest));
        JoinTwice(gap + [EQUALS, QUESTION], left, Meaning(env, rest));
        JoinTwice(gap, Written(w) + w.after, Meaning(env, rest));
        assert gap + [EQUALS, QUESTION] + left == gap + (Written(w) + w.after);
      }
    }
  }

  lemma {:induction false} ProperParts(env: Env, w: Item)
    requires Proper(env, w)
    ensures |Written(w)| > 2 && Written(w) == [EQUALS, QUESTION] + Written(w)[2..]
    ensures NoStart(w.after) && (!Decodes(env, w) ==> NoStart(Written(w)[2..] + w.after) && Content(env, w) == Some(Written(w)))
  {
    hide NoStart, Decodes;
  }

  /** DecodeHeader: text stays, words that decode are replaced by their contents, white space between
      two of those is dropped, and a word that does not decode stays. */
  lemma {:induction false} HeaderMeaning(env: Env, before: seq<Byte>, ws: seq<Item>)
    requires NoStart(before) && forall i :: 0 <= i < |ws| ==> Proper(env, ws[i])
    ensures DecodeHeader(env, before + Header(ws)) == Join(before, Meaning(env, ws))
  {
    assert ws == [] ==> Meaning(env, ws) == Some([]);
    hide DecodeFrom, Proper, Meaning;
    if ws == [] {
      NoPair(before);
      assert before + Header(ws) == before == before + [];
    } else {
      HeaderBegins(before, ws);
      hide NoStart, Header;
      DecodeMixed(env, [], ws, false);
      assert [] + Header(ws) == Header(ws);
      JoinTwice(before, [], Meaning(env, ws));
      assert before + [] == before;
      hide IndexPair;
    }
  }

  lemma {:induction false} HeaderBegins(before: seq<Byte>, ws: seq<Item>)
    requires NoStart(before) && ws != []
    ensures NoStart([])
    ensures var h := before + Header(ws);
      IndexPair(h, EQUALS, QUESTION) == |before| < |h| && h[..|before|] == before && h[|before|..] == Header(ws)
  {
    hide IndexPair;
    var h := before + Header(ws);
    assert Header(ws)[0] == EQUALS && Header(ws)[1] == QUESTION;
    assert h[|before|] == EQUALS && h[|before| + 1] == QUESTION;
    assert forall j :: 0 <= j < |before| ==> h[j] == before[j];
    PairAt(h, |before|, EQUALS, QUESTION);
  }

  /** Decoding fails exactly when the charset of a word that decodes cannot be read. */
  lemma {:induction false} MeaningFails(env: Env, ws: seq<Item>)
    ensures Meaning(env, ws).None? <==> exists i :: 0 <= i < |ws| && Content(env, ws[i]).None?
  {
    hide Content, Between;
    if ws != [] {
      MeaningFails(env, ws[1..]);
      assert forall i :: 0 < i < |ws| ==> ws[i] == ws[1..][i - 1];
    }
  }

  // ---- charsets ----

  /** A byte as a rune of US-ASCII. */
  function AsciiRune(b: Byte): nat { if b < RUNE_SELF then b else RUNE_ERROR }

  /** iso-8859-1 content becomes the runes its bytes number. */
  lemma {:induction false} Latin1Runes(s: seq<Byte>)
    ensures RuneReader.Range(Latin1(s)) == seq(|s|, i requires 0 <= i < |s| => s[i])
  {
    if s != [] {
      Latin1Runes(s[1..]);
      hide RuneReader.Range, Latin1;
      Latin1Step(s);
      RangeStep(s[0], Latin1(s[1..]));
    }
  }

  /** us-ascii content likewise, with the replacement character for bytes that are not ASCII. */
  lemma {:induction false} AsciiRunes(s: seq<Byte>)
    ensures RuneReader.Range(Ascii(s)) == seq(|s|, i requires 0 <= i < |s| => AsciiRune(s[i]))
  {
    if s != [] {
      AsciiRunes(s[1..]);
      hide RuneReader.Range, Ascii;
      AsciiStep(s);
      RangeStep(AsciiRune(s[0]), Ascii(s[1..]));
    }
  }

  lemma {:induction false} RangeStep(r: nat, rest: seq<Byte>)
    requires ValidRune(r)
    ensures RuneReader.Range(EncodeRune(r) + rest) == [r] + RuneReader.Range(rest)
  {
    DecodeEncoded(r, rest);
    var s := EncodeRune(r) + rest;
    assert s[|EncodeRune(r)|..] == rest;
    hide EncodeRune, DecodeRune;
  }

  lemma {:induction false} Latin1Step(s: seq<Byte>)
    requires s != []
    ensures Latin1(s) == EncodeRune(s[0]) + Latin1(s[1..])
  {}

  lemma {:induction false} AsciiStep(s: seq<Byte>)
    requires s != []
    ensures Ascii(s) == EncodeRune(AsciiRune(s[0])) + Ascii(s[1..])
  {}
}
