/**
 The Q encoding of mime/encodedword.go: what WordEncoder.Encode writes for a UTF-8 charset,
 what WordDecoder.DecodeHeader reads, and the law that reading undoes writing.
 */
module EncodedWord {
  import opened Options
  import opened Bytes
  import opened Utf8
  import opened Splitting
  import opened Grammar

  const MAX_WORD: nat := 75
  const MAX_CONTENT: nat := 63
  const LOWER_Q: Byte := 0x71
  const UPPER_Q: Byte := 0x51
  const LOWER_B: Byte := 0x62
  const UPPER_B: Byte := 0x42
  const LATIN_1: seq<Byte> := [0x69, 0x73, 0x6F, 0x2D, 0x38, 0x38, 0x35, 0x39, 0x2D, 0x31]

  /** strings.EqualFold against a name in lower case. */
  predicate Folds(name: seq<Byte>, charset: seq<Byte>) { Lower(charset) == name }

  // ---- encoding ----

  /** A byte that stands for itself. */
  predicate Literal(b: Byte) { 0x21 <= b <= 0x7E && b != EQUALS && b != QUESTION && b != UNDERSCORE }

  function QByte(b: Byte): seq<Byte> {
    if b == SPACE then [UNDERSCORE]
    else if Literal(b) then [b]
    else [EQUALS, UpperHex(b / 16), UpperHex(b % 16)]
  }

  /** writeQString. */
  function QText(s: seq<Byte>): (r: seq<Byte>) {
    if s == [] then [] else QByte(s[0]) + QText(s[1..])
  }

  function Open(charset: seq<Byte>): seq<Byte> { [EQUALS, QUESTION] + charset + [QUESTION, LOWER_Q, QUESTION] }

  const CLOSE: seq<Byte> := [QUESTION, EQUALS]

  /** The runes of s, each as the bytes it takes up; an encoding error is one byte. */
  function Units(s: seq<Byte>): (us: seq<seq<Byte>>)
    decreases |s|
  {
    if s == [] then []
    else
      var w := DecodeRune(s).1;
      [s[..w]] + Units(s[w..])
  }

  /** qEncode from a point where the current word already holds cur bytes of content. */
  function QEncode(us: seq<seq<Byte>>, cur: nat, charset: seq<Byte>): (r: seq<Byte>) {
    if us == [] then []
    else
      var q := QText(us[0]);
      if cur + |q| > MAX_CONTENT then
        CLOSE + [SPACE] + Open(charset) + (q + QEncode(us[1..], |q|, charset))
      else q + QEncode(us[1..], cur + |q|, charset)
  }

  function EncodeWord(charset: seq<Byte>, s: seq<Byte>): seq<Byte> {
    Open(charset) + (if Folds(UTF_8, charset) then QEncode(Units(s), 0, charset) else QText(s)) + CLOSE
  }

  /** QEncoding.Encode. */
  function Encode(charset: seq<Byte>, s: seq<Byte>): seq<Byte> {
    if NeedsEncoding(s) then EncodeWord(charset, s) else s
  }

  // ---- decoding ----

  /** qDecode. */
  function QDecode(s: seq<Byte>): (r: Option<seq<Byte>>) {
    if s == [] then Some([])
    else if s[0] == EQUALS then
      if |s| < 3 || !IsHex(s[1]) || !IsHex(s[2]) then None
      else Prepend(HexByte(s[1], s[2]), QDecode(s[3..]))
    else if s[0] == UNDERSCORE then Prepend(SPACE, QDecode(s[1..]))
    else if 0x20 <= s[0] <= 0x7E || s[0] == NEWLINE || s[0] == CR || s[0] == TAB then Prepend(s[0], QDecode(s[1..]))
    else None
  }

  function Prepend(b: Byte, r: Option<seq<Byte>>): Option<seq<Byte>> {
    if r.None? then None else Some([b] + r.value)
  }

  /** strings.Index for a substring of two bytes; |s| if there is none. */
  function IndexPair(s: seq<Byte>, a: Byte, b: Byte): (i: nat)
    ensures i <= |s| && (i < |s| ==> i + 1 < |s| && s[i] == a && s[i + 1] == b)
  {
    if |s| < 2 then |s|
    else if s[0] == a && s[1] == b then 0
    else 1 + IndexPair(s[1..], a, b)
  }

  predicate White(b: Byte) { b == SPACE || b == TAB || b == NEWLINE || b == CR }

  /** What lies outside the package: base64 and the caller's charset reader. */
  datatype Env = Env(
    base64: seq<Byte> -> Option<seq<Byte>>,
    charsetReader: (seq<Byte>, seq<Byte>) -> Option<seq<Byte>>)

  function DecodeText(env: Env, encoding: Byte, text: seq<Byte>): Option<seq<Byte>> {
    if encoding == UPPER_B || encoding == LOWER_B then env.base64(text)
    else if encoding == UPPER_Q || encoding == LOWER_Q then QDecode(text)
    else None
  }

  function Latin1(s: seq<Byte>): seq<Byte> {
    if s == [] then [] else EncodeRune(s[0]) + Latin1(s[1..])
  }

  function Ascii(s: seq<Byte>): seq<Byte> {
    if s == [] then [] else (if s[0] >= RUNE_SELF then ERROR_RUNE else [s[0]]) + Ascii(s[1..])
  }

  function Convert(env: Env, charset: seq<Byte>, content: seq<Byte>): Option<seq<Byte>> {
    if Folds(UTF_8, charset) then Some(content)
    else if Folds(LATIN_1, charset) then Some(Latin1(content))
    else if Folds(US_ASCII, charset) then Some(Ascii(content))
    else env.charsetReader(Lower(charset), content)
  }

  /** An encoded-word found in a header: where it starts and ends, and its parts. */
  datatype Found = Found(start: nat, end: nat, charset: seq<Byte>, encoding: Byte, text: seq<Byte>)

  /** The next thing in the header that looks like an encoded-word. */
  function Find(h: seq<Byte>): (r: Option<Found>)
    ensures r.Some? ==> r.value.start + 2 <= r.value.end <= |h|
  {
    var start := IndexPair(h, EQUALS, QUESTION);
    if start == |h| then None
    else
      var a := start + 2;
      var i := IndexByte(h[a..], QUESTION);
      if i == |h| - a then None
      else
        var b := a + i + 1;
        if |h| < b + 4 || h[b + 1] != QUESTION then None
        else
          var c := b + 2;
          var j := IndexPair(h[c..], QUESTION, EQUALS);
          if j == |h| - c then None
          else Some(Found(start, c + j + 2, h[a..a + i], h[b], h[c..c + j]))
  }

  /** White space between two encoded-words is dropped. */
  function Gap(h: seq<Byte>, start: nat, between: bool): seq<Byte>
    requires start <= |h|
  {
    if !between || exists i :: 0 <= i < start && !White(h[i]) then h[..start] else []
  }

  /** The loop of DecodeHeader. */
  function DecodeFrom(env: Env, h: seq<Byte>, between: bool): (r: Option<seq<Byte>>)
    decreases |h|
  {
    var f := Find(h);
    if f.None? then Some(h)
    else
      var w := f.value;
      var content := DecodeText(env, w.encoding, w.text);
      if content.None? then Join(h[..w.start + 2], DecodeFrom(env, h[w.start + 2..], false))
      else
        var out := Convert(env, w.charset, content.value);
        if out.None? then None
        else Join(Gap(h, w.start, between) + out.value, DecodeFrom(env, h[w.end..], true))
  }

  function Join(a: seq<Byte>, r: Option<seq<Byte>>): Option<seq<Byte>> {
    if r.None? then None else Some(a + r.value)
  }

  /** DecodeHeader; None when the charset reader fails. */
  function DecodeHeader(env: Env, h: seq<Byte>): (r: Option<seq<Byte>>) {
    var i := IndexPair(h, EQUALS, QUESTION);
    if i == |h| then Some(h) else Join(h[..i], DecodeFrom(env, h[i..], false))
  }

  // ---- one word ----

  lemma {:induction false} QRoundTrip(s: seq<Byte>)
    ensures QDecode(QText(s)) == Some(s)
    ensures QUESTION !in QText(s)
  {
    if s != [] {
      var q, rest := QByte(s[0]), QText(s[1..]);
      QRoundTrip(s[1..]);
      QByteRead(s[0], rest);
      assert [s[0]] + s[1..] == s;
    }
  }

  lemma {:induction false} QByteRead(b: Byte, rest: seq<Byte>)
    ensures QDecode(QByte(b) + rest) == Prepend(b, QDecode(rest))
    ensures QUESTION !in QByte(b) && 1 <= |QByte(b)| <= 3
  {
    HexRoundTrip(b);
    var s := QByte(b) + rest;
    assert s[|QByte(b)|..] == rest;
  }

  function Word(charset: seq<Byte>, s: seq<Byte>): seq<Byte> { Open(charset) + QText(s) + CLOSE }

  lemma {:induction false} PairAt(s: seq<Byte>, i: nat, a: Byte, b: Byte)
    requires i + 1 < |s| && s[i] == a && s[i + 1] == b
    requires forall j :: 0 <= j < i ==> s[j] != a || s[j + 1] != b
    ensures IndexPair(s, a, b) == i
  {
    if i > 0 {
      PairAt(s[1..], i - 1, a, b);
    }
  }

  lemma {:induction false} ByteAt(s: seq<Byte>, i: nat, c: Byte)
    requires i < |s| && s[i] == c && forall j :: 0 <= j < i ==> s[j] != c
    ensures IndexByte(s, c) == i
  {
    if i > 0 {
      ByteAt(s[1..], i - 1, c);
    }
  }

  /** A charset name an encoded-word can hold. */
  predicate Name(charset: seq<Byte>) { QUESTION !in charset }

  /** The header h holds a word at start, with a charset of n bytes and a text of m. */
  predicate HoldsWord(h: seq<Byte>, start: nat, n: nat, m: nat) {
    && start + n + m + 7 <= |h|
    && h[start] == EQUALS && h[start + 1] == QUESTION
    && (forall j :: 0 <= j < start ==> h[j] != EQUALS || h[j + 1] != QUESTION)
    && (forall j :: start + 2 <= j < start + 2 + n ==> h[j] != QUESTION)
    && h[start + 2 + n] == QUESTION && h[start + 4 + n] == QUESTION
    && (forall j :: start + 5 + n <= j < start + 5 + n + m ==> h[j] != QUESTION)
    && h[start + 5 + n + m] == QUESTION && h[start + 6 + n + m] == EQUALS
  }

  lemma {:induction false} FindAt(h: seq<Byte>, start: nat, n: nat, m: nat)
    requires HoldsWord(h, start, n, m)
    ensures var a, c := start + 2, start + 5 + n;
      Find(h) == Some(Found(start, c + m + 2, h[a..a + n], h[start + 3 + n], h[c..c + m]))
  {
    hide IndexPair, IndexByte, HoldsWord;
    WordStart(h, start, n, m);
    CharsetEnd(h, start, n, m);
    TextEnd(h, start, n, m);
    PartsInside(h, start, n, m);
  }

  lemma {:induction false} WordStart(h: seq<Byte>, start: nat, n: nat, m: nat)
    requires HoldsWord(h, start, n, m)
    ensures IndexPair(h, EQUALS, QUESTION) == start
  {
    hide IndexPair;
    PairAt(h, start, EQUALS, QUESTION);
  }

  lemma {:induction false} PartsInside(h: seq<Byte>, start: nat, n: nat, m: nat)
    requires HoldsWord(h, start, n, m)
    ensures start + n + m + 7 <= |h| && h[start + 4 + n] == QUESTION
  {}

  lemma {:induction false} CharsetEnd(h: seq<Byte>, start: nat, n: nat, m: nat)
    requires HoldsWord(h, start, n, m)
    ensures start + 2 <= |h| && IndexByte(h[start + 2..], QUESTION) == n
  {
    hide IndexByte;
    ByteAt(h[start + 2..], n, QUESTION);
  }

  lemma {:induction false} TextEnd(h: seq<Byte>, start: nat, n: nat, m: nat)
    requires HoldsWord(h, start, n, m)
    ensures start + 5 + n <= |h| && IndexPair(h[start + 5 + n..], QUESTION, EQUALS) == m
  {
    hide IndexPair;
    PairAt(h[start + 5 + n..], m, QUESTION, EQUALS);
  }

  /** No encoded-word starts in s. */
  predicate NoStart(s: seq<Byte>) { forall j :: 0 <= j < |s| - 1 ==> s[j] != EQUALS || s[j + 1] != QUESTION }

  /** What looks like an encoded-word, whatever the encoding and the text. */
  function WordOf(charset: seq<Byte>, encoding: Byte, text: seq<Byte>): seq<Byte> {
    [EQUALS, QUESTION] + charset + [QUESTION, encoding, QUESTION] + text + CLOSE
  }

  lemma {:induction false} NoStartBefore(h: seq<Byte>, gap: seq<Byte>)
    requires gap < h && NoStart(gap) && h[|gap|] == EQUALS
    ensures forall j :: 0 <= j < |gap| ==> h[j] != EQUALS || h[j + 1] != QUESTION
  {
    assert forall j :: 0 <= j < |gap| ==> h[j] == gap[j];
  }

  /** A word is found where it stands, and taken apart into what it was made of. */
  lemma {:induction false} FindWord(gap: seq<Byte>, charset: seq<Byte>, encoding: Byte, text: seq<Byte>, tail: seq<Byte>)
    requires Name(charset) && QUESTION !in text && NoStart(gap)
    ensures var w := WordOf(charset, encoding, text);
      Find(gap + (w + tail)) == Some(Found(|gap|, |gap| + |w|, charset, encoding, text))
  {
    hide Find;
    var h := gap + (WordOf(charset, encoding, text) + tail);
    var start, n, m := |gap|, |charset|, |text|;
    var a, c := start + 2, start + 5 + n;
    assert h[a..a + n] == charset;
    assert h[c..c + m] == text;
    NoStartBefore(h, gap);
    assert forall j :: a <= j < a + n ==> h[j] == charset[j - a];
    assert forall j :: c <= j < c + m ==> h[j] == text[j - c];
    hide NoStart;
    FindAt(h, start, n, m);
  }

  // ---- the words of an encoding ----

  function Flat(us: seq<seq<Byte>>): seq<Byte> {
    if us == [] then [] else us[0] + Flat(us[1..])
  }

  /** The runes of each word, the first of which already holds cur bytes of content. */
  function Pack(us: seq<seq<Byte>>, cur: nat): (gs: seq<seq<seq<Byte>>>)
    ensures gs != []
  {
    if us == [] then [[]]
    else
      var n := |QText(us[0])|;
      if cur + n > MAX_CONTENT then [[]] + AddFirst(us[0], Pack(us[1..], n))
      else AddFirst(us[0], Pack(us[1..], cur + n))
  }

  function AddFirst(u: seq<Byte>, gs: seq<seq<seq<Byte>>>): (r: seq<seq<seq<Byte>>>)
    requires gs != []
    ensures r != [] && r[0] == [u] + gs[0] && r[1..] == gs[1..]
  {
    [[u] + gs[0]] + gs[1..]
  }

  function Ungroup(gs: seq<seq<seq<Byte>>>): seq<seq<Byte>> {
    if gs == [] then [] else gs[0] + Ungroup(gs[1..])
  }

  /** The text of several words, from the content of the first on. */
  function Onward(charset: seq<Byte>, gs: seq<seq<seq<Byte>>>): seq<Byte>
    requires gs != []
    decreases |gs|, 0
  {
    QText(Flat(gs[0])) + Ending(charset, gs[1..])
  }

  function Ending(charset: seq<Byte>, gs: seq<seq<seq<Byte>>>): seq<Byte>
    decreases |gs|, 2
  {
    CLOSE + (if gs == [] then [] else [SPACE] + WordsText(charset, gs))
  }

  /** Encoded-words with a space between them. */
  function WordsText(charset: seq<Byte>, gs: seq<seq<seq<Byte>>>): seq<Byte>
    requires gs != []
    decreases |gs|, 1
  {
    Open(charset) + Onward(charset, gs)
  }

  lemma {:induction false} QTextCat(a: seq<Byte>, b: seq<Byte>)
    ensures QText(a + b) == QText(a) + QText(b)
  {
    assert QText([]) == [];
    hide QByte, QText;
    if a == [] {
      assert a + b == b;
    } else {
      QTextCat(a[1..], b);
      TailOf(a, b);
      QTextStep(a + b);
      QTextStep(a);
      Associate(QByte(a[0]), QText(a[1..]), QText(b));
    }
  }

  lemma {:induction false} TailOf(a: seq<Byte>, b: seq<Byte>)
    requires a != []
    ensures (a + b)[0] == a[0] && (a + b)[1..] == a[1..] + b
  {}

  lemma {:induction false} QTextStep(s: seq<Byte>)
    requires s != []
    ensures QText(s) == QByte(s[0]) + QText(s[1..])
  {}

  lemma {:induction false} OnwardAdd(charset: seq<Byte>, u: seq<Byte>, gs: seq<seq<seq<Byte>>>)
    requires gs != []
    ensures Onward(charset, AddFirst(u, gs)) == QText(u) + Onward(charset, gs)
  {
    hide QText, Ending;
    QTextCat(u, Flat(gs[0]));
    assert ([u] + gs[0])[1..] == gs[0];
    assert Flat([u] + gs[0]) == u + Flat(gs[0]);
  }

  /** qEncode writes the words of Pack. */
  lemma {:induction false} QEncodeIsWords(us: seq<seq<Byte>>, cur: nat, charset: seq<Byte>)
    ensures QEncode(us, cur, charset) + CLOSE == Onward(charset, Pack(us, cur))
  {
    hide QText, Open, Onward, AddFirst, Pack, QEncode;
    if us == [] {
      NothingEncoded(cur, charset);
    } else {
      PackStep(us, cur);
      QEncodeUnfold(us, cur, charset);
      var u, q := us[0], QText(us[0]);
      if cur + |q| > MAX_CONTENT {
        var gs := Pack(us[1..], |q|);
        QEncodeIsWords(us[1..], |q|, charset);
        SplitIsWords(charset, u, gs, QEncode(us[1..], |q|, charset));
      } else {
        QEncodeIsWords(us[1..], cur + |q|, charset);
        FitIsWords(charset, u, Pack(us[1..], cur + |q|), QEncode(us[1..], cur + |q|, charset));
      }
    }
  }

  lemma {:induction false} NothingEncoded(cur: nat, charset: seq<Byte>)
    ensures QEncode([], cur, charset) + CLOSE == Onward(charset, Pack([], cur))
  {
    assert QText(Flat([])) == [];
    hide QText, Open;
  }

  lemma {:induction false} QEncodeUnfold(us: seq<seq<Byte>>, cur: nat, charset: seq<Byte>)
    requires us != []
    ensures var q := QText(us[0]);
      QEncode(us, cur, charset) ==
        if cur + |q| > MAX_CONTENT then CLOSE + [SPACE] + Open(charset) + (q + QEncode(us[1..], |q|, charset))
        else q + QEncode(us[1..], cur + |q|, charset)
  {
    hide QText, Open;
  }

  lemma {:induction false} FitIsWords(charset: seq<Byte>, u: seq<Byte>, gs: seq<seq<seq<Byte>>>, more: seq<Byte>)
    requires gs != [] && more + CLOSE == Onward(charset, gs)
    ensures QText(u) + more + CLOSE == Onward(charset, AddFirst(u, gs))
  {
    hide QText, Onward, AddFirst;
    OnwardAdd(charset, u, gs);
    assert QText(u) + (more + CLOSE) == QText(u) + more + CLOSE;
  }

  /** splitWord closes one word and opens the next. */
  lemma {:induction false} SplitIsWords(charset: seq<Byte>, u: seq<Byte>, gs: seq<seq<seq<Byte>>>, more: seq<Byte>)
    requires gs != [] && more + CLOSE == Onward(charset, gs)
    ensures CLOSE + [SPACE] + Open(charset) + (QText(u) + more) + CLOSE == Onward(charset, [[]] + AddFirst(u, gs))
  {
    OnwardAdd(charset, u, gs);
    assert QText(Flat([])) == [];
    hide QText, Open, Flat;
    var next := AddFirst(u, gs);
    var all := [[]] + next;
    assert all[0] == [] && all[1..] == next;
    hide AddFirst;
    assert Onward(charset, all) == [] + Ending(charset, next);
    assert WordsText(charset, next) == Open(charset) + Onward(charset, next);
    hide Onward, WordsText;
    assert Ending(charset, next) == CLOSE + ([SPACE] + WordsText(charset, next));
    hide Ending;
    assert QText(u) + (more + CLOSE) == QText(u) + more + CLOSE;
  }

  /** No rune is split across words. */
  lemma {:induction false} PackKeepsRunes(us: seq<seq<Byte>>, cur: nat)
    ensures Ungroup(Pack(us, cur)) == us
  {
    hide QText, AddFirst, Ungroup, Pack;
    if us == [] {
      PackEmpty(cur);
    } else {
      var n := |QText(us[0])|;
      var at := if cur + n > MAX_CONTENT then n else cur + n;
      PackKeepsRunes(us[1..], at);
      PackStep(us, cur);
      UngroupAdd(us[0], Pack(us[1..], at));
      UngroupNew(AddFirst(us[0], Pack(us[1..], at)));
      assert [us[0]] + us[1..] == us;
    }
  }

  lemma {:induction false} PackEmpty(cur: nat)
    ensures Ungroup(Pack([], cur)) == []
  {
    UngroupNew([]);
  }

  lemma {:induction false} UngroupNew(gs: seq<seq<seq<Byte>>>)
    ensures Ungroup([[]] + gs) == Ungroup(gs) && Ungroup([[]]) == []
  {
    assert ([[]] + gs)[1..] == gs;
  }

  lemma {:induction false} UngroupAdd(u: seq<Byte>, gs: seq<seq<seq<Byte>>>)
    requires gs != []
    ensures Ungroup(AddFirst(u, gs)) == [u] + Ungroup(gs)
  {}

  /** Every word's content fits. */
  predicate AllFit(gs: seq<seq<seq<Byte>>>) {
    forall i :: 0 <= i < |gs| ==> |QText(Flat(gs[i]))| <= MAX_CONTENT
  }

  lemma {:induction false} AllFitAdd(u: seq<Byte>, gs: seq<seq<seq<Byte>>>)
    requires gs != [] && AllFit(gs) && |QText(u)| + |QText(Flat(gs[0]))| <= MAX_CONTENT
    ensures AllFit(AddFirst(u, gs))
  {
    FlatAdd(u, gs[0]);
    hide QText, Flat;
    var next := AddFirst(u, gs);
    assert forall i :: 0 < i < |next| ==> next[i] == gs[i];
  }

  lemma {:induction false} AllFitNew(gs: seq<seq<seq<Byte>>>)
    requires AllFit(gs)
    ensures AllFit([[]] + gs) && QText(Flat([])) == []
  {
    assert QText(Flat([])) == [];
    hide QText, Flat;
    assert forall i :: 0 < i < |gs| + 1 ==> ([[]] + gs)[i] == gs[i - 1];
  }

  lemma {:induction false} PackFits(us: seq<seq<Byte>>, cur: nat)
    requires cur <= MAX_CONTENT && forall i :: 0 <= i < |us| ==> |QText(us[i])| <= MAX_CONTENT
    ensures AllFit(Pack(us, cur)) && cur + |QText(Flat(Pack(us, cur)[0]))| <= MAX_CONTENT
  {
    hide QText, Flat, AllFit, AddFirst, Pack;
    if us == [] {
      PackNone(cur);
    } else {
      var n := |QText(us[0])|;
      var at := if cur + n > MAX_CONTENT then n else cur + n;
      var gs := Pack(us[1..], at);
      PackFits(us[1..], at);
      PackStep(us, cur);
      FlatAdd(us[0], gs[0]);
      AllFitAdd(us[0], gs);
      AllFitNew(AddFirst(us[0], gs));
    }
  }

  lemma {:induction false} PackNone(cur: nat)
    ensures AllFit(Pack([], cur)) && QText(Flat(Pack([], cur)[0])) == []
  {
    assert QText(Flat([])) == [];
  }

  lemma {:induction false} PackStep(us: seq<seq<Byte>>, cur: nat)
    requires us != []
    ensures var n := |QText(us[0])|;
      Pack(us, cur) ==
        if cur + n > MAX_CONTENT then [[]] + AddFirst(us[0], Pack(us[1..], n))
        else AddFirst(us[0], Pack(us[1..], cur + n))
  {
    hide QText, AddFirst;
  }

  lemma {:induction false} FlatAdd(u: seq<Byte>, g: seq<seq<Byte>>)
    ensures |QText(Flat([u] + g))| == |QText(u)| + |QText(Flat(g))|
  {
    assert ([u] + g)[1..] == g;
    QTextCat(u, Flat(g));
  }

  lemma {:induction false} UnitsShort(s: seq<Byte>)
    ensures Flat(Units(s)) == s
    ensures forall i :: 0 <= i < |Units(s)| ==> 1 <= |Units(s)[i]| <= 4
    decreases |s|
  {
    if s != [] {
      var w := DecodeRune(s).1;
      UnitsShort(s[w..]);
      assert s[..w] + s[w..] == s;
      assert Units(s)[1..] == Units(s[w..]);
    }
  }

  lemma {:induction false} QTextLength(s: seq<Byte>)
    ensures |QText(s)| <= 3 * |s|
  {
    if s != [] {
      QTextLength(s[1..]);
    }
  }

  /** What Encode writes for UTF-8: words of at most 75 bytes, together holding the runes of s,
      none of them split. */
  lemma {:induction false} EncodedWords(charset: seq<Byte>, s: seq<Byte>)
    requires NeedsEncoding(s) && Folds(UTF_8, charset)
    ensures var gs := Pack(Units(s), 0);
      && Encode(charset, s) == WordsText(charset, gs)
      && Ungroup(gs) == Units(s) && Flat(Units(s)) == s
      && forall i :: 0 <= i < |gs| ==> |Word(charset, Flat(gs[i]))| <= MAX_WORD
  {
    hide NeedsEncoding, QText, Pack, Units, QEncode, Onward, Ungroup, Flat, Word, AllFit, Folds, Open;
    var us := Units(s);
    UnitsShort(s);
    PackKeepsRunes(us, 0);
    UnitsFit(s);
    PackFits(us, 0);
    WordsLength(charset, Pack(us, 0));
    QEncodeIsWords(us, 0, charset);
    Associate(Open(charset), QEncode(us, 0, charset), CLOSE);
  }

  lemma {:induction false} UnitsFit(s: seq<Byte>)
    ensures forall i :: 0 <= i < |Units(s)| ==> |QText(Units(s)[i])| <= MAX_CONTENT
  {
    hide Units, QText, Flat;
    UnitsShort(s);
    forall i | 0 <= i < |Units(s)|
      ensures |QText(Units(s)[i])| <= MAX_CONTENT
    {
      QTextLength(Units(s)[i]);
    }
  }

  lemma {:induction false} WordsLength(charset: seq<Byte>, gs: seq<seq<seq<Byte>>>)
    requires AllFit(gs) && Folds(UTF_8, charset)
    ensures forall i :: 0 <= i < |gs| ==> |Word(charset, Flat(gs[i]))| <= MAX_WORD
  {
    assert |charset| == |Lower(charset)| == 5;
    hide QText, Flat, Folds;
  }

  // ---- decoding undoes encoding ----

  function FlatAll(gs: seq<seq<seq<Byte>>>): seq<Byte> {
    if gs == [] then [] else Flat(gs[0]) + FlatAll(gs[1..])
  }

  lemma {:induction false} FlatCat(a: seq<seq<Byte>>, b: seq<seq<Byte>>)
    ensures Flat(a + b) == Flat(a) + Flat(b)
  {
    if a == [] {
      assert a + b == b;
    } else {
      FlatCat(a[1..], b);
      assert (a + b)[0] == a[0] && (a + b)[1..] == a[1..] + b;
      Associate(a[0], Flat(a[1..]), Flat(b));
    }
  }

  lemma {:induction false} FlatUngroup(gs: seq<seq<seq<Byte>>>)
    ensures Flat(Ungroup(gs)) == FlatAll(gs)
  {
    if gs != [] {
      FlatUngroup(gs[1..]);
      FlatCat(gs[0], Ungroup(gs[1..]));
    }
  }

  /** One word is decoded, whatever follows it. */
  lemma {:induction false} WordDecodes(env: Env, charset: seq<Byte>, s: seq<Byte>, tail: seq<Byte>, gap: seq<Byte>, between: bool)
    requires Folds(UTF_8, charset) && (gap == [] || (between && gap == [SPACE]))
    ensures DecodeFrom(env, gap + (Word(charset, s) + tail), between) == Join(s, DecodeFrom(env, tail, true))
  {
    hide Find, QText, QDecode, Word, Folds, DecodeFrom, Gap, DecodeText, Convert;
    var h := gap + (Word(charset, s) + tail);
    var n := |gap| + |Word(charset, s)|;
    NameOk(charset);
    WordIs(charset, s);
    FindWord(gap, charset, LOWER_Q, QText(s), tail);
    WordContent(env, charset, s);
    DecodeOne(env, h, between, Found(|gap|, n, charset, LOWER_Q, QText(s)), s);
    GapDropped(h, gap, Word(charset, s) + tail, between);
    assert h[n..] == tail;
    assert [] + s == s;
  }

  lemma {:induction false} WordIs(charset: seq<Byte>, s: seq<Byte>)
    ensures Word(charset, s) == WordOf(charset, LOWER_Q, QText(s)) && QUESTION !in QText(s)
  {
    QRoundTrip(s);
    hide QText, QDecode;
  }

  lemma {:induction false} WordContent(env: Env, charset: seq<Byte>, s: seq<Byte>)
    requires Folds(UTF_8, charset)
    ensures DecodeText(env, LOWER_Q, QText(s)) == Some(s) && Convert(env, charset, s) == Some(s)
  {
    QRoundTrip(s);
  }

  lemma {:induction false} GapDropped(h: seq<Byte>, gap: seq<Byte>, more: seq<Byte>, between: bool)
    requires h == gap + more && (gap == [] || (between && gap == [SPACE]))
    ensures Gap(h, |gap|, between) == []
  {}

  /** One round of the loop, for a word that decodes. */
  lemma {:induction false} DecodeOne(env: Env, h: seq<Byte>, between: bool, w: Found, content: seq<Byte>)
    requires Find(h) == Some(w) && DecodeText(env, w.encoding, w.text) == Some(content)
    requires Convert(env, w.charset, content) == Some(content)
    ensures DecodeFrom(env, h, between) == Join(Gap(h, w.start, between) + content, DecodeFrom(env, h[w.end..], true))
  {
    hide Find, DecodeText, Convert, Gap;
  }

  lemma {:induction false} NameOk(charset: seq<Byte>)
    requires Folds(UTF_8, charset)
    ensures Name(charset)
  {
    assert |charset| == |Lower(charset)|;
    assert forall i :: 0 <= i < |charset| ==> LowerByte(charset[i]) == UTF_8[i];
  }

  lemma {:induction false} WordsDecode(env: Env, charset: seq<Byte>, gs: seq<seq<seq<Byte>>>, gap: seq<Byte>, between: bool)
    requires gs != [] && Folds(UTF_8, charset) && (gap == [] || (between && gap == [SPACE]))
    ensures DecodeFrom(env, gap + WordsText(charset, gs), between) == Some(FlatAll(gs))
    decreases |gs|
  {
    var s := Flat(gs[0]);
    var tail := if |gs| == 1 then [] else [SPACE] + WordsText(charset, gs[1..]);
    WordsApart(charset, gs, tail);
    WordDecodes(env, charset, s, tail, gap, between);
    hide Word, Flat, Folds;
    if |gs| == 1 {
      NothingLeft(env);
      assert FlatAll(gs) == s + [];
    } else {
      hide WordsText;
      WordsDecode(env, charset, gs[1..], [SPACE], true);
    }
  }

  lemma {:induction false} NothingLeft(env: Env)
    ensures DecodeFrom(env, [], true) == Some([]) && FlatAll([]) == []
  {}

  lemma {:induction false} WordsApart(charset: seq<Byte>, gs: seq<seq<seq<Byte>>>, tail: seq<Byte>)
    requires gs != [] && tail == if |gs| == 1 then [] else [SPACE] + WordsText(charset, gs[1..])
    ensures WordsText(charset, gs) == Word(charset, Flat(gs[0])) + tail
  {
    hide QText, Flat, Open;
    var q := QText(Flat(gs[0]));
    assert WordsText(charset, gs) == Open(charset) + (q + Ending(charset, gs[1..]));
    assert |gs| == 1 ==> gs[1..] == [];
    hide Onward, WordsText;
    assert Ending(charset, gs[1..]) == CLOSE + tail;
  }

  /** DecodeHeader gives back every string that Encode had to encode. */
  lemma {:induction false} RoundTrip(env: Env, charset: seq<Byte>, s: seq<Byte>)
    requires NeedsEncoding(s) && Folds(UTF_8, charset)
    ensures DecodeHeader(env, Encode(charset, s)) == Some(s)
  {
    hide DecodeFrom, Encode, Pack, Units, Flat, FlatAll, IndexPair, Ungroup, NeedsEncoding, WordsText;
    var gs := Pack(Units(s), 0);
    EncodedWords(charset, s);
    WordsDecode(env, charset, gs, [], false);
    FlatUngroup(gs);
    var h := Encode(charset, s);
    WordsStart(charset, gs);
    hide DecodeHeader;
    HeaderStart(env, h);
    assert [] + h == h;
  }

  lemma {:induction false} HeaderStart(env: Env, h: seq<Byte>)
    requires |h| > 1 && h[0] == EQUALS && h[1] == QUESTION
    ensures DecodeHeader(env, h) == DecodeFrom(env, h, false)
  {
    hide DecodeFrom;
    PairAt(h, 0, EQUALS, QUESTION);
    assert h[0..] == h && h[..0] == [];
    var r := DecodeFrom(env, h, false);
    assert r.Some? ==> [] + r.value == r.value;
  }

  lemma {:induction false} WordsStart(charset: seq<Byte>, gs: seq<seq<seq<Byte>>>)
    requires gs != []
    ensures var h := WordsText(charset, gs); |h| > 1 && h[0] == EQUALS && h[1] == QUESTION
  {
    hide Onward;
  }
}
