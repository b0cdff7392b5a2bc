/**
 The loops of mime/encodedword.go, each proved to compute its function in EncodedWord.
 */
module EncodedWordLoops {
  import opened Options
  import opened Bytes
  import opened Utf8
  import opened Splitting
  import opened Grammar
  import opened EncodedWord

  lemma {:induction false} QTextOne(b: Byte)
    ensures QText([b]) == QByte(b)
  {
    assert [b][1..] == [];
    assert QText([]) == [];
  }

  method WriteQString(buf0: seq<Byte>, s: seq<Byte>) returns (buf: seq<Byte>)
    ensures buf == buf0 + QText(s)
  {
    assert QText([]) == [];
    hide QText, QByte;
    buf := buf0;
    ghost var done: seq<Byte> := [];
    for i := 0 to |s|
      invariant done == s[..i]
      invariant buf == buf0 + QText(done)
    {
      QTextCat(done, [s[i]]);
      QTextOne(s[i]);
      Associate(buf0, QText(done), QByte(s[i]));
      buf := WriteQByte(buf, s[i]);
      done := done + [s[i]];
    }
    assert done == s;
  }

  method WriteQByte(buf0: seq<Byte>, b: Byte) returns (buf: seq<Byte>)
    ensures buf == buf0 + QByte(b)
  {
    buf := buf0;
    if b == SPACE {
      buf := buf + [UNDERSCORE];
    } else if 0x21 <= b <= 0x7E && b != EQUALS && b != QUESTION && b != UNDERSCORE {
      buf := buf + [b];
    } else {
      buf := buf + [EQUALS];
      buf := buf + [UpperHex(b / 16)];
      buf := buf + [UpperHex(b % 16)];
    }
  }

  /** The length of a rune's encoding, as qEncode predicts it. */
  lemma {:induction false} PredictedLength(s: seq<Byte>)
    requires s != []
    ensures var w := DecodeRune(s).1;
      |QText(s[..w])| == if 0x20 <= s[0] <= 0x7E && s[0] != EQUALS && s[0] != QUESTION && s[0] != UNDERSCORE then 1 else 3 * w
    ensures s[0] < RUNE_SELF ==> DecodeRune(s).1 == 1
  {
    var w := DecodeRune(s).1;
    if s[0] < RUNE_SELF {
      assert s[..w] == [s[0]];
      QTextOne(s[0]);
    } else {
      assert w > 1 ==> forall i :: 0 <= i < w ==> s[i] >= 0x80;
      HighLength(s[..w]);
    }
  }

  lemma {:induction false} HighLength(s: seq<Byte>)
    requires forall i :: 0 <= i < |s| ==> s[i] >= 0x80
    ensures |QText(s)| == 3 * |s|
  {
    if s != [] {
      HighLength(s[1..]);
    }
  }

  /** What is written, and the encoding of the rest, make up the goal. */
  ghost predicate Encodes(goal: seq<Byte>, buf: seq<Byte>, rest: seq<Byte>, cur: nat, charset: seq<Byte>) {
    goal == buf + QEncode(Units(rest), cur, charset)
  }

  /** qEncode for a UTF-8 charset. */
  method QEncodeLoop(buf0: seq<Byte>, charset: seq<Byte>, s: seq<Byte>) returns (buf: seq<Byte>)
    ensures buf == buf0 + QEncode(Units(s), 0, charset)
  {
    buf := buf0;
    var currentLen: nat := 0;
    var i: nat := 0;
    ghost var rest := s;
    ghost var goal := buf0 + QEncode(Units(s), 0, charset);
    assert Encodes(goal, buf, rest, 0, charset);
    hide *;
    while i < |s|
      invariant i <= |s| && rest == s[i..]
      invariant Encodes(goal, buf, rest, currentLen, charset)
    {
      var runeLen;
      buf, currentLen, runeLen := WriteRune(goal, buf, currentLen, charset, s[i..]);
      Behind(s, i, runeLen);
      rest := s[i + runeLen..];
      i := i + runeLen;
    }
    EncodesEnd(goal, buf, rest, currentLen, charset);
  }

  /** One round of the loop: a rune, in a new word if it does not fit. */
  method WriteRune(ghost goal: seq<Byte>, buf0: seq<Byte>, cur: nat, charset: seq<Byte>, rest: seq<Byte>)
    returns (buf: seq<Byte>, currentLen: nat, runeLen: nat)
    requires rest != [] && Encodes(goal, buf0, rest, cur, charset)
    ensures 0 < runeLen <= |rest| && Encodes(goal, buf, rest[runeLen..], currentLen, charset)
  {
    hide QText, Encodes, SplitWord;
    var encLen;
    runeLen, encLen := Predict(rest);
    EncodesStep(goal, buf0, rest, cur, charset);
    buf, currentLen := buf0, cur;
    if currentLen + encLen > MAX_CONTENT {
      buf := buf + SplitWord(charset);
      currentLen := 0;
    }
    buf := WriteQString(buf, rest[..runeLen]);
    currentLen := currentLen + encLen;
  }

  /** The next rune's length and that of its encoding. */
  method Predict(s: seq<Byte>) returns (runeLen: nat, encLen: nat)
    requires s != []
    ensures 0 < runeLen <= |s| && runeLen == DecodeRune(s).1 && encLen == |QText(s[..runeLen])|
  {
    PredictedLength(s);
    hide QText;
    var b := s[0];
    if 0x20 <= b <= 0x7E && b != EQUALS && b != QUESTION && b != UNDERSCORE {
      return 1, 1;
    }
    runeLen := DecodeRune(s).1;
    encLen := 3 * runeLen;
  }

  function SplitWord(charset: seq<Byte>): seq<Byte> { CLOSE + [SPACE] + Open(charset) }

  lemma {:induction false} EncodesEnd(goal: seq<Byte>, buf: seq<Byte>, rest: seq<Byte>, cur: nat, charset: seq<Byte>)
    requires Encodes(goal, buf, rest, cur, charset) && |rest| == 0
    ensures goal == buf
  {
    assert Units(rest) == [];
  }

  lemma {:induction false} EncodesStep(goal: seq<Byte>, buf: seq<Byte>, s: seq<Byte>, cur: nat, charset: seq<Byte>)
    requires s != [] && Encodes(goal, buf, s, cur, charset)
    ensures var w := DecodeRune(s).1;
      var q := QText(s[..w]);
      if cur + |q| > MAX_CONTENT then Encodes(goal, buf + SplitWord(charset) + q, s[w..], |q|, charset)
      else Encodes(goal, buf + q, s[w..], cur + |q|, charset)
  {
    hide DecodeRune, QText, Units, QEncode, SplitWord;
    var w := DecodeRune(s).1;
    var q := QText(s[..w]);
    QEncodeFirst(s, cur, charset);
    var at := if cur + |q| > MAX_CONTENT then |q| else cur + |q|;
    var more := QEncode(Units(s[w..]), at, charset);
    Associate(buf, q, more);
    Associate(buf, SplitWord(charset), q + more);
    Associate(buf + SplitWord(charset), q, more);
  }

  lemma {:induction false} QEncodeFirst(s: seq<Byte>, cur: nat, charset: seq<Byte>)
    requires s != []
    ensures var w := DecodeRune(s).1;
      var q := QText(s[..w]);
      QEncode(Units(s), cur, charset) ==
        if cur + |q| > MAX_CONTENT then SplitWord(charset) + (q + QEncode(Units(s[w..]), |q|, charset))
        else q + QEncode(Units(s[w..]), cur + |q|, charset)
  {
    UnitsFirst(s);
    hide DecodeRune, QText, Units, Open;
  }

  lemma {:induction false} UnitsFirst(s: seq<Byte>)
    requires s != []
    ensures var w := DecodeRune(s).1; Units(s) != [] && Units(s)[0] == s[..w] && Units(s)[1..] == Units(s[w..])
  {
    hide DecodeRune;
  }

  method EncodeLoop(charset: seq<Byte>, s: seq<Byte>) returns (r: seq<Byte>)
    ensures r == Encode(charset, s)
  {
    hide NeedsEncoding, QText, Units, QEncode, Open;
    if !NeedsEncoding(s) {
      return s;
    }
    r := Open(charset);
    if Folds(UTF_8, charset) {
      r := QEncodeLoop(r, charset, s);
    } else {
      r := WriteQString(r, s);
    }
    r := r + CLOSE;
  }

  // ---- decoding ----

  lemma {:induction false} QDecodeStep(s: seq<Byte>, i: nat)
    requires i < |s|
    ensures QDecode(s[i..]) ==
      if s[i] == EQUALS then
        if i + 2 >= |s| || !IsHex(s[i + 1]) || !IsHex(s[i + 2]) then None
        else Prepend(HexByte(s[i + 1], s[i + 2]), QDecode(s[i + 3..]))
      else if s[i] == UNDERSCORE then Prepend(SPACE, QDecode(s[i + 1..]))
      else if 0x20 <= s[i] <= 0x7E || s[i] == NEWLINE || s[i] == CR || s[i] == TAB then Prepend(s[i], QDecode(s[i + 1..]))
      else None
  {
    assert s[i..][1..] == s[i + 1..];
    assert i + 2 < |s| ==> s[i..][3..] == s[i + 3..];
  }

  /** The text is the bytes done, then what r stands for. */
  ghost predicate Decodes(whole: Option<seq<Byte>>, done: seq<Byte>, r: Option<seq<Byte>>) {
    whole == Join(done, r)
  }

  lemma {:induction false} DecodesMore(whole: Option<seq<Byte>>, done: seq<Byte>, b: Byte, r: Option<seq<Byte>>)
    requires Decodes(whole, done, Prepend(b, r))
    ensures Decodes(whole, done + [b], r)
  {
    if r.Some? {
      Associate(done, [b], r.value);
    }
  }

  lemma {:induction false} DecodesStart(whole: Option<seq<Byte>>)
    ensures Decodes(whole, [], whole)
  {
    assert whole.Some? ==> [] + whole.value == whole.value;
  }

  lemma {:induction false} DecodesEnd(whole: Option<seq<Byte>>, done: seq<Byte>, rest: seq<Byte>)
    requires Decodes(whole, done, Some(rest))
    ensures whole == Some(done + rest) && (rest == [] ==> whole == Some(done))
  {
    assert rest == [] ==> done + rest == done;
  }

  /** qDecode into an array as long as its input. */
  method QDecodeLoop(s: seq<Byte>) returns (r: Option<seq<Byte>>)
    ensures r == QDecode(s)
  {
    var dec := new Byte[|s|];
    var n: nat := 0;
    var i: nat := 0;
    ghost var done: seq<Byte> := [];
    ghost var rest, whole := s, QDecode(s);
    assert QDecode([]) == Some([]);
    hide QDecode, Prepend;
    DecodesStart(whole);
    while i < |s|
      invariant n <= i <= |s| && |done| == n && rest == s[i..]
      invariant Decodes(whole, done, QDecode(rest))
      invariant forall k :: 0 <= k < n ==> dec[k] == done[k]
    {
      var c := s[i];
      QDecodeStep(s, i);
      if c == UNDERSCORE {
        dec[n] := SPACE;
        DecodesMore(whole, done, SPACE, QDecode(s[i + 1..]));
      } else if c == EQUALS {
        if i + 2 >= |s| || !IsHex(s[i + 1]) || !IsHex(s[i + 2]) {
          return None;
        }
        dec[n] := HexByte(s[i + 1], s[i + 2]);
        DecodesMore(whole, done, dec[n], QDecode(s[i + 3..]));
        i := i + 2;
      } else if 0x20 <= c <= 0x7E || c == NEWLINE || c == CR || c == TAB {
        dec[n] := c;
        DecodesMore(whole, done, c, QDecode(s[i + 1..]));
      } else {
        return None;
      }
      done := done + [dec[n]];
      n := n + 1;
      i := i + 1;
      rest := s[i..];
    }
    assert rest == [];
    DecodesEnd(whole, done, []);
    assert dec[..n] == done;
    return Some(dec[..n]);
  }

  method HasNonWhitespace(s: seq<Byte>) returns (r: bool)
    ensures r <==> exists i :: 0 <= i < |s| && !White(s[i])
  {
    for i := 0 to |s|
      invariant forall j :: 0 <= j < i ==> White(s[j])
    {
      if !White(s[i]) {
        return true;
      }
    }
    return false;
  }

  method DecodeTextLoop(env: Env, encoding: Byte, text: seq<Byte>) returns (r: Option<seq<Byte>>)
    ensures r == DecodeText(env, encoding, text)
  {
    if encoding == UPPER_B || encoding == LOWER_B {
      return env.base64(text);
    }
    if encoding == UPPER_Q || encoding == LOWER_Q {
      r := QDecodeLoop(text);
      return;
    }
    return None;
  }

  /** DecodeHeader: the buffer, then the rest of the header, decode to the result. */
  method DecodeHeaderLoop(env: Env, header0: seq<Byte>) returns (r: Option<seq<Byte>>)
    ensures r == DecodeHeader(env, header0)
  {
    hide Find, DecodeText, Convert, Gap, IndexPair;
    var i := IndexPair(header0, EQUALS, QUESTION);
    if i == |header0| {
      return Some(header0);
    }
    var buf := header0[..i];
    var header := header0[i..];
    var between := false;
    ghost var whole := DecodeHeader(env, header0);
    while true
      invariant Decodes(whole, buf, DecodeFrom(env, header, between))
      decreases |header|
    {
      var f := Find(header);
      if f.None? {
        break;
      }
      var w := f.value;
      var content := DecodeTextLoop(env, w.encoding, w.text);
      if content.None? {
        DecodesOn(whole, buf, header[..w.start + 2], DecodeFrom(env, header[w.start + 2..], false));
        between := false;
        buf := buf + header[..w.start + 2];
        header := header[w.start + 2..];
        continue;
      }
      var gap := WriteGap(header, w.start, between);
      var out := Convert(env, w.charset, content.value);
      if out.None? {
        return None;
      }
      DecodesOn(whole, buf, gap + out.value, DecodeFrom(env, header[w.end..], true));
      buf := buf + (gap + out.value);
      header := header[w.end..];
      between := true;
    }
    DecodesEnd(whole, buf, header);
    if |header| > 0 {
      buf := buf + header;
    }
    return Some(buf);
  }

  /** The characters before an encoded-word, unless they only separate two of them. */
  method WriteGap(header: seq<Byte>, start: nat, between: bool) returns (gap: seq<Byte>)
    requires start <= |header|
    ensures gap == Gap(header, start, between)
  {
    var nonWhite := HasNonWhitespace(header[..start]);
    assert nonWhite <==> exists i :: 0 <= i < start && !White(header[i]) by {
      assert forall i :: 0 <= i < start ==> header[..start][i] == header[i];
    }
    if start > 0 && (!between || nonWhite) {
      return header[..start];
    }
    return [];
  }

  lemma {:induction false} DecodesOn(whole: Option<seq<Byte>>, done: seq<Byte>, a: seq<Byte>, r: Option<seq<Byte>>)
    requires Decodes(whole, done, Join(a, r))
    ensures Decodes(whole, done + a, r)
  {
    if r.Some? {
      Associate(done, a, r.value);
    }
  }
}
