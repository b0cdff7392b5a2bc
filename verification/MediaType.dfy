/**
 mime.FormatMediaType and mime.ParseMediaType as functions on bytes, and the law that
 parsing undoes formatting.
 */
module MediaType {
  import opened Options
  import opened Bytes
  import opened Utf8
  import opened Splitting
  import opened Grammar

  type Params = map<seq<Byte>, seq<Byte>>

  // ---- strings ----

  /** strings.Cut at the first c. */
  function CutByte(s: seq<Byte>, c: Byte): (r: Option<(seq<Byte>, seq<Byte>)>)
    ensures r.None? <==> c !in s
    ensures r.Some? ==> s == r.value.0 + [c] + r.value.1 && c !in r.value.0
  {
    var i := IndexByte(s, c);
    if i < |s| then
      assert s == s[..i] + [c] + s[i + 1..];
      Some((s[..i], s[i + 1..]))
    else
      assert s[..i] == s;
      None
  }

  function TrimLeft(s: seq<Byte>): (r: seq<Byte>)
    ensures |r| <= |s|
  {
    s[SkipSpaces(s)..]
  }

  /** Where utf8.DecodeLastRune starts to decode. */
  function LastStart(s: seq<Byte>): (i: nat)
    requires s != []
    ensures i < |s|
  {
    var n := |s|;
    if !Continuation(s[n - 1]) || n == 1 then n - 1
    else if !Continuation(s[n - 2]) || n == 2 then n - 2
    else if !Continuation(s[n - 3]) || n == 3 then n - 3
    else n - 4
  }

  /** utf8.DecodeLastRune. */
  function DecodeLast(s: seq<Byte>): (r: (nat, nat))
    requires s != []
    ensures 0 < r.1 <= |s|
  {
    var i := LastStart(s);
    var (c, w) := DecodeRune(s[i..]);
    if i + w == |s| then (c, w) else (RUNE_ERROR, 1)
  }

  function TrimRight(s: seq<Byte>): (r: seq<Byte>)
    ensures |r| <= |s|
    decreases |s|
  {
    if s == [] then s
    else
      var (c, w) := DecodeLast(s);
      if IsSpace(c) then TrimRight(s[..|s| - w]) else s
  }

  function TrimSpace(s: seq<Byte>): seq<Byte> { TrimRight(TrimLeft(s)) }

  // ---- formatting ----

  predicate NeedsPercent(c: Byte) {
    c <= SPACE || c >= 0x7F || c == STAR || c == APOSTROPHE || c == PERCENT || IsTSpecial(c)
  }

  /** Percent encoding, section 7 of RFC 2231. */
  function Percent(v: seq<Byte>): (r: seq<Byte>)
    ensures AllTokenChars(r)
  {
    if v == [] then []
    else
      TokenCharClass(v[0]);
      (if NeedsPercent(v[0]) then [PERCENT, UpperHex(v[0] / 16), UpperHex(v[0] % 16)] else [v[0]]) + Percent(v[1..])
  }

  /** The inside of a quoted-string. */
  function Quote(v: seq<Byte>): (r: seq<Byte>) {
    if v == [] then []
    else (if v[0] == QUOTE || v[0] == BACKSLASH then [BACKSLASH, v[0]] else [v[0]]) + Quote(v[1..])
  }

  /** utf-8'' */
  const CHARSET: seq<Byte> := [0x75, 0x74, 0x66, 0x2D, 0x38, 0x27, 0x27]

  function ValueText(v: seq<Byte>): seq<Byte> {
    if NeedsEncoding(v) then CHARSET + Percent(v)
    else if IsToken(v) then v
    else [QUOTE] + Quote(v) + [QUOTE]
  }

  function ParamText(k: seq<Byte>, v: seq<Byte>): seq<Byte> {
    NameText(k, NeedsEncoding(v)) + ValueText(v)
  }

  function NameText(k: seq<Byte>, encoded: bool): seq<Byte> {
    [SEMICOLON, SPACE] + Lower(k) + (if encoded then [STAR, EQUALS] else [EQUALS])
  }

  predicate Enumerates(ks: seq<seq<Byte>>, m: Params) {
    && (forall i :: 0 <= i < |ks| ==> ks[i] in m)
    && (forall k :: k in m ==> k in ks)
    && (forall i, j :: 0 <= i < j < |ks| ==> ks[i] != ks[j])
  }

  /** All parameters in the order ks. */
  function ParamsText(ks: seq<seq<Byte>>, m: Params): seq<Byte>
    requires forall i :: 0 <= i < |ks| ==> ks[i] in m
  {
    if ks == [] then [] else ParamText(ks[0], m[ks[0]]) + ParamsText(ks[1..], m)
  }

  /** A token, or two tokens with a slash. */
  predicate IsType(t: seq<Byte>) {
    var c := CutByte(t, SLASH);
    if c.None? then IsToken(t) else IsToken(c.value.0) && IsToken(c.value.1)
  }

  /** FormatMediaType, with the keys of param in the order ks; empty on a standard violation. */
  function Format(t: seq<Byte>, ks: seq<seq<Byte>>, m: Params): (r: seq<Byte>)
    requires Enumerates(ks, m)
    ensures r == [] <==> !IsType(t) || exists k :: k in m && !IsToken(k)
  {
    if !IsType(t) || exists k :: k in m && !IsToken(k) then []
    else
      assert t != [];
      Lower(t) + ParamsText(ks, m)
  }

  // ---- parsing ----

  function TokenLength(v: seq<Byte>): (n: nat)
    ensures n <= |v| && AllTokenChars(v[..n]) && (n < |v| ==> !IsTokenChar(v[n]))
  {
    if v == [] || !IsTokenChar(v[0]) then 0
    else
      var n := 1 + TokenLength(v[1..]);
      assert v[..n] == [v[0]] + v[1..][..n - 1];
      n
  }

  function ConsumeToken(v: seq<Byte>): (r: (seq<Byte>, seq<Byte>))
    ensures r.0 + r.1 == v
  {
    var n := TokenLength(v);
    (v[..n], v[n..])
  }

  /** The rest of a quoted-string after i, given what was read before: the value and where the
      closing quote is. */
  function ConsumeQuoted(v: seq<Byte>, i: nat, acc: seq<Byte>): (r: Option<(seq<Byte>, nat)>)
    requires i <= |v|
    ensures r.Some? ==> i <= r.value.1 < |v|
    decreases |v| - i
  {
    if i == |v| then None
    else if v[i] == QUOTE then Some((acc, i))
    else if v[i] == BACKSLASH && i + 1 < |v| && IsTSpecial(v[i + 1]) then ConsumeQuoted(v, i + 2, acc + [v[i + 1]])
    else if v[i] == CR || v[i] == NEWLINE then None
    else ConsumeQuoted(v, i + 1, acc + [v[i]])
  }

  function ConsumeValue(v: seq<Byte>): (r: (seq<Byte>, seq<Byte>))
    ensures |r.1| <= |v| && (r.0 != [] ==> |r.1| < |v|)
  {
    if v == [] then ([], [])
    else if v[0] != QUOTE then ConsumeToken(v)
    else
      var q := ConsumeQuoted(v, 1, []);
      if q.None? then ([], v) else (q.value.0, v[q.value.1 + 1..])
  }

  datatype Piece = Piece(key: seq<Byte>, value: seq<Byte>, rest: seq<Byte>)

  function ConsumeMediaParam(v: seq<Byte>): (r: Piece)
    ensures r.key != [] ==> |r.rest| < |v|
    ensures r.key == [] ==> r.rest == v
  {
    var fail := Piece([], [], v);
    var a := TrimLeft(v);
    if a == [] || a[0] != SEMICOLON then fail
    else
      var (param, b) := ConsumeToken(TrimLeft(a[1..]));
      if param == [] then fail
      else
        var c := TrimLeft(b);
        if c == [] || c[0] != EQUALS then fail
        else
          var d := TrimLeft(c[1..]);
          var (value, rest) := ConsumeValue(d);
          if value == [] && rest == d then fail
          else Piece(Lower(param), value, rest)
  }

  /** percentHexUnescape. */
  function Unpercent(s: seq<Byte>): (r: Option<seq<Byte>>) {
    if s == [] then Some([])
    else if s[0] != PERCENT then
      var r := Unpercent(s[1..]);
      if r.None? then None else Some([s[0]] + r.value)
    else if |s| < 3 || !IsHex(s[1]) || !IsHex(s[2]) then None
    else
      var r := Unpercent(s[3..]);
      if r.None? then None else Some([HexByte(s[1], s[2])] + r.value)
  }

  function Decode2231(v: seq<Byte>): (r: Option<seq<Byte>>) {
    var c := CutByte(v, APOSTROPHE);
    if c.None? then None
    else
      var d := CutByte(c.value.1, APOSTROPHE);
      if d.None? then None
      else
        var charset := Lower(c.value.0);
        if charset != US_ASCII && charset != UTF_8 then None
        else Unpercent(d.value.1)
  }

  datatype Failure = NoMediaType | NoSlash | NoSubtype | UnexpectedContent | InvalidParameter | DuplicateName

  function CheckType(s: seq<Byte>): (e: Option<Failure>) {
    var (typ, rest) := ConsumeToken(s);
    if typ == [] then Some(NoMediaType)
    else if rest == [] then None
    else if rest[0] != SLASH then Some(NoSlash)
    else
      var (subtype, more) := ConsumeToken(rest[1..]);
      if subtype == [] then Some(NoSubtype)
      else if more != [] then Some(UnexpectedContent)
      else None
  }

  /** Parameters read so far: plain ones, and those with a star by their base name. */
  datatype Table = Table(plain: Params, starred: map<seq<Byte>, Params>)

  datatype Result<+T> = Ok(value: T) | Err(failure: Failure)

  /** Enter a parameter under its name; only an equal value may be entered twice. */
  function Enter(t: Table, key: seq<Byte>, value: seq<Byte>): (r: Result<Table>) {
    var c := CutByte(key, STAR);
    if c.None? then
      if key in t.plain && t.plain[key] != value then Err(DuplicateName)
      else Ok(t.(plain := t.plain[key := value]))
    else
      var base := c.value.0;
      var pieces: Params := if base in t.starred then t.starred[base] else map[];
      if key in pieces && pieces[key] != value then Err(DuplicateName)
      else Ok(t.(starred := t.starred[base := pieces[key := value]]))
  }

  /** The loop over the parameters. */
  function ParseParams(v: seq<Byte>, t: Table): (r: Result<Table>)
    decreases |v|
  {
    var w := TrimLeft(v);
    if w == [] then Ok(t)
    else
      var p := ConsumeMediaParam(w);
      if p.key == [] then
        if TrimSpace(p.rest) == [SEMICOLON] then Ok(t) else Err(InvalidParameter)
      else
        var e := Enter(t, p.key, p.value);
        if e.Err? then e else ParseParams(p.rest, e.value)
  }

  // ---- continuations: name*0, name*1*, ... (section 3 of RFC 2231) ----

  function Decimal(n: nat): (r: seq<Byte>)
    ensures r != [] && forall i :: 0 <= i < |r| ==> IsDigit(r[i])
  {
    if n < 10 then [0x30 + n] else Decimal(n / 10) + [0x30 + n % 10]
  }

  function DecimalValue(s: seq<Byte>): int {
    if s == [] then 0 else DecimalValue(s[..|s| - 1]) * 10 + s[|s| - 1] - 0x30
  }

  lemma {:induction false} DecimalRoundTrip(n: nat)
    ensures DecimalValue(Decimal(n)) == n
  {
    if n < 10 {
      assert DecimalValue([]) == 0;
    } else {
      DecimalRoundTrip(n / 10);
      assert Decimal(n)[..|Decimal(n)| - 1] == Decimal(n / 10);
    }
  }

  function SimplePart(key: seq<Byte>, n: nat): seq<Byte> { key + [STAR] + Decimal(n) }

  function EncodedPart(key: seq<Byte>, n: nat): seq<Byte> { SimplePart(key, n) + [STAR] }

  /** The name part n goes by. */
  function PartName(key: seq<Byte>, pieces: Params, n: nat): seq<Byte> {
    if SimplePart(key, n) in pieces then SimplePart(key, n) else EncodedPart(key, n)
  }

  ghost predicate HasParts(key: seq<Byte>, pieces: Params, n: nat) {
    forall i: nat :: i < n ==> PartName(key, pieces, i) in pieces
  }

  lemma {:induction false} PartsDiffer(key: seq<Byte>, i: nat, j: nat)
    requires i != j
    ensures SimplePart(key, i) != SimplePart(key, j) && EncodedPart(key, i) != EncodedPart(key, j)
    ensures SimplePart(key, i) != EncodedPart(key, j)
  {
    DecimalRoundTrip(i);
    DecimalRoundTrip(j);
    var n := |key| + 1;
    assert SimplePart(key, i)[n..] == Decimal(i) && SimplePart(key, j)[n..] == Decimal(j);
    assert EncodedPart(key, i)[n..] == Decimal(i) + [STAR] && EncodedPart(key, j)[n..] == Decimal(j) + [STAR];
    assert (Decimal(i) + [STAR])[..|Decimal(i)|] == Decimal(i);
    assert (Decimal(j) + [STAR])[..|Decimal(j)|] == Decimal(j);
    var d := Decimal(i);
    assert IsDigit(d[|d| - 1]);
  }

  /** There are no more parts than pieces, so looking for the next part comes to an end. */
  lemma {:induction false} PartsBound(key: seq<Byte>, pieces: Params, n: nat)
    requires HasParts(key, pieces, n)
    ensures n <= |pieces|
  {
    hide PartName;
    var names := NamesBelow(key, pieces, n);
    NamesCount(key, pieces, n);
    SubsetSize(names, pieces.Keys);
  }

  lemma {:induction false} SubsetSize<T>(a: set<T>, b: set<T>)
    requires a <= b
    ensures |a| <= |b|
  {
    assert |b| == |a| + |b - a| by { assert b == a + (b - a); }
  }

  ghost function NamesBelow(key: seq<Byte>, pieces: Params, n: nat): (r: set<seq<Byte>>) {
    set i: nat | i < n :: PartName(key, pieces, i)
  }

  lemma {:induction false} NamesCount(key: seq<Byte>, pieces: Params, n: nat)
    ensures |NamesBelow(key, pieces, n)| == n
  {
    hide PartName;
    if n == 0 {
      assert NamesBelow(key, pieces, 0) == {};
    } else {
      NamesCount(key, pieces, n - 1);
      NewName(key, pieces, n - 1);
      assert NamesBelow(key, pieces, n) == NamesBelow(key, pieces, n - 1) + {PartName(key, pieces, n - 1)};
    }
  }

  lemma {:induction false} NewName(key: seq<Byte>, pieces: Params, n: nat)
    ensures PartName(key, pieces, n) !in NamesBelow(key, pieces, n)
  {
    forall i: nat | i < n
      ensures PartName(key, pieces, i) != PartName(key, pieces, n)
    {
      PartsDiffer(key, i, n);
      PartsDiffer(key, n, i);
      hide SimplePart, EncodedPart;
    }
    hide PartName;
  }

  /** Parts n, n+1, ... put together. */
  function StitchFrom(key: seq<Byte>, pieces: Params, n: nat): (r: seq<Byte>)
    requires HasParts(key, pieces, n)
    decreases |pieces| - n
  {
    PartsBound(key, pieces, n);
    if SimplePart(key, n) in pieces then
      PartsBound(key, pieces, n + 1);
      pieces[SimplePart(key, n)] + StitchFrom(key, pieces, n + 1)
    else if EncodedPart(key, n) in pieces then
      PartsBound(key, pieces, n + 1);
      var v := pieces[EncodedPart(key, n)];
      var d := if n == 0 then Decode2231(v) else Unpercent(v);
      (if d.Some? then d.value else []) + StitchFrom(key, pieces, n + 1)
    else []
  }

  function StitchOf(key: seq<Byte>, pieces: Params): (r: Option<seq<Byte>>) {
    if key + [STAR] in pieces then Decode2231(pieces[key + [STAR]])
    else if PartName(key, pieces, 0) in pieces then Some(StitchFrom(key, pieces, 0))
    else None
  }

  /** The parameters with the continuations stitched together. */
  function Stitch(t: Table): (r: Params) {
    map k | k in t.plain.Keys + t.starred.Keys && (k in t.plain || StitchOf(k, t.starred[k]).Some?)
      :: if k in t.starred && StitchOf(k, t.starred[k]).Some? then StitchOf(k, t.starred[k]).value else t.plain[k]
  }

  /** What ParseMediaType returns. */
  datatype Outcome = Outcome(mediatype: seq<Byte>, params: Option<Params>, failure: Option<Failure>)

  function Parse(v: seq<Byte>): (r: Outcome)
    ensures r.params.Some? <==> r.failure.None?
  {
    var base := v[..IndexByte(v, SEMICOLON)];
    var mediatype := TrimSpace(Lower(base));
    var e := CheckType(mediatype);
    if e.Some? then Outcome([], None, e)
    else
      var t := ParseParams(v[|base|..], Table(map[], map[]));
      if t.Ok? then Outcome(mediatype, Some(Stitch(t.value)), None)
      else Outcome(if t.failure == InvalidParameter then mediatype else [], None, Some(t.failure))
  }

  // ---- parsing undoes formatting ----

  /** Token characters are not white space. */
  lemma {:induction false} TrimStays(s: seq<Byte>)
    requires s == [] || 0x21 <= s[0] <= 0x7E
    ensures TrimLeft(s) == s
  {}

  lemma {:induction false} TokenPrefix(a: seq<Byte>, tail: seq<Byte>)
    requires AllTokenChars(a) && (tail == [] || !IsTokenChar(tail[0]))
    ensures ConsumeToken(a + tail) == (a, tail)
  {
    var v := a + tail;
    var n := TokenLength(v);
    assert forall i :: 0 <= i < |a| ==> v[i] == a[i];
    assert tail != [] ==> v[|a|] == tail[0];
    assert forall i :: 0 <= i < n ==> IsTokenChar(v[i]) by {
      assert forall i :: 0 <= i < n ==> v[i] == v[..n][i];
    }
    assert v[..|a|] == a && v[|a|..] == tail;
  }

  lemma {:induction false} PercentRoundTrip(v: seq<Byte>)
    ensures Unpercent(Percent(v)) == Some(v)
  {
    if v != [] {
      PercentRoundTrip(v[1..]);
      HexRoundTrip(v[0]);
      assert [v[0]] + v[1..] == v;
      var p := Percent(v);
      if NeedsPercent(v[0]) {
        assert p[3..] == Percent(v[1..]);
      } else {
        assert p[1..] == Percent(v[1..]);
      }
    }
  }

  lemma {:induction false} PercentHasNoApostrophe(v: seq<Byte>)
    ensures APOSTROPHE !in Percent(v)
  {
    if v != [] {
      PercentHasNoApostrophe(v[1..]);
    }
  }

  lemma {:induction false} Decode2231RoundTrip(v: seq<Byte>)
    ensures Decode2231(CHARSET + Percent(v)) == Some(v)
  {
    assert Lower(UTF_8) == UTF_8;
    hide CutByte, Lower, Percent, Unpercent;
    var s := CHARSET + Percent(v);
    CutAt(s, UTF_8, [APOSTROPHE] + Percent(v), APOSTROPHE);
    CutAt([APOSTROPHE] + Percent(v), [], Percent(v), APOSTROPHE);
    PercentRoundTrip(v);
  }

  lemma {:induction false} CutAt(s: seq<Byte>, a: seq<Byte>, b: seq<Byte>, c: Byte)
    requires s == a + [c] + b && c !in a
    ensures CutByte(s, c) == Some((a, b))
  {
    assert s[|a|] == c;
    var r := CutByte(s, c).value;
    var n := |r.0|;
    assert s[n] == c;
    assert forall i :: 0 <= i < |a| ==> s[i] == a[i] != c;
    assert forall i :: 0 <= i < n ==> s[i] == r.0[i] != c;
    assert s[..n] == r.0 && s[n + 1..] == r.1 && s[..|a|] == a && s[|a| + 1..] == b;
  }

  /** A quoted-string is read back as it was quoted. */
  lemma {:induction false} QuoteRoundTrip(v: seq<Byte>, i: nat, w: seq<Byte>, acc: seq<Byte>, tail: seq<Byte>)
    requires i <= |v| && forall j :: 0 <= j < |w| ==> Printable(w[j])
    requires v[i..] == Quote(w) + [QUOTE] + tail
    ensures ConsumeQuoted(v, i, acc) == Some((acc + w, |v| - |tail| - 1))
    decreases |w|
  {
    var q := Quote(w) + [QUOTE] + tail;
    assert v[i] == q[0];
    if w == [] {
      assert acc + w == acc;
    } else {
      if w[0] == QUOTE || w[0] == BACKSLASH {
        assert v[i + 1] == q[1];
        assert v[i + 2..] == q[2..] == Quote(w[1..]) + [QUOTE] + tail;
        QuoteRoundTrip(v, i + 2, w[1..], acc + [w[0]], tail);
      } else {
        assert v[i + 1..] == q[1..] == Quote(w[1..]) + [QUOTE] + tail;
        QuoteRoundTrip(v, i + 1, w[1..], acc + [w[0]], tail);
      }
      assert acc + [w[0]] + w[1..] == acc + w;
    }
  }

  predicate Separated(tail: seq<Byte>) { tail == [] || tail[0] == SEMICOLON }

  /** A value ends before a separator or white space. */
  predicate Ended(tail: seq<Byte>) { Separated(tail) || tail[0] <= SPACE }

  /** What a value's text reads as: the value, or its RFC 2231 form. */
  function Shown(v: seq<Byte>): seq<Byte> {
    if NeedsEncoding(v) then CHARSET + Percent(v) else v
  }

  lemma {:induction false} ValueRead(v: seq<Byte>, tail: seq<Byte>)
    requires Ended(tail)
    ensures ValueText(v) != [] && 0x21 <= ValueText(v)[0] <= 0x7E
    ensures ConsumeValue(ValueText(v) + tail) == (Shown(v), tail)
  {
    if NeedsEncoding(v) || IsToken(v) {
      TokenRead(ValueText(v), tail);
    } else {
      QuotedRead(v, tail);
    }
  }

  lemma {:induction false} TokenRead(a: seq<Byte>, tail: seq<Byte>)
    requires IsToken(a) && Ended(tail)
    ensures 0x21 <= a[0] <= 0x7E
    ensures ConsumeValue(a + tail) == (a, tail)
  {
    hide ConsumeToken;
    assert (a + tail)[0] == a[0] && IsTokenChar(a[0]);
    TokenCharClass(a[0]);
    TokenPrefix(a, tail);
  }

  lemma {:induction false} QuotedRead(v: seq<Byte>, tail: seq<Byte>)
    requires !NeedsEncoding(v)
    ensures ConsumeValue([QUOTE] + Quote(v) + [QUOTE] + tail) == (v, tail)
  {
    NeedsEncodingBytes(v);
    hide NeedsEncoding;
    var t := [QUOTE] + Quote(v) + [QUOTE] + tail;
    assert t[1..] == Quote(v) + [QUOTE] + tail;
    QuoteRoundTrip(t, 1, v, [], tail);
    assert [] + v == v;
    assert t[|t| - |tail|..] == tail;
  }

  /** A key that reads back as itself: a lower-case token without a star. */
  predicate PlainKey(k: seq<Byte>) { IsToken(k) && Lower(k) == k && STAR !in k }

  /** The name a parameter is written under. */
  function NameOf(k: seq<Byte>, v: seq<Byte>): seq<Byte> {
    if NeedsEncoding(v) then k + [STAR] else k
  }

  lemma {:induction false} TrimOneSpace(s: seq<Byte>)
    requires s != [] && 0x21 <= s[0] <= 0x7E
    ensures TrimLeft([SPACE] + s) == s
  {
    var t := [SPACE] + s;
    assert t[1..] == s;
    TrimStays(s);
    assert DecodeRune(t) == (0x20, 1);
  }

  lemma {:induction false} NameLower(k: seq<Byte>, v: seq<Byte>)
    requires PlainKey(k)
    ensures IsToken(NameOf(k, v)) && Lower(NameOf(k, v)) == NameOf(k, v)
    ensures 0x21 <= NameOf(k, v)[0] <= 0x7E
  {
    TokenCharClass(k[0]);
    assert forall i :: 0 <= i < |k| ==> LowerByte(k[i]) == Lower(k)[i] == k[i];
  }

  /** A name and a value that reads back are read as such, whatever parameter follows. */
  lemma {:induction false} NamedRead(name: seq<Byte>, text: seq<Byte>, value: seq<Byte>, tail: seq<Byte>)
    requires IsToken(name) && Lower(name) == name && 0x21 <= name[0] <= 0x7E
    requires text != [] && 0x21 <= text[0] <= 0x7E && ConsumeValue(text + tail) == (value, tail)
    ensures ConsumeMediaParam([SEMICOLON, SPACE] + name + [EQUALS] + text + tail) == Piece(name, value, tail)
  {
    hide Lower, ConsumeToken, ConsumeValue, TrimLeft, ConsumeMediaParam;
    var d := text + tail;
    var c := [EQUALS] + d;
    NamedShape(name, text, tail);
    TrimStays([SEMICOLON] + ([SPACE] + (name + c)));
    TrimOneSpace(name + c);
    NameRead(name, c);
    TrimStays(c);
    TrimStays(d);
    ShapeRead([SPACE] + (name + c), name, c, c, d, d, value, tail);
  }

  lemma {:induction false} NamedShape(name: seq<Byte>, text: seq<Byte>, tail: seq<Byte>)
    ensures [SEMICOLON, SPACE] + name + [EQUALS] + text + tail
      == [SEMICOLON] + ([SPACE] + (name + ([EQUALS] + (text + tail))))
  {}

  /** The parts of a parameter, with white space behind the semicolon, the name and the equals sign. */
  lemma {:induction false} ShapeRead(a: seq<Byte>, name: seq<Byte>, b: seq<Byte>, c: seq<Byte>, e: seq<Byte>, d: seq<Byte>,
                                     value: seq<Byte>, rest: seq<Byte>)
    requires TrimLeft([SEMICOLON] + a) == [SEMICOLON] + a && TrimLeft(a) == name + b
    requires name != [] && ConsumeToken(name + b) == (name, b)
    requires TrimLeft(b) == c && c == [EQUALS] + e && TrimLeft(e) == d
    requires ConsumeValue(d) == (value, rest) && |rest| < |d|
    ensures ConsumeMediaParam([SEMICOLON] + a) == Piece(Lower(name), value, rest)
  {
    hide Lower, ConsumeToken, ConsumeValue, TrimLeft;
    assert ([SEMICOLON] + a)[1..] == a;
    assert c[1..] == e;
  }

  /** A parameter's text is read as its name and its value, whatever parameter follows. */
  lemma {:induction false} ParamRead(k: seq<Byte>, v: seq<Byte>, tail: seq<Byte>)
    requires PlainKey(k) && Separated(tail)
    ensures ConsumeMediaParam(ParamText(k, v) + tail) == Piece(NameOf(k, v), Shown(v), tail)
  {
    hide NeedsEncoding, IsToken, Lower, ValueText, ConsumeMediaParam, ConsumeValue, Shown;
    NameLower(k, v);
    ValueRead(v, tail);
    ParamTextIs(k, v);
    hide ParamText, NameOf;
    NamedRead(NameOf(k, v), ValueText(v), Shown(v), tail);
  }

  lemma {:induction false} ParamTextIs(k: seq<Byte>, v: seq<Byte>)
    requires Lower(k) == k
    ensures ParamText(k, v) == [SEMICOLON, SPACE] + NameOf(k, v) + [EQUALS] + ValueText(v)
  {
    hide NeedsEncoding, Lower, ValueText;
    var front := [SEMICOLON, SPACE] + k;
    if NeedsEncoding(v) {
      assert front + [STAR, EQUALS] == [SEMICOLON, SPACE] + (k + [STAR]) + [EQUALS];
    }
  }

  lemma {:induction false} NameRead(name: seq<Byte>, c: seq<Byte>)
    requires IsToken(name) && c != [] && c[0] == EQUALS
    ensures ConsumeToken(name + c) == (name, c)
  {
    TokenPrefix(name, c);
  }

  /** The table after reading the parameters done. */
  ghost predicate Recorded(m: Params, done: set<seq<Byte>>, t: Table) {
    && done <= m.Keys
    && (forall k :: k in t.plain <==> k in done && !NeedsEncoding(m[k]))
    && (forall k :: k in t.plain ==> t.plain[k] == m[k])
    && (forall k :: k in t.starred <==> k in done && NeedsEncoding(m[k]))
    && (forall k :: k in t.starred ==> t.starred[k] == map[k + [STAR] := Shown(m[k])])
  }

  lemma {:induction false} EnterRecords(m: Params, done: set<seq<Byte>>, t: Table, k: seq<Byte>)
    requires Recorded(m, done, t) && k in m && k !in done && PlainKey(k)
    ensures var e := Enter(t, NameOf(k, m[k]), Shown(m[k])); e.Ok? && Recorded(m, done + {k}, e.value)
  {
    hide NeedsEncoding, Percent, PlainKey, Shown;
    var v := m[k];
    ShownPlain(v);
    hide Enter, Recorded;
    if NeedsEncoding(v) {
      RecordStarred(m, done, t, k);
      EnterStarred(t, k, Shown(v));
    } else {
      RecordPlain(m, done, t, k);
      EnterPlain(t, k, v);
    }
  }

  lemma {:induction false} RecordStarred(m: Params, done: set<seq<Byte>>, t: Table, k: seq<Byte>)
    requires Recorded(m, done, t) && k in m && k !in done && NeedsEncoding(m[k])
    ensures k !in t.starred
    ensures Recorded(m, done + {k}, t.(starred := t.starred[k := map[k + [STAR] := Shown(m[k])]]))
  {
    hide NeedsEncoding, Shown;
  }

  lemma {:induction false} RecordPlain(m: Params, done: set<seq<Byte>>, t: Table, k: seq<Byte>)
    requires Recorded(m, done, t) && k in m && k !in done && !NeedsEncoding(m[k])
    ensures k !in t.plain
    ensures Recorded(m, done + {k}, t.(plain := t.plain[k := m[k]]))
  {
    hide NeedsEncoding, Shown;
  }

  lemma {:induction false} ShownPlain(v: seq<Byte>)
    ensures !NeedsEncoding(v) ==> Shown(v) == v
  {
    hide NeedsEncoding;
  }

  lemma {:induction false} EnterStarred(t: Table, k: seq<Byte>, value: seq<Byte>)
    requires k !in t.starred && PlainKey(k)
    ensures Enter(t, k + [STAR], value) == Ok(t.(starred := t.starred[k := map[k + [STAR] := value]]))
  {
    CutAt(k + [STAR], k, [], STAR);
    hide CutByte, PlainKey;
  }

  lemma {:induction false} EnterPlain(t: Table, k: seq<Byte>, value: seq<Byte>)
    requires k !in t.plain && PlainKey(k)
    ensures Enter(t, k, value) == Ok(t.(plain := t.plain[k := value]))
  {
    assert CutByte(k, STAR) == None;
    hide CutByte, PlainKey;
  }

  lemma {:induction false} TextStart(k: seq<Byte>, v: seq<Byte>)
    ensures ParamText(k, v) != [] && ParamText(k, v)[0] == SEMICOLON
  {}

  lemma {:induction false} ParamsRead(ks: seq<seq<Byte>>, m: Params, done: set<seq<Byte>>, t: Table)
    requires Recorded(m, done, t)
    requires forall i :: 0 <= i < |ks| ==> ks[i] in m && ks[i] !in done && PlainKey(ks[i])
    requires forall i, j :: 0 <= i < j < |ks| ==> ks[i] != ks[j]
    ensures var r := ParseParams(ParamsText(ks, m), t); r.Ok? && Recorded(m, done + Members(ks), r.value)
    ensures Separated(ParamsText(ks, m))
    decreases |ks|
  {
    hide Recorded, NeedsEncoding, Enter, PlainKey, ParamText;
    if ks == [] {
      assert done + Members(ks) == done;
    } else {
      var k := ks[0];
      TextStart(k, m[k]);
      EnterRecords(m, done, t, k);
      var t' := Enter(t, NameOf(k, m[k]), Shown(m[k])).value;
      ParamsRead(ks[1..], m, done + {k}, t');
      assert done + {k} + Members(ks[1..]) == done + Members(ks);
      OneRead(k, m[k], ParamsText(ks[1..], m), t);
    }
  }

  /** One round of the loop over the parameters. */
  lemma {:induction false} OneRead(k: seq<Byte>, v: seq<Byte>, tail: seq<Byte>, t: Table)
    requires PlainKey(k) && Separated(tail)
    ensures var s := ParamText(k, v) + tail;
      var e := Enter(t, NameOf(k, v), Shown(v));
      ParseParams(s, t) == if e.Err? then e else ParseParams(tail, e.value)
  {
    var s := ParamText(k, v) + tail;
    ParamRead(k, v, tail);
    assert s[0] == SEMICOLON;
    hide ParamText, Shown, Enter, ConsumeMediaParam;
    PieceRead(s, NameOf(k, v), Shown(v), tail, t);
  }

  lemma {:induction false} PieceRead(s: seq<Byte>, name: seq<Byte>, value: seq<Byte>, tail: seq<Byte>, t: Table)
    requires s != [] && s[0] == SEMICOLON && name != [] && ConsumeMediaParam(s) == Piece(name, value, tail)
    ensures var e := Enter(t, name, value);
      ParseParams(s, t) == if e.Err? then e else ParseParams(tail, e.value)
  {
    TrimStays(s);
    hide Enter, ConsumeMediaParam, TrimLeft;
  }

  function Members(ks: seq<seq<Byte>>): set<seq<Byte>> { set k | k in ks }

  /** Every RFC 2231 value is decoded to the original. */
  lemma {:induction false} StitchRestores(m: Params, t: Table)
    requires Recorded(m, m.Keys, t)
    ensures Stitch(t) == m
  {
    hide NeedsEncoding, StitchOf, Shown;
    forall k | k in t.starred
      ensures StitchOf(k, t.starred[k]) == Some(m[k])
    {
      StitchOne(k, m[k]);
    }
  }

  lemma {:induction false} StitchOne(k: seq<Byte>, v: seq<Byte>)
    requires NeedsEncoding(v)
    ensures StitchOf(k, map[k + [STAR] := Shown(v)]) == Some(v)
  {
    Decode2231RoundTrip(v);
    hide Decode2231;
  }

  predicate Visible(s: seq<Byte>) { forall i :: 0 <= i < |s| ==> 0x21 <= s[i] <= 0x7E && s[i] != SEMICOLON }

  lemma {:induction false} LastVisible(s: seq<Byte>)
    requires s != [] && 0x21 <= s[|s| - 1] <= 0x7E
    ensures TrimRight(s) == s
  {
    var n := |s|;
    assert !Continuation(s[n - 1]);
    assert LastStart(s) == n - 1;
    hide LastStart;
    assert s[n - 1..] == [s[n - 1]];
    assert DecodeRune([s[n - 1]]) == (s[n - 1], 1);
    hide DecodeRune;
    assert DecodeLast(s) == (s[n - 1], 1);
    hide DecodeLast;
  }

  lemma {:induction false} VisibleTrims(s: seq<Byte>)
    requires Visible(s)
    ensures TrimSpace(s) == s && SEMICOLON !in s
  {
    assert TrimRight([]) == [];
    hide TrimRight, TrimLeft;
    TrimStays(s);
    if s != [] {
      LastVisible(s);
    }
  }

  lemma {:induction false} TokenLower(s: seq<Byte>)
    requires IsToken(s)
    ensures IsToken(Lower(s)) && Visible(Lower(s)) && Lower(Lower(s)) == Lower(s)
  {
    assert forall i :: 0 <= i < |s| ==> Lower(s)[i] == LowerByte(s[i]) && IsTokenChar(s[i]);
  }

  lemma {:induction false} TypeLower(t: seq<Byte>)
    requires IsType(t)
    ensures var l := Lower(t); CheckType(l) == None && Visible(l) && Lower(l) == l
  {
    hide IsToken, AllTokenChars, CheckType, Lower, Visible;
    var c := CutByte(t, SLASH);
    if c.None? {
      TokenLower(t);
      TypeOne(Lower(t));
    } else {
      var (a, b) := c.value;
      TokenLower(a);
      TokenLower(b);
      TypeTwo(Lower(a), Lower(b));
      LowerCat(t, a, b);
      VisibleCat(Lower(a), Lower(b));
    }
  }

  lemma {:induction false} VisibleCat(a: seq<Byte>, b: seq<Byte>)
    requires Visible(a) && Visible(b)
    ensures Visible(a + [SLASH] + b)
  {}

  lemma {:induction false} LowerCat(t: seq<Byte>, a: seq<Byte>, b: seq<Byte>)
    requires t == a + [SLASH] + b
    ensures Lower(t) == Lower(a) + [SLASH] + Lower(b)
    ensures Lower(Lower(a)) == Lower(a) && Lower(Lower(b)) == Lower(b) ==> Lower(Lower(t)) == Lower(t)
  {}

  lemma {:induction false} TypeOne(s: seq<Byte>)
    requires IsToken(s)
    ensures CheckType(s) == None
  {
    TokenPrefix(s, []);
    assert s + [] == s;
    hide ConsumeToken;
  }

  lemma {:induction false} TypeTwo(a: seq<Byte>, b: seq<Byte>)
    requires IsToken(a) && IsToken(b)
    ensures CheckType(a + [SLASH] + b) == None
  {
    TokenPrefix(a, [SLASH] + b);
    assert a + [SLASH] + b == a + ([SLASH] + b);
    TokenPrefix(b, []);
    assert b + [] == b && ([SLASH] + b)[1..] == b;
    hide ConsumeToken;
  }

  /** After a valid type the result is that of the loop over the parameters. */
  lemma {:induction false} ParseAfterType(t: seq<Byte>, text: seq<Byte>)
    requires IsType(t) && Separated(text)
    ensures var r := ParseParams(text, Table(map[], map[]));
      Parse(Lower(t) + text) ==
        if r.Ok? then Outcome(Lower(t), Some(Stitch(r.value)), None)
        else Outcome(if r.failure == InvalidParameter then Lower(t) else [], None, Some(r.failure))
  {
    hide IsType, Lower, CheckType, TrimSpace, ParseParams, Stitch;
    TypeLower(t);
    VisibleTrims(Lower(t));
    BaseOf(Lower(t), text);
  }

  /** ParseMediaType gives back what FormatMediaType was given, in whatever order the
      parameters are written. */
  lemma {:induction false} RoundTrip(t: seq<Byte>, ks: seq<seq<Byte>>, m: Params)
    requires IsType(t) && Enumerates(ks, m) && forall k :: k in m ==> PlainKey(k)
    ensures Parse(Format(t, ks, m)) == Outcome(Lower(t), Some(m), None)
  {
    hide IsType, Lower, Parse, ParseParams, Stitch, Recorded, ParamsText, PlainKey, Format;
    var text := ParamsText(ks, m);
    var start := Table(map[], map[]);
    StartRecorded(m);
    ParamsRead(ks, m, {}, start);
    assert {} + Members(ks) == m.Keys;
    StitchRestores(m, ParseParams(text, start).value);
    ParseAfterType(t, text);
    FormatText(t, ks, m);
  }

  lemma {:induction false} StartRecorded(m: Params)
    ensures Recorded(m, {}, Table(map[], map[]))
  {}

  lemma {:induction false} FormatText(t: seq<Byte>, ks: seq<seq<Byte>>, m: Params)
    requires IsType(t) && Enumerates(ks, m) && forall k :: k in m ==> PlainKey(k)
    ensures Format(t, ks, m) == Lower(t) + ParamsText(ks, m)
  {
    hide IsType, IsToken;
  }

  lemma {:induction false} BaseOf(l: seq<Byte>, text: seq<Byte>)
    requires SEMICOLON !in l && Separated(text)
    ensures IndexByte(l + text, SEMICOLON) == |l| && (l + text)[..|l|] == l && (l + text)[|l|..] == text
  {
    var v := l + text;
    var i := IndexByte(v, SEMICOLON);
    assert forall j :: 0 <= j < |l| ==> v[j] == l[j] != SEMICOLON;
    assert text != [] ==> v[|l|] == SEMICOLON;
    assert forall j :: 0 <= j < i ==> v[j] == v[..i][j] != SEMICOLON;
  }

  // ---- every parsed name is lower-case and without a star ----

  predicate CleanName(k: seq<Byte>) { Lower(k) == k && STAR !in k }

  ghost predicate CleanTable(t: Table) {
    && (forall k :: k in t.plain ==> CleanName(k))
    && (forall k :: k in t.starred ==> CleanName(k))
  }

  lemma {:induction false} LowerTwice(s: seq<Byte>)
    ensures Lower(Lower(s)) == Lower(s)
  {}

  lemma {:induction false} EnterClean(t: Table, key: seq<Byte>, value: seq<Byte>)
    requires CleanTable(t) && Lower(key) == key
    ensures var e := Enter(t, key, value); e.Ok? ==> CleanTable(e.value)
  {
    var c := CutByte(key, STAR);
    if c.None? {
      assert CleanName(key);
    } else {
      LowerFront(key, c.value.0);
      assert CleanName(c.value.0);
    }
    hide CleanName, CutByte, Lower;
  }

  lemma {:induction false} LowerFront(s: seq<Byte>, a: seq<Byte>)
    requires a <= s && Lower(s) == s
    ensures Lower(a) == a
  {
    assert forall i :: 0 <= i < |a| ==> Lower(s)[i] == LowerByte(a[i]);
  }

  lemma {:induction false} ParamsClean(v: seq<Byte>, t: Table)
    requires CleanTable(t)
    ensures var r := ParseParams(v, t); r.Ok? ==> CleanTable(r.value)
    decreases |v|
  {
    hide CleanTable, ConsumeMediaParam, TrimLeft, Enter, Lower, TrimSpace;
    var w := TrimLeft(v);
    if w != [] {
      var p := ConsumeMediaParam(w);
      if p.key != [] {
        KeyLower(w);
        EnterClean(t, p.key, p.value);
        var e := Enter(t, p.key, p.value);
        if e.Ok? {
          ParamsClean(p.rest, e.value);
        }
      }
    }
  }

  lemma {:induction false} KeyLower(w: seq<Byte>)
    ensures var p := ConsumeMediaParam(w); Lower(p.key) == p.key
  {
    var p := ConsumeMediaParam(w);
    if p.key != [] {
      var a := TrimLeft(w);
      LowerTwice(ConsumeToken(TrimLeft(a[1..])).0);
    }
    hide TrimLeft, ConsumeToken, ConsumeValue;
  }

  /** Whatever is parsed, no name has an upper-case letter or a star. */
  lemma {:induction false} ParsedNamesClean(v: seq<Byte>)
    ensures var p := Parse(v).params; p.Some? ==> forall k :: k in p.value ==> CleanName(k)
  {
    ParamsClean(v[IndexByte(v, SEMICOLON)..], Table(map[], map[]));
    hide ParseParams, CleanName, StitchOf, TrimSpace, CheckType, IndexByte;
  }

  /** The round trip needs plain keys: with any other token among them it fails. */
  lemma {:induction false} RoundTripIff(t: seq<Byte>, ks: seq<seq<Byte>>, m: Params)
    requires IsType(t) && Enumerates(ks, m) && forall k :: k in m ==> IsToken(k)
    ensures Parse(Format(t, ks, m)).params == Some(m) <==> forall k :: k in m ==> PlainKey(k)
  {
    hide Parse, Format, IsType;
    if forall k :: k in m ==> PlainKey(k) {
      RoundTrip(t, ks, m);
    }
    ParsedNamesClean(Format(t, ks, m));
    assert forall k :: IsToken(k) && CleanName(k) ==> PlainKey(k);
    hide IsToken, CleanName, PlainKey;
  }
}
