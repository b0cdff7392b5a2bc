/**
 The loops of mime/mediatype.go, each proved to compute its function in MediaType.
 */
module MediaTypeLoops {
  import opened Options
  import opened Bytes
  import opened Splitting
  import opened Grammar
  import opened MediaType

  lemma {:induction false} TokenLengthFrom(v: seq<Byte>, i: nat)
    requires i <= |v| && AllTokenChars(v[..i])
    ensures i == |v| || !IsTokenChar(v[i]) ==> TokenLength(v) == i
  {
    var n := TokenLength(v);
    assert forall j :: 0 <= j < i ==> v[j] == v[..i][j];
    assert forall j :: 0 <= j < n ==> v[j] == v[..n][j];
  }

  method ConsumeTokenLoop(v: seq<Byte>) returns (token: seq<Byte>, rest: seq<Byte>)
    ensures (token, rest) == ConsumeToken(v)
  {
    for i := 0 to |v|
      invariant AllTokenChars(v[..i])
    {
      TokenLengthFrom(v, i);
      if !IsTokenChar(v[i]) {
        return v[..i], v[i..];
      }
      assert v[..i + 1] == v[..i] + [v[i]];
    }
    TokenLengthFrom(v, |v|);
    assert v[..|v|] == v && v[|v|..] == [];
    return v, [];
  }

  method ConsumeValueLoop(v: seq<Byte>) returns (value: seq<Byte>, rest: seq<Byte>)
    ensures (value, rest) == ConsumeValue(v)
  {
    if v == [] {
      return [], [];
    }
    if v[0] != QUOTE {
      value, rest := ConsumeTokenLoop(v);
      return;
    }
    var buffer: seq<Byte> := [];
    var i := 1;
    while i < |v|
      invariant 1 <= i <= |v|
      invariant ConsumeQuoted(v, 1, []) == ConsumeQuoted(v, i, buffer)
    {
      var r := v[i];
      if r == QUOTE {
        return buffer, v[i + 1..];
      }
      if r == BACKSLASH && i + 1 < |v| && IsTSpecial(v[i + 1]) {
        buffer := buffer + [v[i + 1]];
        i := i + 2;
        continue;
      }
      if r == CR || r == NEWLINE {
        return [], v;
      }
      buffer := buffer + [v[i]];
      i := i + 1;
    }
    return [], v;
  }

  // ---- percent decoding: count, then fill an array of the right size ----

  /** How many % sequences s has; None if one of them is malformed. */
  function Percents(s: seq<Byte>): (n: Option<nat>)
    ensures n.Some? ==> 3 * n.value <= |s|
  {
    if s == [] then Some(0)
    else if s[0] != PERCENT then Percents(s[1..])
    else if |s| < 3 || !IsHex(s[1]) || !IsHex(s[2]) then None
    else
      var n := Percents(s[3..]);
      if n.None? then None else Some(n.value + 1)
  }

  lemma {:induction false} PercentsCounts(s: seq<Byte>)
    ensures Percents(s).None? <==> Unpercent(s).None?
    ensures Percents(s).Some? ==> |Unpercent(s).value| == |s| - 2 * Percents(s).value
    ensures Percents(s) == Some(0) ==> Unpercent(s) == Some(s)
    decreases |s|
  {
    if s != [] {
      if s[0] != PERCENT {
        PercentsCounts(s[1..]);
        assert [s[0]] + s[1..] == s;
      } else if |s| >= 3 && IsHex(s[1]) && IsHex(s[2]) {
        PercentsCounts(s[3..]);
      }
    }
  }

  /** One step of the counting loop. */
  lemma {:induction false} PercentsStep(s: seq<Byte>, i: nat)
    requires i < |s|
    ensures var bad := i + 2 >= |s| || !IsHex(s[i + 1]) || !IsHex(s[i + 2]);
      if s[i] != PERCENT then Percents(s[i..]) == Percents(s[i + 1..])
      else if bad then Percents(s[i..]).None?
      else Percents(s[i..]) == (var n := Percents(s[i + 3..]); if n.None? then None else Some(n.value + 1))
  {
    assert s[i..][1..] == s[i + 1..];
    assert i + 2 < |s| ==> s[i..][3..] == s[i + 3..];
  }

  method CountPercents(s: seq<Byte>) returns (n: Option<nat>)
    ensures n == Percents(s)
  {
    var percents: nat := 0;
    var i: nat := 0;
    assert s[0..] == s && Percents([]) == Some(0);
    hide Percents;
    while i < |s|
      invariant i <= |s|
      invariant Percents(s) == (var m := Percents(s[i..]); if m.None? then None else Some(percents + m.value))
    {
      PercentsStep(s, i);
      if s[i] != PERCENT {
        i := i + 1;
        continue;
      }
      percents := percents + 1;
      if i + 2 >= |s| || !IsHex(s[i + 1]) || !IsHex(s[i + 2]) {
        return None;
      }
      i := i + 3;
    }
    assert s[i..] == [];
    return Some(percents);
  }

  lemma {:induction false} UnpercentStep(s: seq<Byte>, i: nat)
    requires i < |s| && Unpercent(s[i..]).Some?
    ensures var r := Unpercent(s[i..]).value;
      if s[i] == PERCENT then
        i + 2 < |s| && Unpercent(s[i + 3..]).Some? && r == [HexByte(s[i + 1], s[i + 2])] + Unpercent(s[i + 3..]).value
      else Unpercent(s[i + 1..]).Some? && r == [s[i]] + Unpercent(s[i + 1..]).value
  {
    assert s[i..][1..] == s[i + 1..];
    assert i + 2 < |s| ==> s[i..][3..] == s[i + 3..];
  }

  method PercentHexUnescape(s: seq<Byte>) returns (r: Option<seq<Byte>>)
    ensures r == Unpercent(s)
  {
    var percents := CountPercents(s);
    PercentsCounts(s);
    if percents.None? {
      return None;
    }
    if percents.value == 0 {
      return Some(s);
    }
    r := FillUnescaped(s, |s| - 2 * percents.value);
  }

  /** The filling loop of percentHexUnescape. */
  method FillUnescaped(s: seq<Byte>, n: nat) returns (r: Option<seq<Byte>>)
    requires Unpercent(s).Some? && |Unpercent(s).value| == n
    ensures r == Unpercent(s)
  {
    assert Unpercent([]) == Some([]);
    hide Unpercent;
    var t := new Byte[n];
    var j: nat := 0;
    var i: nat := 0;
    ghost var whole := Unpercent(s).value;
    ghost var made: seq<Byte>, rest, todo := [], s, whole;
    while i < |s|
      invariant i <= |s| && rest == s[i..] && |made| == j <= n
      invariant Unpercent(rest) == Some(todo) && whole == made + todo
      invariant forall k :: 0 <= k < j ==> t[k] == made[k]
    {
      UnpercentStep(s, i);
      assert todo == [todo[0]] + todo[1..];
      if s[i] == PERCENT {
        t[j] := HexByte(s[i + 1], s[i + 2]);
        i := i + 3;
      } else {
        t[j] := s[i];
        i := i + 1;
      }
      MoveOne(made, todo);
      made, rest, todo := made + [t[j]], s[i..], todo[1..];
      j := j + 1;
    }
    assert rest == [];
    assert t[..] == whole;
    return Some(t[..]);
  }

  lemma {:induction false} MoveOne(a: seq<Byte>, b: seq<Byte>)
    requires b != []
    ensures a + b == a + [b[0]] + b[1..]
  {}

  // ---- writing ----

  function PercentByte(c: Byte): seq<Byte> {
    if NeedsPercent(c) then [PERCENT, UpperHex(c / 16), UpperHex(c % 16)] else [c]
  }

  lemma {:induction false} PercentAppend(v: seq<Byte>, c: Byte)
    ensures Percent(v + [c]) == Percent(v) + PercentByte(c)
  {
    PercentStep([c]);
    PercentStep(v);
    PercentStep(v + [c]);
    hide Percent, PercentByte;
    if v == [] {
      assert v + [c] == [c] && [c][1..] == [];
    } else {
      PercentAppend(v[1..], c);
      assert (v + [c])[0] == v[0] && (v + [c])[1..] == v[1..] + [c];
      Associate(PercentByte(v[0]), Percent(v[1..]), PercentByte(c));
    }
  }

  lemma {:induction false} PercentStep(v: seq<Byte>)
    ensures Percent(v) == if v == [] then [] else PercentByte(v[0]) + Percent(v[1..])
    ensures Percent([]) == []
  {}

  function QuoteByte(c: Byte): seq<Byte> {
    if c == QUOTE || c == BACKSLASH then [BACKSLASH, c] else [c]
  }

  lemma {:induction false} QuoteAppend(v: seq<Byte>, c: Byte)
    ensures Quote(v + [c]) == Quote(v) + QuoteByte(c)
  {
    QuoteStep([c]);
    QuoteStep(v);
    QuoteStep(v + [c]);
    hide Quote, QuoteByte;
    if v == [] {
      assert v + [c] == [c] && [c][1..] == [];
    } else {
      QuoteAppend(v[1..], c);
      assert (v + [c])[0] == v[0] && (v + [c])[1..] == v[1..] + [c];
      Associate(QuoteByte(v[0]), Quote(v[1..]), QuoteByte(c));
    }
  }

  lemma {:induction false} QuoteStep(v: seq<Byte>)
    ensures Quote(v) == if v == [] then [] else QuoteByte(v[0]) + Quote(v[1..])
    ensures Quote([]) == []
  {}

  /** Write value percent-encoded: runs of plain characters in one piece. */
  method WritePercent(b0: seq<Byte>, value: seq<Byte>) returns (b: seq<Byte>)
    ensures b == b0 + Percent(value)
  {
    hide Percent, NeedsPercent;
    b := b0;
    var offset: nat := 0;
    ghost var written: seq<Byte> := [];
    assert Percent([]) == [] by { PercentEmpty(); }
    for index := 0 to |value|
      invariant offset <= index && written == value[..index]
      invariant b + value[offset..index] == b0 + Percent(written)
    {
      var ch := value[index];
      PercentAppend(written, ch);
      Append(b, value[offset..index], PercentByte(ch), b0, Percent(written));
      written := written + [ch];
      if NeedsPercent(ch) {
        b := b + value[offset..index];
        offset := index + 1;
        b := b + [PERCENT];
        b := b + [UpperHex(ch / 16)];
        b := b + [UpperHex(ch % 16)];
        assert b == b0 + Percent(written);
      } else {
        assert value[offset..index + 1] == value[offset..index] + [ch];
      }
    }
    assert value[..|value|] == value && value[offset..|value|] == value[offset..];
    b := b + value[offset..];
  }

  /** A piece x after what is held back. */
  lemma {:induction false} Append(b: seq<Byte>, held: seq<Byte>, x: seq<Byte>, b0: seq<Byte>, p: seq<Byte>)
    requires b + held == b0 + p
    ensures b + (held + x) == b0 + (p + x) && b + held + x == b0 + (p + x)
  {
    assert b + (held + x) == b + held + x;
    assert b0 + (p + x) == b0 + p + x;
  }

  lemma {:induction false} PercentEmpty()
    ensures Percent([]) == [] && Quote([]) == []
  {}

  /** Write value as the inside of a quoted-string. */
  method WriteQuoted(b0: seq<Byte>, value: seq<Byte>) returns (b: seq<Byte>)
    ensures b == b0 + Quote(value)
  {
    hide Quote;
    b := b0;
    var offset: nat := 0;
    ghost var written: seq<Byte> := [];
    assert Quote([]) == [] by { PercentEmpty(); }
    for index := 0 to |value|
      invariant offset <= index && written == value[..index]
      invariant b + value[offset..index] == b0 + Quote(written)
    {
      var character := value[index];
      QuoteAppend(written, character);
      Append(b, value[offset..index], QuoteByte(character), b0, Quote(written));
      written := written + [character];
      assert value[offset..index + 1] == value[offset..index] + [character];
      if character == QUOTE || character == BACKSLASH {
        b := b + value[offset..index];
        offset := index;
        b := b + [BACKSLASH];
        assert value[offset..index + 1] == [character];
        assert b + [character] == b0 + Quote(written);
      }
    }
    assert value[..|value|] == value && value[offset..|value|] == value[offset..];
    b := b + value[offset..];
  }

  method WriteName(b0: seq<Byte>, attribute: seq<Byte>, encoded: bool) returns (b: seq<Byte>)
    ensures b == b0 + NameText(attribute, encoded)
  {
    hide Lower;
    b := b0 + [SEMICOLON];
    b := b + [SPACE];
    b := b + Lower(attribute);
    if encoded {
      b := b + [STAR];
    }
    b := b + [EQUALS];
  }

  method WriteValue(b0: seq<Byte>, value: seq<Byte>) returns (b: seq<Byte>)
    ensures b == b0 + ValueText(value)
  {
    hide NeedsEncoding, Percent, Quote, IsToken;
    if NeedsEncoding(value) {
      b := b0 + CHARSET;
      b := WritePercent(b, value);
    } else if IsToken(value) {
      b := b0 + value;
    } else {
      b := b0 + [QUOTE];
      b := WriteQuoted(b, value);
      b := b + [QUOTE];
    }
  }

  method WriteParam(b0: seq<Byte>, attribute: seq<Byte>, value: seq<Byte>) returns (b: seq<Byte>)
    ensures b == b0 + ParamText(attribute, value)
  {
    hide NeedsEncoding, NameText, ValueText;
    b := WriteName(b0, attribute, NeedsEncoding(value));
    b := WriteValue(b, value);
  }

  lemma {:induction false} ParamsTextAppend(ks: seq<seq<Byte>>, k: seq<Byte>, m: Params)
    requires k in m && forall i :: 0 <= i < |ks| ==> ks[i] in m
    ensures ParamsText(ks + [k], m) == ParamsText(ks, m) + ParamText(k, m[k])
  {
    hide ParamText;
    if ks == [] {
      assert [k][1..] == [];
    } else {
      ParamsTextAppend(ks[1..], k, m);
      assert (ks + [k])[1..] == ks[1..] + [k];
    }
  }

  /** The type in lower case, if it is a token or two tokens with a slash. */
  method WriteType(t: seq<Byte>) returns (b: Option<seq<Byte>>)
    ensures b == if IsType(t) then Some(Lower(t)) else None
  {
    var c := CutByte(t, SLASH);
    if c.None? {
      return if IsToken(t) then Some(Lower(t)) else None;
    }
    var (major, sub) := c.value;
    if !IsToken(major) || !IsToken(sub) {
      return None;
    }
    LowerCat(t, major, sub);
    hide Lower;
    return Some(Lower(major) + [SLASH] + Lower(sub));
  }

  /** FormatMediaType; ks are the sorted keys of param. */
  method FormatMediaType(t: seq<Byte>, ks: seq<seq<Byte>>, param: Params) returns (s: seq<Byte>)
    requires Enumerates(ks, param)
    ensures s == Format(t, ks, param)
  {
    hide Lower, ParamText, IsToken, IsType;
    var b := WriteType(t);
    if b.None? {
      return [];
    }
    s := b.value;
    ghost var done: seq<seq<Byte>> := [];
    for i := 0 to |ks|
      invariant done == ks[..i]
      invariant forall j :: 0 <= j < i ==> IsToken(ks[j])
      invariant s == Lower(t) + ParamsText(done, param)
    {
      if !IsToken(ks[i]) {
        return [];
      }
      s := WriteParam(s, ks[i], param[ks[i]]);
      ParamsTextAppend(done, ks[i], param);
      done := done + [ks[i]];
    }
    assert done == ks;
  }

  // ---- parsing ----

  method ConsumeMediaParamLoop(v: seq<Byte>) returns (p: Piece)
    ensures p == ConsumeMediaParam(v)
  {
    hide TrimLeft, ConsumeToken, ConsumeValue, Lower;
    var fail := Piece([], [], v);
    var rest := TrimLeft(v);
    if rest == [] || rest[0] != SEMICOLON {
      return fail;
    }
    var param;
    param, rest := ConsumeTokenLoop(TrimLeft(rest[1..]));
    if param == [] {
      return fail;
    }
    rest := TrimLeft(rest);
    if rest == [] || rest[0] != EQUALS {
      return fail;
    }
    rest := TrimLeft(rest[1..]);
    var value, rest2 := ConsumeValueLoop(rest);
    if value == [] && rest2 == rest {
      return fail;
    }
    return Piece(Lower(param), value, rest2);
  }

  /** The loop that fills params and continuation. */
  method ReadParams(v0: seq<Byte>) returns (r: Result<Table>)
    ensures r == ParseParams(v0, Table(map[], map[]))
  {
    var params: Params := map[];
    var continuation: map<seq<Byte>, Params> := map[];
    var v := v0;
    hide TrimLeft, TrimSpace, ConsumeMediaParam, CutByte;
    while |v| > 0
      invariant ParseParams(v0, Table(map[], map[])) == ParseParams(v, Table(params, continuation))
      decreases |v|
    {
      ghost var t := Table(params, continuation);
      v := TrimLeft(v);
      if |v| == 0 {
        return Ok(Table(params, continuation));
      }
      var p := ConsumeMediaParamLoop(v);
      if p.key == [] {
        if TrimSpace(p.rest) == [SEMICOLON] {
          return Ok(Table(params, continuation));
        }
        return Err(InvalidParameter);
      }
      var c := CutByte(p.key, STAR);
      if c.None? {
        if p.key in params && params[p.key] != p.value {
          return Err(DuplicateName);
        }
        params := params[p.key := p.value];
      } else {
        var base := c.value.0;
        var pmap: Params := if base in continuation then continuation[base] else map[];
        if p.key in pmap && pmap[p.key] != p.value {
          return Err(DuplicateName);
        }
        continuation := continuation[base := pmap[p.key := p.value]];
      }
      assert Enter(t, p.key, p.value) == Ok(Table(params, continuation));
      v := p.rest;
    }
    NoParams(Table(params, continuation));
    return Ok(Table(params, continuation));
  }

  lemma {:induction false} NoParams(t: Table)
    ensures ParseParams([], t) == Ok(t)
  {}

  /** The loop over the numbered parts of one parameter. */
  method JoinParts(key: seq<Byte>, pieces: Params) returns (valid: bool, buf: seq<Byte>)
    ensures valid <==> PartName(key, pieces, 0) in pieces
    ensures buf == StitchFrom(key, pieces, 0)
  {
    hide SimplePart, EncodedPart, Decode2231, Unpercent;
    valid, buf := false, [];
    var n: nat := 0;
    ghost var whole := StitchFrom(key, pieces, 0);
    while true
      invariant HasParts(key, pieces, n) && (valid <==> n > 0)
      invariant whole == buf + StitchFrom(key, pieces, n)
      decreases |pieces| - n
    {
      PartsBound(key, pieces, n);
      var simplePart := SimplePart(key, n);
      if simplePart in pieces {
        valid := true;
        buf := buf + pieces[simplePart];
      } else {
        var encodedPart := EncodedPart(key, n);
        if encodedPart !in pieces {
          break;
        }
        valid := true;
        var v := pieces[encodedPart];
        var decv;
        if n == 0 {
          decv := Decode2231(v);
        } else {
          decv := PercentHexUnescape(v);
        }
        if decv.Some? {
          buf := buf + decv.value;
        }
      }
      PartsBound(key, pieces, n + 1);
      n := n + 1;
    }
  }

  /** Stitch the continuations together, in any order. */
  method StitchLoop(t: Table) returns (params: Params)
    ensures params == Stitch(t)
  {
    params := t.plain;
    var todo := t.starred.Keys;
    ghost var done: set<seq<Byte>> := {};
    hide StitchOf;
    while todo != {}
      invariant done + todo == t.starred.Keys && done !! todo
      invariant params == Stitched(t, done)
      decreases todo
    {
      var key :| key in todo;
      todo := todo - {key};
      var pieces := t.starred[key];
      var v := StitchKey(key, pieces);
      if v.Some? {
        params := params[key := v.value];
      }
      StitchedMore(t, done, key);
      done := done + {key};
    }
    StitchedAll(t);
  }

  /** The parameters once the names in done are stitched. */
  ghost function Stitched(t: Table, done: set<seq<Byte>>): Params {
    map k | k in t.plain.Keys + t.starred.Keys && (k in t.plain || (k in done && StitchOf(k, t.starred[k]).Some?))
      :: if k in done && k in t.starred && StitchOf(k, t.starred[k]).Some? then StitchOf(k, t.starred[k]).value else t.plain[k]
  }

  lemma {:induction false} StitchedMore(t: Table, done: set<seq<Byte>>, key: seq<Byte>)
    requires key in t.starred && key !in done
    ensures var v := StitchOf(key, t.starred[key]);
      Stitched(t, done + {key}) == if v.Some? then Stitched(t, done)[key := v.value] else Stitched(t, done)
  {
    hide StitchOf;
  }

  lemma {:induction false} StitchedAll(t: Table)
    ensures Stitched(t, t.starred.Keys) == Stitch(t)
  {
    hide StitchOf;
  }

  method StitchKey(key: seq<Byte>, pieces: Params) returns (v: Option<seq<Byte>>)
    ensures v == StitchOf(key, pieces)
  {
    hide Decode2231, StitchFrom;
    if key + [STAR] in pieces {
      return Decode2231(pieces[key + [STAR]]);
    }
    var valid, buf := JoinParts(key, pieces);
    return if valid then Some(buf) else None;
  }

  method ParseMediaType(v: seq<Byte>) returns (r: Outcome)
    ensures r == Parse(v)
  {
    hide TrimSpace, Lower, CheckType, ParseParams, Stitch;
    var base := v[..IndexByte(v, SEMICOLON)];
    var mediatype := TrimSpace(Lower(base));
    var e := CheckType(mediatype);
    if e.Some? {
      return Outcome([], None, e);
    }
    var t := ReadParams(v[|base|..]);
    if t.Err? {
      return Outcome(if t.failure == InvalidParameter then mediatype else [], None, Some(t.failure));
    }
    var params := StitchLoop(t.value);
    return Outcome(mediatype, Some(params), None);
  }
}
