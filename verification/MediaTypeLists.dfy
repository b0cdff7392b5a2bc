/**
 What ParseMediaType accepts: a type in any case, any list of parameters with white space between
 the parts, values in each of the three forms, and semicolons at the end; and what it says of names
 given twice and of types that are none.
 */
module MediaTypeLists {
  import opened Options
  import opened Bytes
  import opened Utf8
  import opened Splitting
  import opened Grammar
  import opened MediaType

  // ---- white space ----

  predicate Blank(s: seq<Byte>) { forall i :: 0 <= i < |s| ==> s[i] == SPACE || 9 <= s[i] <= 13 }

  lemma {:induction false} TrimBlank(ws: seq<Byte>, s: seq<Byte>)
    requires Blank(ws) && (s == [] || 0x21 <= s[0] <= 0x7E)
    ensures TrimLeft(ws + s) == s
  {
    if ws == [] {
      assert ws + s == s;
      TrimStays(s);
    } else {
      TrimBlank(ws[1..], s);
      var t := ws + s;
      assert t[1..] == ws[1..] + s;
      assert DecodeRune(t) == (ws[0], 1);
      assert SkipSpaces(t) == 1 + SkipSpaces(t[1..]);
      assert t[SkipSpaces(t)..] == t[1..][SkipSpaces(t[1..])..];
    }
  }

  lemma {:induction false} TrimBehind(s: seq<Byte>, ws: seq<Byte>)
    requires Blank(ws) && s != [] && 0x21 <= s[|s| - 1] <= 0x7E
    ensures TrimRight(s + ws) == s
    decreases |ws|
  {
    if ws == [] {
      assert s + ws == s;
      LastVisible(s);
    } else {
      var t, n := s + ws, |s + ws|;
      TrimBehind(s, ws[..|ws| - 1]);
      assert t[..n - 1] == s + ws[..|ws| - 1];
      LastBlank(t);
      hide DecodeLast;
    }
  }

  lemma {:induction false} LastBlank(s: seq<Byte>)
    requires s != [] && Blank(s[|s| - 1..])
    ensures DecodeLast(s).1 == 1 && IsSpace(DecodeLast(s).0)
  {
    var n := |s|;
    assert s[n - 1..] == [s[n - 1]];
    assert s[n - 1..][0] == s[n - 1];
    assert !Continuation(s[n - 1]);
    assert LastStart(s) == n - 1;
    assert DecodeRune([s[n - 1]]) == (s[n - 1], 1);
  }

  // ---- parameters ----

  datatype Form = Token | Quoted | Extended

  /** A parameter as it is written: its name in any case, its value in one of three forms, and white
      space behind the semicolon, the name, the equals sign and the value. */
  datatype Param = Param(name: seq<Byte>, value: seq<Byte>, form: Form,
                         gap0: seq<Byte>, gap1: seq<Byte>, gap2: seq<Byte>, gap3: seq<Byte>) {
    predicate Proper() {
      && IsToken(name) && STAR !in name
      && (form.Token? ==> IsToken(value)) && (form.Quoted? ==> !NeedsEncoding(value))
      && Blank(gap0) && Blank(gap1) && Blank(gap2) && Blank(gap3)
    }

    function Key(): seq<Byte> { Lower(name) }

    /** The name with a star for the extended form. */
    function FullName(): seq<Byte> { if form.Extended? then name + [STAR] else name }

    /** The value as it is read before the extended form is decoded. */
    function Read(): seq<Byte> { if form.Extended? then CHARSET + Percent(value) else value }

    function ValueWritten(): seq<Byte> { if form.Quoted? then [QUOTE] + Quote(value) + [QUOTE] else Read() }

    function Text(): seq<Byte> {
      [SEMICOLON] + (gap0 + (FullName() + (gap1 + ([EQUALS] + (gap2 + (ValueWritten() + gap3))))))
    }
  }

  function Text(ps: seq<Param>, end: seq<Byte>): seq<Byte> {
    if ps == [] then end else ps[0].Text() + Text(ps[1..], end)
  }

  predicate AllProper(ps: seq<Param>) { forall i :: 0 <= i < |ps| ==> ps[i].Proper() }

  /** The end of a header: nothing, or a semicolon with white space behind it. */
  predicate IsEnd(end: seq<Byte>) { end == [] || (end[0] == SEMICOLON && Blank(end[1..])) }

  lemma {:induction false} ValueOf(p: Param, tail: seq<Byte>)
    requires p.Proper() && Ended(tail)
    ensures var v := p.ValueWritten();
      v != [] && 0x21 <= v[0] <= 0x7E && ConsumeValue(v + tail) == (p.Read(), tail)
  {
    hide NeedsEncoding, Percent, ConsumeValue;
    if p.form.Quoted? {
      QuotedRead(p.value, tail);
    } else {
      assert AllTokenChars(p.Read());
      TokenRead(p.Read(), tail);
    }
  }

  lemma {:induction false} NameOf(p: Param, tail: seq<Byte>)
    requires p.Proper() && tail != [] && (tail[0] == EQUALS || tail[0] <= SPACE)
    ensures var n := p.FullName();
      IsToken(n) && 0x21 <= n[0] <= 0x7E && ConsumeToken(n + tail) == (n, tail)
    ensures Lower(p.FullName()) == if p.form.Extended? then p.Key() + [STAR] else p.Key()
    ensures STAR !in p.Key()
  {
    hide ConsumeToken, NeedsEncoding;
    assert IsTokenChar(p.name[0]);
    TokenCharClass(p.name[0]);
    TokenPrefix(p.FullName(), tail);
    assert Lower(p.name + [STAR]) == Lower(p.name) + [STAR];
    assert forall i :: 0 <= i < |p.name| ==> Lower(p.name)[i] == LowerByte(p.name[i]) && p.name[i] != STAR;
  }

  /** A parameter is read with the white space inside it; that behind it is left. */
  lemma {:induction false} ParamIsRead(p: Param, tail: seq<Byte>)
    requires p.Proper() && Separated(tail)
    ensures ConsumeMediaParam(p.Text() + tail) == Piece(Lower(p.FullName()), p.Read(), p.gap3 + tail)
  {
    assert p.name != [];
    hide ConsumeMediaParam, ConsumeValue, ConsumeToken, TrimLeft, Lower, IsToken;
    var rest := p.gap3 + tail;
    EndedGap(p.gap3, tail);
    ValueOf(p, rest);
    var d := p.ValueWritten() + rest;
    assert |d| > |rest|;
    var c := [EQUALS] + (p.gap2 + d);
    var b := p.gap1 + c;
    EqualsGap(p.gap1, c);
    NameOf(p, b);
    TrimBlank(p.gap2, d);
    TrimBlank(p.gap1, c);
    assert p.FullName() != [];
    TrimBlank(p.gap0, p.FullName() + b);
    TextIs(p, tail);
    var a := p.gap0 + (p.FullName() + b);
    TrimStays([SEMICOLON] + a);
    hide Param.Read, Param.FullName, Param.ValueWritten, Param.Text, Param.Proper;
    ShapeRead(a, p.FullName(), b, c, p.gap2 + d, d, p.Read(), rest);
  }

  lemma {:induction false} EndedGap(ws: seq<Byte>, tail: seq<Byte>)
    requires Blank(ws) && Separated(tail)
    ensures Ended(ws + tail)
  {}

  lemma {:induction false} EqualsGap(ws: seq<Byte>, c: seq<Byte>)
    requires Blank(ws) && c != [] && c[0] == EQUALS
    ensures ws + c != [] && ((ws + c)[0] == EQUALS || (ws + c)[0] <= SPACE)
  {}

  lemma {:induction false} TextIs(p: Param, tail: seq<Byte>)
    ensures p.Text() + tail == [SEMICOLON] + (p.gap0 + (p.FullName() + (p.gap1 + ([EQUALS] + (p.gap2 + (p.ValueWritten() + (p.gap3 + tail)))))))
  {
    var v := p.ValueWritten();
    var n := p.FullName();
    hide Param.ValueWritten, Param.FullName;
    Associate(v, p.gap3, tail);
    Associate(p.gap2, v + p.gap3, tail);
    Associate([EQUALS], p.gap2 + (v + p.gap3), tail);
    Associate(p.gap1, [EQUALS] + (p.gap2 + (v + p.gap3)), tail);
    Associate(n, p.gap1 + ([EQUALS] + (p.gap2 + (v + p.gap3))), tail);
    Associate(p.gap0, n + (p.gap1 + ([EQUALS] + (p.gap2 + (v + p.gap3)))), tail);
    Associate([SEMICOLON], p.gap0 + (n + (p.gap1 + ([EQUALS] + (p.gap2 + (v + p.gap3))))), tail);
  }

  // ---- one round of the loop ----

  lemma {:induction false} GapSkipped(ws: seq<Byte>, tail: seq<Byte>, t: Table)
    requires Blank(ws) && Separated(tail)
    ensures ParseParams(ws + tail, t) == ParseParams(tail, t)
  {
    TrimBlank(ws, tail);
    TrimStays(tail);
    SameTrimmed(ws + tail, tail, t);
  }

  lemma {:induction false} SameTrimmed(v: seq<Byte>, w: seq<Byte>, t: Table)
    requires TrimLeft(v) == TrimLeft(w)
    ensures ParseParams(v, t) == ParseParams(w, t)
  {
    hide TrimLeft, ConsumeMediaParam, Enter, TrimSpace;
  }

  /** The name a parameter is entered under, and the value. */
  function Entered(t: Table, p: Param): Result<Table> {
    Enter(t, if p.form.Extended? then p.Key() + [STAR] else p.Key(), p.Read())
  }

  lemma {:induction false} OneEntered(p: Param, tail: seq<Byte>, t: Table)
    requires p.Proper() && Separated(tail)
    ensures var e := Entered(t, p);
      ParseParams(p.Text() + tail, t) == if e.Err? then e else ParseParams(tail, e.value)
  {
    ParamIsRead(p, tail);
    NameOf(p, [EQUALS]);
    assert Blank(p.gap3);
    TextStarts(p);
    hide Param.Text, Param.Proper, Param.Read, ParseParams, ConsumeMediaParam, Enter, ConsumeToken, Lower, IsToken;
    var name := Lower(p.FullName());
    assert name != [] by { assert |name| == |p.FullName()|; }
    PieceRead(p.Text() + tail, name, p.Read(), p.gap3 + tail, t);
    var e := Entered(t, p);
    if e.Ok? {
      GapSkipped(p.gap3, tail, e.value);
    }
  }

  lemma {:induction false} TextStarts(p: Param)
    requires p.Proper()
    ensures p.Text() != [] && p.Text()[0] == SEMICOLON && p.FullName() != []
  {
    hide NeedsEncoding;
  }

  /** A semicolon at the end is ignored. */
  lemma {:induction false} EndIgnored(end: seq<Byte>, t: Table)
    requires IsEnd(end)
    ensures ParseParams(end, t) == Ok(t)
  {
    if end == [] {
      TrimStays(end);
    } else {
      var ws := end[1..];
      assert end == [SEMICOLON] + ws;
      TrimStays(end);
      NoName(ws);
      TrimBehind([SEMICOLON], ws);
      hide TrimLeft, TrimRight, ConsumeMediaParam, Enter;
    }
  }

  lemma {:induction false} NoName(ws: seq<Byte>)
    requires Blank(ws)
    ensures ConsumeMediaParam([SEMICOLON] + ws) == Piece([], [], [SEMICOLON] + ws)
  {
    var s := [SEMICOLON] + ws;
    TrimStays(s);
    assert s[1..] == ws == ws + [];
    TrimBlank(ws, []);
    assert ConsumeToken([]) == ([], []);
    hide TrimLeft, ConsumeToken, ConsumeValue;
  }

  // ---- the table ----

  /** The first n parameters are in the table, and nothing else is. */
  ghost predicate Recorded(ps: seq<Param>, n: nat, t: Table)
    requires n <= |ps|
  {
    && (forall i :: 0 <= i < n && !ps[i].form.Extended? ==>
          ps[i].Key() in t.plain && t.plain[ps[i].Key()] == ps[i].value)
    && (forall i :: 0 <= i < n && ps[i].form.Extended? ==>
          ps[i].Key() in t.starred && t.starred[ps[i].Key()] == map[ps[i].Key() + [STAR] := ps[i].Read()])
    && (forall k :: k in t.plain ==> exists i :: 0 <= i < n && !ps[i].form.Extended? && ps[i].Key() == k)
    && (forall k :: k in t.starred ==> exists i :: 0 <= i < n && ps[i].form.Extended? && ps[i].Key() == k)
  }

  /** A name given twice in the same form, with different values. */
  predicate Clash(p: Param, q: Param) {
    p.Key() == q.Key() && p.form.Extended? == q.form.Extended? && p.value != q.value
  }

  /** Parameter n clashes with one before it. */
  ghost predicate Clashes(ps: seq<Param>, n: nat)
    requires n < |ps|
  {
    exists i :: 0 <= i < n && Clash(ps[i], ps[n])
  }

  lemma {:induction false} ReadInjective(p: Param, q: Param)
    requires p.form.Extended? == q.form.Extended?
    ensures p.Read() == q.Read() <==> p.value == q.value
  {
    Decode2231RoundTrip(p.value);
    Decode2231RoundTrip(q.value);
    hide Decode2231, Percent;
  }

  lemma {:induction false} EnterPlainParam(ps: seq<Param>, n: nat, t: Table)
    requires n < |ps| && Recorded(ps, n, t) && STAR !in ps[n].Key() && !ps[n].form.Extended?
    ensures var e := Entered(t, ps[n]);
      if Clashes(ps, n) then e == Err(DuplicateName)
      else e.Ok? && Recorded(ps, n + 1, e.value)
  {
    var k := ps[n].Key();
    assert CutByte(k, STAR) == None;
    hide CutByte, Param.Key, Lower;
    var v := ps[n].value;
    assert Entered(t, ps[n]) == if k in t.plain && t.plain[k] != v then Err(DuplicateName) else Ok(t.(plain := t.plain[k := v]));
    hide Entered, Enter;
    if k in t.plain && t.plain[k] != v {
      var i :| 0 <= i < n && !ps[i].form.Extended? && ps[i].Key() == k;
      assert Clash(ps[i], ps[n]);
    } else {
      PlainNext(ps, n, t);
    }
  }

  lemma {:induction false} PlainNext(ps: seq<Param>, n: nat, t: Table)
    requires n < |ps| && Recorded(ps, n, t) && !ps[n].form.Extended?
    requires ps[n].Key() in t.plain ==> t.plain[ps[n].Key()] == ps[n].value
    ensures Recorded(ps, n + 1, t.(plain := t.plain[ps[n].Key() := ps[n].value])) && !Clashes(ps, n)
  {
    hide Param.Key, Param.Read;
  }

  lemma {:induction false} EnterExtended(ps: seq<Param>, n: nat, t: Table)
    requires n < |ps| && Recorded(ps, n, t) && STAR !in ps[n].Key() && ps[n].form.Extended?
    ensures var e := Entered(t, ps[n]);
      if Clashes(ps, n) then e == Err(DuplicateName)
      else e.Ok? && Recorded(ps, n + 1, e.value)
  {
    var k := ps[n].Key();
    var r := ps[n].Read();
    CutAt(k + [STAR], k, [], STAR);
    forall i | 0 <= i < n && ps[i].form.Extended? ensures ps[i].Read() == r <==> ps[i].value == ps[n].value {
      ReadInjective(ps[i], ps[n]);
    }
    hide CutByte, Param.Key, Lower, Param.Read;
    if k in t.starred {
      Again(ps, n, t);
    } else {
      assert Entered(t, ps[n]) == Ok(t.(starred := t.starred[k := map[k + [STAR] := r]]));
      hide Entered, Enter;
      FirstTime(ps, n, t);
    }
  }

  lemma {:induction false} FirstTime(ps: seq<Param>, n: nat, t: Table)
    requires n < |ps| && Recorded(ps, n, t) && ps[n].form.Extended? && ps[n].Key() !in t.starred
    ensures Recorded(ps, n + 1, t.(starred := t.starred[ps[n].Key() := map[ps[n].Key() + [STAR] := ps[n].Read()]]))
    ensures forall i :: 0 <= i < n ==> !Clash(ps[i], ps[n])
  {
    hide Param.Key, Param.Read;
  }

  lemma {:induction false} Again(ps: seq<Param>, n: nat, t: Table)
    requires n < |ps| && Recorded(ps, n, t) && ps[n].form.Extended? && ps[n].Key() in t.starred
    requires CutByte(ps[n].Key() + [STAR], STAR) == Some((ps[n].Key(), []))
    requires forall i :: 0 <= i < n && ps[i].form.Extended? ==> (ps[i].Read() == ps[n].Read() <==> ps[i].value == ps[n].value)
    ensures var e := Entered(t, ps[n]);
      if Clashes(ps, n) then e == Err(DuplicateName)
      else e.Ok? && Recorded(ps, n + 1, e.value)
  {
    var k, r := ps[n].Key(), ps[n].Read();
    var i :| 0 <= i < n && ps[i].form.Extended? && ps[i].Key() == k;
    var q := ps[i].Read();
    hide CutByte, Param.Key, Lower, Param.Read, Enter;
    EnterAgain(t, k, q, r);
    hide Entered;
    if q == r {
      SameAgain(ps, n, t, i);
    } else {
      assert Clash(ps[i], ps[n]);
    }
  }

  lemma {:induction false} EnterAgain(t: Table, k: seq<Byte>, q: seq<Byte>, r: seq<Byte>)
    requires CutByte(k + [STAR], STAR) == Some((k, [])) && k in t.starred && t.starred[k] == map[k + [STAR] := q]
    ensures Enter(t, k + [STAR], r) == if q == r then Ok(t) else Err(DuplicateName)
  {
    hide CutByte;
    var name := k + [STAR];
    var pieces := t.starred[k];
    assert name in pieces && pieces[name] == q;
    assert pieces[name := q] == pieces;
    assert t.starred[k := pieces] == t.starred;
  }

  lemma {:induction false} SameAgain(ps: seq<Param>, n: nat, t: Table, i: nat)
    requires i < n < |ps| && Recorded(ps, n, t) && ps[n].form.Extended? && ps[i].form.Extended?
    requires ps[i].Key() == ps[n].Key() && ps[i].Read() == ps[n].Read()
    requires forall i :: 0 <= i < n && ps[i].form.Extended? ==> (ps[i].Read() == ps[n].Read() <==> ps[i].value == ps[n].value)
    ensures Recorded(ps, n + 1, t) && forall j :: 0 <= j < n ==> !Clash(ps[j], ps[n])
  {
    hide Param.Key, Param.Read;
    var k := ps[n].Key();
    forall j | 0 <= j < n ensures !Clash(ps[j], ps[n]) {
      if ps[j].form.Extended? && ps[j].Key() == k {
        assert t.starred[k][k + [STAR]] == ps[j].Read();
        assert t.starred[k][k + [STAR]] == ps[i].Read();
      }
    }
  }

  // ---- the loop ----

  /** Some parameter from n on clashes with one before it. */
  ghost predicate ClashFrom(ps: seq<Param>, n: nat) {
    exists i, j :: 0 <= i < j < |ps| && n <= j && Clash(ps[i], ps[j])
  }

  lemma {:induction false} ClashStep(ps: seq<Param>, n: nat)
    requires n < |ps|
    ensures ClashFrom(ps, n) <==> Clashes(ps, n) || ClashFrom(ps, n + 1)
  {
    hide Clash;
    if ClashFrom(ps, n) {
      var i, j :| 0 <= i < j < |ps| && n <= j && Clash(ps[i], ps[j]);
    }
  }

  lemma {:induction false} ListRead(ps: seq<Param>, n: nat, end: seq<Byte>, t: Table)
    requires n <= |ps| && Recorded(ps, n, t) && IsEnd(end) && AllProper(ps)
    ensures Separated(Text(ps[n..], end))
    ensures var r := ParseParams(Text(ps[n..], end), t);
      if ClashFrom(ps, n) then r == Err(DuplicateName) else r.Ok? && Recorded(ps, |ps|, r.value)
    decreases |ps| - n
  {
    hide Recorded, Param.Proper, Param.Text, ParseParams, ClashFrom, Entered, Separated, Text, IsEnd;
    TailSeparated(ps, n, end);
    if n == |ps| {
      NoClash(ps);
      AllRead(ps, end);
      EndIgnored(end, t);
    } else {
      var p := ps[n];
      assert p.Proper();
      TextOf(ps, n, end);
      ClashStep(ps, n);
      EnterNext(ps, n, t);
      TailSeparated(ps, n + 1, end);
      OneEntered(p, Text(ps[n + 1..], end), t);
      if Entered(t, p).Ok? {
        ListRead(ps, n + 1, end, Entered(t, p).value);
      }
    }
  }

  lemma {:induction false} NoClash(ps: seq<Param>)
    ensures !ClashFrom(ps, |ps|)
  {}

  lemma {:induction false} AllRead(ps: seq<Param>, end: seq<Byte>)
    ensures Text(ps[|ps|..], end) == end
  {}

  lemma {:induction false} TextOf(ps: seq<Param>, n: nat, end: seq<Byte>)
    requires n < |ps| && AllProper(ps)
    ensures Text(ps[n..], end) == ps[n].Text() + Text(ps[n + 1..], end) && ps[n].Text() != [] && ps[n].Text()[0] == SEMICOLON
  {
    TextStarts(ps[n]);
    hide Param.Text;
    assert ps[n..][1..] == ps[n + 1..];
  }

  lemma {:induction false} TailSeparated(ps: seq<Param>, n: nat, end: seq<Byte>)
    requires n <= |ps| && IsEnd(end) && AllProper(ps)
    ensures Separated(Text(ps[n..], end))
  {
    if n < |ps| {
      TextOf(ps, n, end);
    }
  }

  lemma {:induction false} EnterNext(ps: seq<Param>, n: nat, t: Table)
    requires n < |ps| && Recorded(ps, n, t) && ps[n].Proper()
    ensures var e := Entered(t, ps[n]);
      if Clashes(ps, n) then e == Err(DuplicateName)
      else e.Ok? && Recorded(ps, n + 1, e.value)
  {
    NameOf(ps[n], [EQUALS]);
    hide Clashes, Entered, Recorded, Param.Proper, Param.Key, Param.Read, Clash, Enter, Lower, ConsumeToken, IsToken, Param.FullName;
    if ps[n].form.Extended? {
      EnterExtended(ps, n, t);
    } else {
      EnterPlainParam(ps, n, t);
    }
  }

  // ---- the result ----

  /** The names are those of the list, and each has its extended value, or else its plain one. */
  ghost predicate Agrees(ps: seq<Param>, m: Params) {
    && (forall i :: 0 <= i < |ps| ==> ps[i].Key() in m)
    && (forall k :: k in m ==> exists i :: 0 <= i < |ps| && ps[i].Key() == k)
    && (forall i :: 0 <= i < |ps| && ps[i].form.Extended? ==> m[ps[i].Key()] == ps[i].value)
    && (forall i :: 0 <= i < |ps| && OnlyPlain(ps, ps[i].Key()) ==> m[ps[i].Key()] == ps[i].value)
  }

  /** No parameter gives the name in the extended form. */
  ghost predicate OnlyPlain(ps: seq<Param>, k: seq<Byte>) {
    forall j :: 0 <= j < |ps| && ps[j].form.Extended? ==> ps[j].Key() != k
  }

  lemma {:induction false} StitchExtended(k: seq<Byte>, v: seq<Byte>)
    ensures StitchOf(k, map[k + [STAR] := CHARSET + Percent(v)]) == Some(v)
  {
    Decode2231RoundTrip(v);
    hide Decode2231, Percent;
  }

  lemma {:induction false} StitchAgrees(ps: seq<Param>, t: Table)
    requires Recorded(ps, |ps|, t)
    ensures Agrees(ps, Stitch(t))
  {
    hide StitchOf, Param.Key, Stitch;
    forall i | 0 <= i < |ps| && ps[i].form.Extended? ensures StitchOf(ps[i].Key(), t.starred[ps[i].Key()]) == Some(ps[i].value) {
      StitchExtended(ps[i].Key(), ps[i].value);
    }
    hide Param.Read;
    forall k | k in t.starred ensures StitchOf(k, t.starred[k]).Some? {
      var i :| 0 <= i < |ps| && ps[i].form.Extended? && ps[i].Key() == k;
    }
    StitchKeys(t);
  }

  lemma {:induction false} StitchKeys(t: Table)
    requires forall k :: k in t.starred ==> StitchOf(k, t.starred[k]).Some?
    ensures Stitch(t).Keys == t.plain.Keys + t.starred.Keys
    ensures forall k :: k in t.starred ==> Stitch(t)[k] == StitchOf(k, t.starred[k]).value
    ensures forall k :: k in t.plain && k !in t.starred ==> Stitch(t)[k] == t.plain[k]
  {
    hide StitchOf;
  }

  // ---- the type ----

  lemma {:induction false} SpacedType(before: seq<Byte>, t: seq<Byte>, after: seq<Byte>)
    requires Blank(before) && Blank(after) && IsType(t)
    ensures var base := before + t + after;
      TrimSpace(Lower(base)) == Lower(t) && SEMICOLON !in base && CheckType(Lower(t)) == None
  {
    assert t != [] by { assert IsToken(t) || |t| > 0; }
    hide CheckType, IsType, Lower, TrimLeft, TrimRight;
    TypeLower(t);
    var l := Lower(t);
    LowerSpaced(before, t, after);
    hide Blank;
    Associate(before, l, after);
    TrimBlank(before, l + after);
    TrimBehind(l, after);
  }

  lemma {:induction false} LowerSpaced(before: seq<Byte>, t: seq<Byte>, after: seq<Byte>)
    requires Blank(before) && Blank(after) && Visible(Lower(t))
    ensures Lower(before + t + after) == before + Lower(t) + after && SEMICOLON !in before + t + after
  {
    assert forall i :: 0 <= i < |t| ==> Lower(t)[i] == LowerByte(t[i]);
  }

  /** ParseMediaType on a valid type and a list of parameters: DuplicateName when a name is given
      twice in the same form with different values, and otherwise the type in lower case and the
      parameters, an extended value before a plain one. */
  lemma {:induction false} ListParsed(before: seq<Byte>, t: seq<Byte>, after: seq<Byte>, ps: seq<Param>, end: seq<Byte>)
    requires Blank(before) && Blank(after) && IsType(t) && IsEnd(end)
    requires AllProper(ps)
    ensures var r := Parse(before + t + after + Text(ps, end));
      if ClashFrom(ps, 0) then r == Outcome([], None, Some(DuplicateName))
      else r.mediatype == Lower(t) && r.failure.None? && Agrees(ps, r.params.value)
  {
    hide IsType, Param.Proper, Blank, Lower, CheckType, TrimSpace, ParseParams, Stitch, ClashFrom, Agrees, Param.Text;
    var start := Table(map[], map[]);
    SpacedType(before, t, after);
    assert ps[0..] == ps;
    assert Recorded(ps, 0, start);
    hide Recorded;
    ListRead(ps, 0, end, start);
    var text := Text(ps, end);
    BaseOf(before + t + after, text);
    var r := ParseParams(text, start);
    if r.Ok? {
      StitchAgrees(ps, r.value);
    }
  }

  // ---- types that are none ----

  /** The check accepts types and nothing else, and says what is wrong with the rest. */
  lemma {:induction false} TypeChecked(s: seq<Byte>)
    ensures CheckType(s).None? <==> IsType(s)
    ensures CheckType(s) == Some(NoMediaType) <==> s == [] || !IsTokenChar(s[0])
  {}

  lemma {:induction false} TypeRejected(a: seq<Byte>, rest: seq<Byte>)
    requires IsToken(a) && rest != [] && !IsTokenChar(rest[0])
    ensures CheckType(a + rest) ==
      if rest[0] != SLASH then Some(NoSlash)
      else if |rest| == 1 || !IsTokenChar(rest[1]) then Some(NoSubtype)
      else if IsToken(rest[1..]) then None
      else Some(UnexpectedContent)
  {
    TokenPrefix(a, rest);
    var b := rest[1..];
    var (sub, more) := ConsumeToken(b);
    assert b != [] ==> b[0] == rest[1];
    assert sub == [] <==> b == [] || !IsTokenChar(b[0]);
    assert more == [] ==> sub == b;
    assert AllTokenChars(b) ==> more == [];
    hide ConsumeToken;
  }

  // ---- quoted-strings ----

  /** No byte ends the string, and every backslash stands before a byte that needs no escape. */
  predicate Raw(w: seq<Byte>) {
    && (forall i :: 0 <= i < |w| ==> w[i] != QUOTE && w[i] != CR && w[i] != NEWLINE)
    && (forall i :: 0 <= i < |w| && w[i] == BACKSLASH ==> i + 1 < |w| && !IsTSpecial(w[i + 1]))
  }

  /** A backslash that escapes nothing is taken literally, as in a Windows path. */
  lemma {:induction false} RawQuoted(v: seq<Byte>, i: nat, w: seq<Byte>, acc: seq<Byte>, tail: seq<Byte>)
    requires i <= |v| && Raw(w) && v[i..] == w + [QUOTE] + tail
    ensures ConsumeQuoted(v, i, acc) == Some((acc + w, |v| - |tail| - 1))
    decreases |w|
  {
    var q := w + [QUOTE] + tail;
    assert v[i] == q[0];
    if w == [] {
      assert acc + w == acc;
    } else {
      assert i + 1 < |v| && v[i + 1] == q[1];
      assert v[i + 1..] == q[1..] == w[1..] + [QUOTE] + tail;
      RawTail(w);
      RawQuoted(v, i + 1, w[1..], acc + [w[0]], tail);
      assert acc + [w[0]] + w[1..] == acc + w;
    }
  }

  lemma {:induction false} RawTail(w: seq<Byte>)
    requires Raw(w) && w != []
    ensures Raw(w[1..])
  {}

  /** A quoted-string that is never closed, or broken by a line end, is no value. */
  lemma {:induction false} QuoteBroken(v: seq<Byte>, i: nat, acc: seq<Byte>, n: nat)
    requires i <= n <= |v| && (n < |v| ==> v[n] == CR || v[n] == NEWLINE)
    requires forall j :: i <= j < n ==> v[j] != QUOTE
    ensures ConsumeQuoted(v, i, acc) == None
    decreases n - i
  {
    if i < n {
      if v[i] == BACKSLASH && i + 1 < |v| && IsTSpecial(v[i + 1]) {
        QuoteBroken(v, i + 2, acc + [v[i + 1]], n);
      } else if v[i] != CR && v[i] != NEWLINE {
        QuoteBroken(v, i + 1, acc + [v[i]], n);
      }
    }
  }
}
