/**
 Parameter value continuations (section 3 of RFC 2231): what ParseMediaType makes of a value that
 a sender split into numbered parts, each written plainly or percent-encoded, in any order.
 */
module MediaTypeParts {
  import opened Options
  import opened Bytes
  import opened Grammar
  import opened MediaType

  /** One part of a value, and whether it is written percent-encoded. */
  datatype Part = Part(value: seq<Byte>, encoded: bool)

  /** Only printable ASCII can be written plainly, as a token or a quoted-string. */
  predicate Writable(p: Part) { p.encoded || !NeedsEncoding(p.value) }

  /** name*i, or name*i* for an encoded part. */
  function NameOfPart(k: seq<Byte>, i: nat, p: Part): seq<Byte> {
    if p.encoded then EncodedPart(k, i) else SimplePart(k, i)
  }

  /** The part's value as it reads before the parts are put together; the first encoded part names
      the charset. */
  function ShownPart(i: nat, p: Part): seq<Byte> {
    if !p.encoded then p.value
    else if i == 0 then CHARSET + Percent(p.value)
    else Percent(p.value)
  }

  function PartValueText(i: nat, p: Part): seq<Byte> {
    if p.encoded then ShownPart(i, p)
    else if IsToken(p.value) then p.value
    else [QUOTE] + Quote(p.value) + [QUOTE]
  }

  function PartText(k: seq<Byte>, i: nat, p: Part): seq<Byte> {
    [SEMICOLON, SPACE] + NameOfPart(k, i, p) + [EQUALS] + PartValueText(i, p)
  }

  /** The parts in the given order. */
  function PartsText(k: seq<Byte>, ps: seq<Part>, order: seq<nat>): seq<Byte>
    requires forall j :: 0 <= j < |order| ==> order[j] < |ps|
  {
    if order == [] then [] else PartText(k, order[0], ps[order[0]]) + PartsText(k, ps, order[1..])
  }

  function ValueOf(ps: seq<Part>): seq<seq<Byte>> { seq(|ps|, i requires 0 <= i < |ps| => ps[i].value) }

  /** order lists every part once. */
  ghost predicate Permutes(order: seq<nat>, n: nat) {
    && (forall j :: 0 <= j < |order| ==> order[j] < n)
    && (forall i: nat :: i < n ==> i in order)
    && (forall i, j :: 0 <= i < j < |order| ==> order[i] != order[j])
  }

  /** The parser does not read an empty value that is not quoted. */
  predicate Readable(i: nat, p: Part) { p.encoded && i > 0 ==> p.value != [] }

  // ---- reading one part ----

  lemma {:induction false} LowerKept(a: seq<Byte>, b: seq<Byte>)
    requires Lower(a) == a && Lower(b) == b
    ensures Lower(a + b) == a + b
  {
    assert forall i :: 0 <= i < |a| ==> LowerByte(a[i]) == Lower(a)[i] == a[i];
    assert forall i :: 0 <= i < |b| ==> LowerByte(b[i]) == Lower(b)[i] == b[i];
  }

  lemma {:induction false} PartNameRead(k: seq<Byte>, i: nat, p: Part)
    requires PlainKey(k)
    ensures var name := NameOfPart(k, i, p);
      IsToken(name) && Lower(name) == name && 0x21 <= name[0] <= 0x7E && CutByte(name, STAR) == Some((k, name[|k| + 1..]))
  {
    var name := NameOfPart(k, i, p);
    var d := if p.encoded then Decimal(i) + [STAR] else Decimal(i);
    assert name == k + [STAR] + d;
    hide Decimal, NameOfPart, PlainKey;
    StarNameRead(k, d);
  }

  lemma {:induction false} StarNameRead(k: seq<Byte>, d: seq<Byte>)
    requires PlainKey(k) && forall i :: 0 <= i < |d| ==> IsDigit(d[i]) || d[i] == STAR
    ensures var name := k + [STAR] + d;
      IsToken(name) && Lower(name) == name && 0x21 <= name[0] <= 0x7E && CutByte(name, STAR) == Some((k, name[|k| + 1..]))
  {
    hide CutByte, Lower;
    NumberLower(d);
    LowerKept(k, [STAR] + d);
    Associate(k, [STAR], d);
    TokenCharClass(k[0]);
    CutAt(k + [STAR] + d, k, d, STAR);
  }

  lemma {:induction false} NumberLower(d: seq<Byte>)
    requires forall i :: 0 <= i < |d| ==> IsDigit(d[i]) || d[i] == STAR
    ensures Lower([STAR] + d) == [STAR] + d && AllTokenChars([STAR] + d)
  {}

  lemma {:induction false} ShownVisible(i: nat, p: Part)
    requires Readable(i, p) && Writable(p)
    ensures p.encoded ==> IsToken(ShownPart(i, p))
  {
    assert p.encoded && i > 0 ==> Percent(p.value) != [];
    hide NeedsEncoding;
  }

  lemma {:induction false} PartValueRead(i: nat, p: Part, tail: seq<Byte>)
    requires Readable(i, p) && Writable(p) && Separated(tail)
    ensures var text := PartValueText(i, p);
      text != [] && 0x21 <= text[0] <= 0x7E && ConsumeValue(text + tail) == (ShownPart(i, p), tail)
  {
    hide NeedsEncoding, Percent, ConsumeValue;
    ShownVisible(i, p);
    if p.encoded || IsToken(p.value) {
      TokenRead(PartValueText(i, p), tail);
    } else {
      QuotedRead(p.value, tail);
    }
  }

  lemma {:induction false} PartRead(k: seq<Byte>, i: nat, p: Part, tail: seq<Byte>, t: Table)
    requires PlainKey(k) && Readable(i, p) && Writable(p) && Separated(tail)
    ensures var e := Enter(t, NameOfPart(k, i, p), ShownPart(i, p));
      ParseParams(PartText(k, i, p) + tail, t) == if e.Err? then e else ParseParams(tail, e.value)
  {
    PartNameRead(k, i, p);
    hide Readable, Writable, PlainKey, IsToken, Lower, CutByte, Enter, ParseParams, ConsumeValue, ConsumeMediaParam;
    PartValueRead(i, p, tail);
    hide NameOfPart, PartValueText, ShownPart;
    NamedRead(NameOfPart(k, i, p), PartValueText(i, p), ShownPart(i, p), tail);
    PieceRead(PartText(k, i, p) + tail, NameOfPart(k, i, p), ShownPart(i, p), tail, t);
  }

  // ---- a part that cannot be read ----

  lemma {:induction false} NothingRead(tail: seq<Byte>)
    requires Separated(tail)
    ensures TrimLeft(tail) == tail && ConsumeValue(tail) == ([], tail)
  {
    TrimStays(tail);
    if tail != [] {
      assert TokenLength(tail) == 0;
    }
  }

  lemma {:induction false} EmptyRead(name: seq<Byte>, tail: seq<Byte>)
    requires IsToken(name) && 0x21 <= name[0] <= 0x7E && Separated(tail)
    ensures var s := [SEMICOLON] + ([SPACE] + (name + ([EQUALS] + tail)));
      ConsumeMediaParam(s) == Piece([], [], s)
  {
    hide TrimLeft, ConsumeToken, ConsumeValue;
    var c := [EQUALS] + tail;
    var s := [SEMICOLON] + ([SPACE] + (name + c));
    TrimStays(s);
    assert s[1..] == [SPACE] + (name + c);
    TrimOneSpace(name + c);
    NameRead(name, c);
    TrimStays(c);
    assert c[1..] == tail;
    NothingRead(tail);
  }

  predicate EndsVisible(s: seq<Byte>) { s != [] && 0x21 <= s[|s| - 1] <= 0x7E }

  lemma {:induction false} PartUnread(k: seq<Byte>, i: nat, p: Part, tail: seq<Byte>, t: Table)
    requires PlainKey(k) && !Readable(i, p) && Separated(tail) && EndsVisible(PartText(k, i, p) + tail)
    ensures ParseParams(PartText(k, i, p) + tail, t) == Err(InvalidParameter)
  {
    PartNameRead(k, i, p);
    hide PlainKey, IsToken, Lower, CutByte, Enter, ConsumeValue, ConsumeMediaParam;
    var name := NameOfPart(k, i, p);
    var s := PartText(k, i, p) + tail;
    assert PartValueText(i, p) == [];
    hide NameOfPart, PartValueText;
    EmptyShape(name, tail);
    EmptyRead(name, tail);
    hide PartText;
    TrimStays(s);
    LastVisible(s);
    hide TrimLeft, TrimRight, EndsVisible;
  }

  lemma {:induction false} EmptyShape(name: seq<Byte>, tail: seq<Byte>)
    ensures [SEMICOLON, SPACE] + name + [EQUALS] + [] + tail == [SEMICOLON] + ([SPACE] + (name + ([EQUALS] + tail)))
  {}

  lemma {:induction false} PartEnds(k: seq<Byte>, i: nat, p: Part)
    ensures EndsVisible(PartText(k, i, p)) && PartText(k, i, p)[0] == SEMICOLON
  {
    hide NeedsEncoding;
    var text := PartValueText(i, p);
    if text != [] {
      if p.encoded || IsToken(p.value) {
        assert AllTokenChars(text);
        TokenCharClass(text[|text| - 1]);
      }
      hide PartValueText, NameOfPart;
      assert PartText(k, i, p)[|PartText(k, i, p)| - 1] == text[|text| - 1];
    }
  }

  lemma {:induction false} TextEnds(k: seq<Byte>, ps: seq<Part>, order: seq<nat>)
    requires forall j :: 0 <= j < |order| ==> order[j] < |ps|
    ensures Separated(PartsText(k, ps, order))
    ensures order != [] ==> EndsVisible(PartsText(k, ps, order))
    decreases |order|
  {
    hide PartText;
    if order != [] {
      PartEnds(k, order[0], ps[order[0]]);
      TextEnds(k, ps, order[1..]);
    }
  }

  // ---- the parts read so far ----

  /** The pieces are the parts in done, under their names. */
  ghost predicate Holds(k: seq<Byte>, ps: seq<Part>, done: set<nat>, pieces: Params)
    requires forall i :: i in done ==> i < |ps|
  {
    && (forall i :: i in done ==>
          NameOfPart(k, i, ps[i]) in pieces && pieces[NameOfPart(k, i, ps[i])] == ShownPart(i, ps[i]))
    && (forall name :: name in pieces ==> exists i :: i in done && name == NameOfPart(k, i, ps[i]))
  }

  ghost predicate Gathered(k: seq<Byte>, ps: seq<Part>, done: set<nat>, t: Table) {
    && (forall i :: i in done ==> i < |ps|)
    && t.plain == map[]
    && (if done == {} then t.starred == map[] else t.starred.Keys == {k} && Holds(k, ps, done, t.starred[k]))
  }

  lemma {:induction false} NamesDiffer(k: seq<Byte>, i: nat, p: Part, j: nat, q: Part)
    requires i != j
    ensures NameOfPart(k, i, p) != NameOfPart(k, j, q)
  {
    PartsDiffer(k, i, j);
    PartsDiffer(k, j, i);
    hide SimplePart, EncodedPart;
  }

  lemma {:induction false} HoldsMore(k: seq<Byte>, ps: seq<Part>, done: set<nat>, pieces: Params, i: nat)
    requires (forall j :: j in done ==> j < |ps|) && i < |ps| && i !in done && Holds(k, ps, done, pieces)
    ensures NameOfPart(k, i, ps[i]) !in pieces
    ensures Holds(k, ps, done + {i}, pieces[NameOfPart(k, i, ps[i]) := ShownPart(i, ps[i])])
  {
    forall j | j in done ensures NameOfPart(k, i, ps[i]) != NameOfPart(k, j, ps[j]) {
      NamesDiffer(k, i, ps[i], j, ps[j]);
    }
    hide NameOfPart, ShownPart;
  }

  lemma {:induction false} GatheredMore(k: seq<Byte>, ps: seq<Part>, done: set<nat>, t: Table, i: nat)
    requires PlainKey(k) && Gathered(k, ps, done, t) && i < |ps| && i !in done
    ensures var e := Enter(t, NameOfPart(k, i, ps[i]), ShownPart(i, ps[i]));
      e.Ok? && Gathered(k, ps, done + {i}, e.value)
  {
    PartNameRead(k, i, ps[i]);
    var pieces: Params := if k in t.starred then t.starred[k] else map[];
    var name, value := NameOfPart(k, i, ps[i]), ShownPart(i, ps[i]);
    hide NameOfPart, ShownPart, CutByte, PlainKey, IsToken, Lower, Enter, Gathered, Holds;
    PiecesHold(k, ps, done, t, pieces);
    HoldsMore(k, ps, done, pieces, i);
    EnterPart(t, k, pieces, name, value);
    GatheredSet(k, ps, done + {i}, t, pieces[name := value]);
  }

  lemma {:induction false} GatheredSet(k: seq<Byte>, ps: seq<Part>, done: set<nat>, t: Table, pieces: Params)
    requires t.plain == map[] && t.starred.Keys <= {k} && done != {}
    requires (forall i :: i in done ==> i < |ps|) && Holds(k, ps, done, pieces)
    ensures Gathered(k, ps, done, t.(starred := t.starred[k := pieces]))
  {
    hide Holds;
  }

  lemma {:induction false} PiecesHold(k: seq<Byte>, ps: seq<Part>, done: set<nat>, t: Table, pieces: Params)
    requires Gathered(k, ps, done, t) && pieces == if k in t.starred then t.starred[k] else map[]
    ensures (forall i :: i in done ==> i < |ps|) && Holds(k, ps, done, pieces)
    ensures t.plain == map[] && t.starred.Keys <= {k}
  {
    hide NameOfPart, ShownPart;
  }

  lemma {:induction false} EnterPart(t: Table, k: seq<Byte>, pieces: Params, name: seq<Byte>, value: seq<Byte>)
    requires CutByte(name, STAR).Some? && CutByte(name, STAR).value.0 == k
    requires pieces == (if k in t.starred then t.starred[k] else map[]) && name !in pieces
    ensures Enter(t, name, value) == Ok(t.(starred := t.starred[k := pieces[name := value]]))
  {
    hide CutByte;
  }

  function Indices(order: seq<nat>): set<nat> { set i | i in order }

  /** The loop reads all parts, or stops at the first that cannot be read. */
  lemma {:induction false} PartsRead(k: seq<Byte>, ps: seq<Part>, order: seq<nat>, done: set<nat>, t: Table)
    requires PlainKey(k) && Gathered(k, ps, done, t)
    requires forall j :: 0 <= j < |order| ==> order[j] < |ps| && order[j] !in done && Writable(ps[order[j]])
    requires forall i, j :: 0 <= i < j < |order| ==> order[i] != order[j]
    ensures var r := ParseParams(PartsText(k, ps, order), t);
      if AllReadable(ps, order) then r.Ok? && Gathered(k, ps, done + Indices(order), r.value)
      else r == Err(InvalidParameter)
    decreases |order|
  {
    hide PlainKey, Gathered, Writable, Readable, PartText, ParseParams, EndsVisible, Separated, Enter, AllReadable;
    hide NameOfPart, ShownPart;
    if order == [] {
      assert done + Indices(order) == done;
      EndRead(t);
      AllOfFirst(ps, order);
    } else {
      var i, rest := order[0], order[1..];
      var tail := PartsText(k, ps, rest);
      TextEnds(k, ps, rest);
      TextEnds(k, ps, order);
      AllOfFirst(ps, order);
      if Readable(i, ps[i]) {
        PartRead(k, i, ps[i], tail, t);
        GatheredMore(k, ps, done, t, i);
        PartsRead(k, ps, rest, done + {i}, Enter(t, NameOfPart(k, i, ps[i]), ShownPart(i, ps[i])).value);
        assert done + {i} + Indices(rest) == done + Indices(order);
      } else {
        PartUnread(k, i, ps[i], tail, t);
      }
    }
  }

  predicate AllReadable(ps: seq<Part>, order: seq<nat>)
    requires forall j :: 0 <= j < |order| ==> order[j] < |ps|
  {
    forall j :: 0 <= j < |order| ==> Readable(order[j], ps[order[j]])
  }

  lemma {:induction false} AllOfFirst(ps: seq<Part>, order: seq<nat>)
    requires forall j :: 0 <= j < |order| ==> order[j] < |ps|
    ensures AllReadable(ps, order) <==>
      order == [] || (Readable(order[0], ps[order[0]]) && AllReadable(ps, order[1..]))
  {
    hide Readable;
    assert forall j :: 0 < j < |order| ==> order[j] == order[1..][j - 1];
  }

  lemma {:induction false} EndRead(t: Table)
    ensures ParseParams([], t) == Ok(t)
  {
    TrimStays([]);
    hide TrimLeft;
  }

  // ---- putting the parts together ----

  ghost function Upto(n: nat): (r: set<nat>)
    ensures forall i :: i in r <==> 0 <= i < n
  {
    if n == 0 then {} else Upto(n - 1) + {n - 1}
  }

  lemma {:induction false} NameFound(k: seq<Byte>, ps: seq<Part>, pieces: Params, i: nat)
    requires Holds(k, ps, Upto(|ps|), pieces)
    ensures SimplePart(k, i) in pieces <==> i < |ps| && !ps[i].encoded
    ensures EncodedPart(k, i) in pieces <==> i < |ps| && ps[i].encoded
  {
    assert SimplePart(k, i) == NameOfPart(k, i, Part([], false));
    assert EncodedPart(k, i) == NameOfPart(k, i, Part([], true));
    assert |SimplePart(k, i)| != |EncodedPart(k, i)|;
    forall j | 0 <= j < |ps| && j != i
      ensures NameOfPart(k, j, ps[j]) != SimplePart(k, i) && NameOfPart(k, j, ps[j]) != EncodedPart(k, i)
    {
      NamesDiffer(k, j, ps[j], i, Part([], false));
      NamesDiffer(k, j, ps[j], i, Part([], true));
    }
    hide SimplePart, EncodedPart, ShownPart;
    if i < |ps| {
      assert i in Upto(|ps|);
    }
  }

  lemma {:induction false} PartDecodes(i: nat, p: Part)
    requires p.encoded
    ensures (if i == 0 then Decode2231(ShownPart(i, p)) else Unpercent(ShownPart(i, p))) == Some(p.value)
  {
    hide Decode2231, Unpercent, Percent;
    if i == 0 {
      Decode2231RoundTrip(p.value);
    } else {
      PercentRoundTrip(p.value);
    }
  }

  lemma {:induction false} PartsFound(k: seq<Byte>, ps: seq<Part>, pieces: Params, n: nat)
    requires Holds(k, ps, Upto(|ps|), pieces) && n <= |ps|
    ensures HasParts(k, pieces, n)
  {
    hide Holds, SimplePart, EncodedPart;
    forall i: nat | i < n ensures PartName(k, pieces, i) in pieces {
      NameFound(k, ps, pieces, i);
    }
  }

  lemma {:induction false} StitchOnePart(k: seq<Byte>, ps: seq<Part>, pieces: Params, n: nat)
    requires Holds(k, ps, Upto(|ps|), pieces) && n < |ps| && HasParts(k, pieces, n) && HasParts(k, pieces, n + 1)
    ensures StitchFrom(k, pieces, n) == ps[n].value + StitchFrom(k, pieces, n + 1)
  {
    NameFound(k, ps, pieces, n);
    assert n in Upto(|ps|);
    hide Decode2231, Unpercent, HasParts, SimplePart, EncodedPart;
    if ps[n].encoded {
      PartDecodes(n, ps[n]);
    }
  }

  /** The parts are put together in the order of their numbers, each decoded. */
  lemma {:induction false} StitchParts(k: seq<Byte>, ps: seq<Part>, pieces: Params, n: nat)
    requires Holds(k, ps, Upto(|ps|), pieces) && n <= |ps|
    ensures HasParts(k, pieces, n)
    ensures Concat(ValueOf(ps)[..n]) + StitchFrom(k, pieces, n) == Concat(ValueOf(ps))
    decreases |ps| - n
  {
    hide Holds, HasParts, StitchFrom, Concat;
    PartsFound(k, ps, pieces, n);
    var vs := ValueOf(ps);
    if n == |ps| {
      StitchEnds(k, ps, pieces);
      assert vs[..n] == vs;
      assert Concat(vs) + [] == Concat(vs);
    } else {
      StitchParts(k, ps, pieces, n + 1);
      StitchOnePart(k, ps, pieces, n);
      ConcatLength(vs, n);
      Associate(Concat(vs[..n]), vs[n], StitchFrom(k, pieces, n + 1));
    }
  }

  lemma {:induction false} StitchEnds(k: seq<Byte>, ps: seq<Part>, pieces: Params)
    requires Holds(k, ps, Upto(|ps|), pieces) && HasParts(k, pieces, |ps|)
    ensures StitchFrom(k, pieces, |ps|) == []
  {
    hide Holds, HasParts, SimplePart, EncodedPart;
    NameFound(k, ps, pieces, |ps|);
  }

  lemma {:induction false} NoSingle(k: seq<Byte>, ps: seq<Part>, pieces: Params)
    requires Holds(k, ps, Upto(|ps|), pieces)
    ensures k + [STAR] !in pieces
  {
    forall i | i in Upto(|ps|) ensures NameOfPart(k, i, ps[i]) != k + [STAR] {
      assert |NameOfPart(k, i, ps[i])| > |k| + 1;
    }
    hide NameOfPart, ShownPart;
  }

  lemma {:induction false} StitchAll(k: seq<Byte>, ps: seq<Part>, pieces: Params)
    requires Holds(k, ps, Upto(|ps|), pieces) && ps != []
    ensures StitchOf(k, pieces) == Some(Concat(ValueOf(ps)))
  {
    NoSingle(k, ps, pieces);
    StitchParts(k, ps, pieces, 0);
    PartsFound(k, ps, pieces, 1);
    hide Holds, StitchFrom;
    assert ValueOf(ps)[..0] == [];
    assert [] + StitchFrom(k, pieces, 0) == StitchFrom(k, pieces, 0);
  }

  lemma {:induction false} TableStitched(k: seq<Byte>, ps: seq<Part>, t: Table)
    requires Gathered(k, ps, Upto(|ps|), t) && ps != []
    ensures Stitch(t) == map[k := Concat(ValueOf(ps))]
  {
    assert 0 in Upto(|ps|);
    hide Holds, StitchOf, Concat, ValueOf, Upto, Stitch;
    StitchAll(k, ps, t.starred[k]);
    StitchSingle(k, t, Concat(ValueOf(ps)));
  }

  lemma {:induction false} StitchSingle(k: seq<Byte>, t: Table, v: seq<Byte>)
    requires t.plain == map[] && t.starred.Keys == {k} && StitchOf(k, t.starred[k]) == Some(v)
    ensures Stitch(t) == map[k := v]
  {
    hide StitchOf;
  }

  /** A value written in numbered parts, plain or encoded and in any order, is parsed as the parts'
      values put together in the order of their numbers. The one exception is an encoded part other
      than the first with an empty value: nothing follows its equals sign, which the parser rejects. */
  lemma {:induction false} PartsRoundTrip(t: seq<Byte>, k: seq<Byte>, ps: seq<Part>, order: seq<nat>)
    requires IsType(t) && PlainKey(k) && ps != [] && Permutes(order, |ps|)
    requires forall i :: 0 <= i < |ps| ==> Writable(ps[i])
    ensures Parse(Lower(t) + PartsText(k, ps, order)) ==
      if forall i :: 0 <= i < |ps| ==> Readable(i, ps[i])
      then Outcome(Lower(t), Some(map[k := Concat(ValueOf(ps))]), None)
      else Outcome(Lower(t), None, Some(InvalidParameter))
  {
    hide IsType, PlainKey, Lower, Parse, ParseParams, Stitch, Gathered, Writable, Readable, PartsText, Concat, ValueOf;
    var start := Table(map[], map[]);
    var text := PartsText(k, ps, order);
    StartGathered(k, ps);
    PartsRead(k, ps, order, {}, start);
    assert {} + Indices(order) == Upto(|ps|);
    TextEnds(k, ps, order);
    ParseAfterType(t, text);
    if forall i :: 0 <= i < |ps| ==> Readable(i, ps[i]) {
      TableStitched(k, ps, ParseParams(text, start).value);
    } else {
      var i: nat :| i < |ps| && !Readable(i, ps[i]);
      assert i in order;
    }
  }

  lemma {:induction false} StartGathered(k: seq<Byte>, ps: seq<Part>)
    ensures Gathered(k, ps, {}, Table(map[], map[]))
  {}
}
