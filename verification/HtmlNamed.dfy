/**
 Named character references, with their semicolon or without: the entity of that name, else the
 longest prefix of up to six bytes that is one, else plain text.
 */
module HtmlNamed {
  import opened Bytes
  import opened Utf8
  import opened Grammar
  import opened Html

  /** A name behind an ampersand, and perhaps a semicolon. */
  datatype Name = Name(letters: seq<Byte>, semicolon: bool) {
    predicate Proper() { forall i :: 0 <= i < |letters| ==> IsAlnum(letters[i]) }

    function Text(): seq<Byte> { letters + (if semicolon then [SEMICOLON] else []) }

    /** The name ends before tail. */
    predicate EndsAt(tail: seq<Byte>) {
      semicolon || tail == []
      || (!IsAlnum(tail[0]) && tail[0] != SEMICOLON && (letters == [] ==> tail[0] != HASH))
    }
  }

  predicate IsEntity(t: Tables, name: seq<Byte>) { One(t, name) != 0 || Two(t, name).0 != 0 }

  /** A prefix that stands for itself, although the name goes on. */
  predicate IsPrefixEntity(t: Tables, name: seq<Byte>, j: nat) {
    2 <= j <= LONGEST_WITHOUT_SEMICOLON && j < |name| && One(t, name[..j]) != 0
  }

  lemma {:induction false} LettersEnd(s: seq<Byte>, i: nat, e: nat)
    requires i <= e <= |s| && forall j :: i <= j < e ==> IsAlnum(s[j])
    ensures NameEnd(s, i) == NameEnd(s, e)
    decreases e - i
  {
    if i < e {
      LettersEnd(s, i + 1, e);
    }
  }

  lemma {:induction false} NameTaken(f: Name, tail: seq<Byte>)
    requires f.Proper() && f.EndsAt(tail)
    ensures var s := [AMPERSAND] + f.Text() + tail;
      NameEnd(s, 1) == 1 + |f.Text()| && s[1..1 + |f.Text()|] == f.Text() && s[..1 + |f.Text()|] == [AMPERSAND] + f.Text()
    ensures var s := [AMPERSAND] + f.Text() + tail; s[1 + |f.Text()|..] == tail && (|s| > 1 ==> s[1] != HASH)
  {
    var s := [AMPERSAND] + f.Text() + tail;
    var e := 1 + |f.letters|;
    assert forall j :: 1 <= j < e ==> s[j] == f.letters[j - 1];
    LettersEnd(s, 1, e);
    assert s[1 + |f.Text()|..] == tail;
    if f.semicolon {
      assert s[e] == SEMICOLON;
    } else if tail != [] {
      assert s[e] == tail[0];
    }
  }

  /** An entity's name, as long as it goes on, stands for the entity's one or two runes. */
  lemma {:induction false} EntityStands(t: Tables, f: Name, tail: seq<Byte>)
    requires f.Proper() && f.EndsAt(tail) && f.Text() != [] && IsEntity(t, f.Text())
    ensures var name := f.Text();
      Unescape(t, [AMPERSAND] + name + tail) ==
        (if One(t, name) != 0 then Encoded(One(t, name)) else Encoded(Two(t, name).0) + Encoded(Two(t, name).1))
          + Unescape(t, tail)
  {
    NameTaken(f, tail);
    hide NameEnd, Encoded, PrefixEntity;
  }

  /** A name that is no entity stands for its longest prefix that is one, and the rest follows. */
  lemma {:induction false} PrefixStands(t: Tables, f: Name, tail: seq<Byte>, j: nat)
    requires f.Proper() && f.EndsAt(tail) && f.Text() != [] && !IsEntity(t, f.Text())
    requires IsPrefixEntity(t, f.Text(), j) && forall m: nat :: m > j ==> !IsPrefixEntity(t, f.Text(), m)
    ensures Unescape(t, [AMPERSAND] + f.Text() + tail)
      == Encoded(One(t, f.Text()[..j])) + Unescape(t, f.Text()[j..] + tail)
  {
    var name := f.Text();
    var s := [AMPERSAND] + name + tail;
    NameTaken(f, tail);
    var k := PrefixEntity(t, name, MaxPrefix(name));
    assert k == j by {
      assert k > 0 ==> IsPrefixEntity(t, name, k);
    }
    assert s[j + 1..] == name[j..] + tail;
    hide NameEnd, Encoded, PrefixEntity;
  }

  /** Anything else is plain text. */
  lemma {:induction false} NoEntityStays(t: Tables, f: Name, tail: seq<Byte>)
    requires f.Proper() && f.EndsAt(tail)
    requires f.Text() == [] || (!IsEntity(t, f.Text()) && forall m: nat :: !IsPrefixEntity(t, f.Text(), m))
    ensures Unescape(t, [AMPERSAND] + f.Text() + tail) == [AMPERSAND] + f.Text() + Unescape(t, tail)
  {
    var name := f.Text();
    NameTaken(f, tail);
    var k := PrefixEntity(t, name, MaxPrefix(name));
    assert name != [] && k > 0 ==> IsPrefixEntity(t, name, k);
    hide NameEnd, Encoded, PrefixEntity;
  }
}
