/**
 compareByRFC6724 and the sort that uses it: the comparison is a total preorder on the records
 the sort builds, so a stable sort by it is well defined.
 */
module AddrOrder {
  import opened Bytes
  import opened AddrSelect

  /** byRFC6724Info: a destination, its source address, and their attributes. */
  datatype Info = Info(ip: seq<Byte>, addrAttr: Attr, src: Addr, srcAttr: Attr)

  /** A record as the sort builds it. */
  predicate Built(a: Info) {
    a.addrAttr == AttrOf(FromSlice(a.ip)) && a.srcAttr == AttrOf(a.src)
  }

  /** -1 if a is preferred, 1 if b is, 0 if neither. */
  function Compare(a: Info, b: Info): (r: int)
    ensures -1 <= r <= 1
  {
    // Rule 1: avoid unusable destinations.
    if a.src.Invalid? && b.src.Invalid? then 0
    else if b.src.Invalid? then -1
    else if a.src.Invalid? then 1
    // Rule 2: prefer matching scope.
    else if a.addrAttr.scope == a.srcAttr.scope && b.addrAttr.scope != b.srcAttr.scope then -1
    else if a.addrAttr.scope != a.srcAttr.scope && b.addrAttr.scope == b.srcAttr.scope then 1
    // Rule 5: prefer matching label.
    else if a.srcAttr.labelId == a.addrAttr.labelId && b.srcAttr.labelId != b.addrAttr.labelId then -1
    else if a.srcAttr.labelId != a.addrAttr.labelId && b.srcAttr.labelId == b.addrAttr.labelId then 1
    // Rule 6: prefer higher precedence.
    else if a.addrAttr.precedence > b.addrAttr.precedence then -1
    else if a.addrAttr.precedence < b.addrAttr.precedence then 1
    // Rule 8: prefer smaller scope.
    else if a.addrAttr.scope < b.addrAttr.scope then -1
    else if a.addrAttr.scope > b.addrAttr.scope then 1
    // Rule 9: use the longest matching prefix, for IPv6 only.
    else if To4(a.ip) == [] && To4(b.ip) == [] then
      var commonA, commonB := CommonPrefixLen(a.src, a.ip), CommonPrefixLen(b.src, b.ip);
      if commonA > commonB then -1 else if commonA < commonB then 1 else 0
    else 0
  }

  // ---- the order as a key ----

  /** A list of numbers; the smaller record is preferred. */
  function Key(a: Info): (k: seq<int>)
    ensures |k| == 6
  {
    if a.src.Invalid? then [1, 0, 0, 0, 0, 0]
    else
      var precedence: int, common: int := a.addrAttr.precedence, CommonPrefixLen(a.src, a.ip);
      [0,
       if a.addrAttr.scope == a.srcAttr.scope then 0 else 1,
       if a.srcAttr.labelId == a.addrAttr.labelId then 0 else 1,
       -precedence,
       a.addrAttr.scope,
       if To4(a.ip) == [] then -common else 0]
  }

  /** Lexicographic comparison. */
  function Lex(x: seq<int>, y: seq<int>): int
    requires |x| == |y|
  {
    if x == [] then 0
    else if x[0] < y[0] then -1
    else if x[0] > y[0] then 1
    else Lex(x[1..], y[1..])
  }

  lemma {:induction false} LexAntisymmetric(x: seq<int>, y: seq<int>)
    requires |x| == |y|
    ensures Lex(x, y) == -Lex(y, x) && (Lex(x, y) == 0 <==> x == y)
  {
    if x != [] && x[0] == y[0] {
      LexAntisymmetric(x[1..], y[1..]);
      assert x == [x[0]] + x[1..] && y == [y[0]] + y[1..];
    }
  }

  lemma {:induction false} LexTransitive(x: seq<int>, y: seq<int>, z: seq<int>)
    requires |x| == |y| == |z| && Lex(x, y) <= 0 && Lex(y, z) <= 0
    ensures Lex(x, z) <= 0 && (Lex(x, z) == 0 ==> Lex(x, y) == 0 && Lex(y, z) == 0)
  {
    if x != [] && x[0] == y[0] == z[0] {
      LexTransitive(x[1..], y[1..], z[1..]);
    }
  }

  /** One step of a lexicographic comparison. */
  lemma {:induction false} LexStep(x: seq<int>, y: seq<int>, i: nat)
    requires |x| == |y| && i < |x|
    ensures Lex(x[i..], y[i..]) == if x[i] < y[i] then -1 else if x[i] > y[i] then 1 else Lex(x[i + 1..], y[i + 1..])
  {
    assert x[i..][1..] == x[i + 1..] && y[i..][1..] == y[i + 1..];
  }

  /** Unfolded for the six numbers of a key. */
  lemma {:induction false} LexSix(x: seq<int>, y: seq<int>)
    requires |x| == 6 && |y| == 6
    ensures Lex(x, y) ==
      if x[0] != y[0] then Less(x[0], y[0]) else if x[1] != y[1] then Less(x[1], y[1])
      else if x[2] != y[2] then Less(x[2], y[2]) else if x[3] != y[3] then Less(x[3], y[3])
      else if x[4] != y[4] then Less(x[4], y[4]) else if x[5] != y[5] then Less(x[5], y[5]) else 0
  {
    assert x[0..] == x && y[0..] == y && x[6..] == [] && y[6..] == [];
    LexStep(x, y, 0);
    LexStep(x, y, 1);
    LexStep(x, y, 2);
    LexStep(x, y, 3);
    LexStep(x, y, 4);
    LexStep(x, y, 5);
    assert Lex([], []) == 0;
  }

  function Less(a: int, b: int): int { if a < b then -1 else 1 }

  /** The rules compare keys. Rule 9 can look at both addresses alone because records of equal
      precedence are both IPv4 or both not. */
  lemma {:induction false} CompareIsLex(a: Info, b: Info)
    requires Built(a) && Built(b)
    ensures Compare(a, b) == Lex(Key(a), Key(b))
  {
    Precedence35(a.ip);
    Precedence35(b.ip);
    LexSix(Key(a), Key(b));
    hide Lex, AttrOf, To4, CommonPrefixLen;
  }

  /** Antisymmetric in sign. */
  lemma {:induction false} CompareAntisymmetric(a: Info, b: Info)
    requires Built(a) && Built(b)
    ensures Compare(a, b) == -Compare(b, a)
  {
    hide Compare, Key, Lex, Built;
    CompareIsLex(a, b);
    CompareIsLex(b, a);
    LexAntisymmetric(Key(a), Key(b));
  }

  /** Transitive, also in "neither is preferred". */
  lemma {:induction false} CompareTransitive(a: Info, b: Info, c: Info)
    requires Built(a) && Built(b) && Built(c) && Compare(a, b) <= 0 && Compare(b, c) <= 0
    ensures Compare(a, c) <= 0 && (Compare(a, c) == 0 ==> Compare(a, b) == 0 && Compare(b, c) == 0)
  {
    hide Compare, Key, Lex, Built;
    CompareIsLex(a, b);
    CompareIsLex(b, c);
    CompareIsLex(a, c);
    LexTransitive(Key(a), Key(b), Key(c));
  }

  /** Without the fact about the table, rule 9 breaks transitivity: neither a nor b is preferred,
      neither b nor c, and still c is preferred to a. */
  lemma {:induction false} NeedsTable() returns (a: Info, b: Info, c: Info)
    ensures Compare(a, b) == 0 && Compare(b, c) == 0 && Compare(a, c) == 1
    ensures !Built(b)
  {
    var at := Attr(GLOBAL, 40, 1);
    var one: seq<Byte> := [0x20, 0, 0, 0, 0, 0, 0, 0, 0, 0, 0, 0, 0, 0, 0, 1];
    var two: seq<Byte> := [0x30, 0, 0, 0, 0, 0, 0, 0, 0, 0, 0, 0, 0, 0, 0, 1];
    a := Info(two, at, V6(one), at);
    b := Info([10, 0, 0, 1], at, V6(one), at);
    c := Info(one, at, V6(one), at);
    Precedence35(b.ip);
    assert To4(one) == [] && To4(two) == [] by {
      assert one[..12][0] != 0 && two[..12][0] != 0;
    }
    PrefixOfSame(one);
    PrefixOfTwo(one, two);
  }

  lemma {:induction false} PrefixOfSame(ip: seq<Byte>)
    requires |ip| == 16 && To4(ip) == []
    ensures CommonPrefixLen(V6(ip), ip) == 64
  {
    CommonBitsExact(ip[..8], ip[..8]);
  }

  lemma {:induction false} PrefixOfTwo(one: seq<Byte>, two: seq<Byte>)
    requires |one| == |two| == 16 && To4(two) == [] && one[0] != two[0]
    ensures CommonPrefixLen(V6(one), two) < 8
  {}

  // ---- sorting ----

  function Build(ip: seq<Byte>, src: Addr): (r: Info)
    ensures Built(r) && r.ip == ip && r.src == src
  {
    Info(ip, AttrOf(FromSlice(ip)), src, AttrOf(src))
  }

  predicate Sorted(s: seq<Info>) {
    forall i, j :: 0 <= i < j < |s| ==> Compare(s[i], s[j]) <= 0
  }

  predicate AllBuilt(s: seq<Info>) { forall i :: 0 <= i < |s| ==> Built(s[i]) }

  /** The records that compare equal to a, in order. */
  function Equals(a: Info, s: seq<Info>): seq<Info> {
    if s == [] then []
    else if Compare(a, s[0]) == 0 then [s[0]] + Equals(a, s[1..])
    else Equals(a, s[1..])
  }

  /** Put x in front of the first record that it is preferred to or equal with. */
  function Insert(x: Info, s: seq<Info>): (r: seq<Info>)
    ensures multiset(r) == multiset{x} + multiset(s)
  {
    if s == [] || Compare(x, s[0]) <= 0 then [x] + s
    else
      assert s == [s[0]] + s[1..];
      [s[0]] + Insert(x, s[1..])
  }

  /** A stable sort, standing for slices.SortStableFunc. */
  function StableSort(s: seq<Info>): (r: seq<Info>)
    ensures multiset(r) == multiset(s)
  {
    if s == [] then []
    else
      assert s == [s[0]] + s[1..];
      Insert(s[0], StableSort(s[1..]))
  }

  /** What a stable sort promises: the same records, in order, equals as they were. */
  ghost predicate StablySorts(s: seq<Info>, r: seq<Info>) {
    && multiset(r) == multiset(s) && Sorted(r)
    && forall a :: Built(a) ==> Equals(a, r) == Equals(a, s)
  }

  lemma {:induction false} BuiltIn(s: seq<Info>, r: seq<Info>)
    requires AllBuilt(s) && multiset(r) == multiset(s)
    ensures AllBuilt(r)
  {
    forall i | 0 <= i < |r|
      ensures Built(r[i])
    {
      assert r[i] in multiset(r);
      assert r[i] in s;
    }
  }

  lemma {:induction false} InsertSorted(x: Info, s: seq<Info>)
    requires AllBuilt([x] + s) && Sorted(s)
    ensures Sorted(Insert(x, s))
  {
    hide Compare, Built;
    var b := [x] + s;
    assert Built(b[0]) && forall i :: 0 <= i < |s| ==> Built(s[i]) by {
      assert forall i :: 0 <= i < |s| ==> b[i + 1] == s[i];
    }
    if s == [] {
    } else if Compare(x, s[0]) <= 0 {
      forall i | 0 <= i < |s|
        ensures Compare(x, s[i]) <= 0
      {
        if i > 0 {
          CompareTransitive(x, s[0], s[i]);
        }
      }
    } else {
      CompareAntisymmetric(x, s[0]);
      assert AllBuilt([x] + s[1..]);
      InsertSorted(x, s[1..]);
      FrontInsert(s[0], x, s[1..]);
    }
  }

  /** A record that comes before x and s comes before the insertion. */
  lemma {:induction false} FrontInsert(h: Info, x: Info, s: seq<Info>)
    requires Compare(h, x) <= 0 && (forall i :: 0 <= i < |s| ==> Compare(h, s[i]) <= 0) && Sorted(Insert(x, s))
    ensures Sorted([h] + Insert(x, s))
  {
    hide Compare;
    var r := Insert(x, s);
    forall i | 0 <= i < |r|
      ensures Compare(h, r[i]) <= 0
    {
      assert r[i] in multiset(r);
      assert r[i] == x || r[i] in s;
    }
    hide Insert;
    var t := [h] + r;
    assert forall i :: 0 < i < |t| ==> t[i] == r[i - 1];
  }

  /** Inserting keeps equals in order: x comes before them. */
  lemma {:induction false} InsertStable(x: Info, s: seq<Info>, a: Info)
    requires AllBuilt([x] + s) && Built(a)
    ensures Equals(a, Insert(x, s)) == Equals(a, [x] + s)
  {
    hide Compare, Built;
    var b := [x] + s;
    assert b[1..] == s && Built(b[0]);
    if s != [] && Compare(x, s[0]) > 0 {
      assert Built(b[1]) && AllBuilt([x] + s[1..]) by {
        assert forall i :: 1 <= i < |[x] + s[1..]| ==> ([x] + s[1..])[i] == b[i + 1];
      }
      InsertStable(x, s[1..], a);
      Apart(a, x, s[0]);
      var h := s[0];
      assert ([h] + Insert(x, s[1..]))[1..] == Insert(x, s[1..]);
      assert ([x] + s[1..])[1..] == s[1..];
    }
  }

  /** Records of different rank are not both equal to a. */
  lemma {:induction false} Apart(a: Info, x: Info, y: Info)
    requires Built(a) && Built(x) && Built(y) && Compare(x, y) > 0
    ensures !(Compare(a, x) == 0 && Compare(a, y) == 0)
  {
    hide Compare, Built;
    if Compare(a, x) == 0 && Compare(a, y) == 0 {
      CompareAntisymmetric(a, x);
      CompareTransitive(x, a, y);
      assert false;
    }
  }

  lemma {:induction false} StableSortSorts(s: seq<Info>)
    requires AllBuilt(s)
    ensures StablySorts(s, StableSort(s))
  {
    hide Compare, Built, Insert;
    if s != [] {
      var tail := s[1..];
      StableSortSorts(tail);
      var r := StableSort(tail);
      BuiltIn(tail, r);
      assert AllBuilt([s[0]] + r);
      InsertSorted(s[0], r);
      forall a | Built(a)
        ensures Equals(a, Insert(s[0], r)) == Equals(a, s)
      {
        InsertStable(s[0], r, a);
        assert ([s[0]] + r)[1..] == r;
      }
    }
  }

  /** There is only one stable sort. */
  lemma {:induction false} StableSortUnique(s: seq<Info>, r: seq<Info>, q: seq<Info>)
    requires AllBuilt(s) && StablySorts(s, r) && StablySorts(s, q)
    ensures r == q
  {
    hide Compare, Built;
    BuiltIn(s, r);
    BuiltIn(s, q);
    SameOrder(r, q);
  }

  lemma {:induction false} SameOrder(r: seq<Info>, q: seq<Info>)
    requires AllBuilt(r) && AllBuilt(q) && Sorted(r) && Sorted(q) && multiset(r) == multiset(q)
    requires forall a :: Built(a) ==> Equals(a, r) == Equals(a, q)
    ensures r == q
    decreases |r|
  {
    hide Compare, Built;
    SameSize(r, q);
    if r != [] {
      FirstSame(r, q);
      assert r == [r[0]] + r[1..] && q == [q[0]] + q[1..];
      Cancel(r[0], multiset(r[1..]), multiset(q[1..]));
      forall a | Built(a)
        ensures Equals(a, r[1..]) == Equals(a, q[1..])
      {
        TailEquals(a, r, q);
      }
      SameOrder(r[1..], q[1..]);
    }
  }

  lemma {:induction false} Cancel(x: Info, a: multiset<Info>, b: multiset<Info>)
    requires multiset{x} + a == multiset{x} + b
    ensures a == b
  {
    assert a == multiset{x} + a - multiset{x};
    assert b == multiset{x} + b - multiset{x};
  }

  lemma {:induction false} TailEquals(a: Info, r: seq<Info>, q: seq<Info>)
    requires r != [] && q != [] && r[0] == q[0] && Equals(a, r) == Equals(a, q)
    ensures Equals(a, r[1..]) == Equals(a, q[1..])
  {
    hide Compare;
    if Compare(a, r[0]) == 0 {
      assert Equals(a, r)[1..] == Equals(a, r[1..]);
      assert Equals(a, q)[1..] == Equals(a, q[1..]);
    }
  }

  lemma {:induction false} SameSize(r: seq<Info>, q: seq<Info>)
    requires multiset(r) == multiset(q)
    ensures |r| == |q|
  {
    assert |multiset(r)| == |r| && |multiset(q)| == |q|;
  }

  lemma {:induction false} FirstSame(r: seq<Info>, q: seq<Info>)
    requires r != [] && q != [] && AllBuilt(r) && AllBuilt(q) && Sorted(r) && Sorted(q) && multiset(r) == multiset(q)
    requires forall a :: Built(a) ==> Equals(a, r) == Equals(a, q)
    ensures r[0] == q[0]
  {
    hide Compare, Built;
    var x, y := r[0], q[0];
    assert Built(x) && Built(y);
    assert x in multiset(q) && y in multiset(r);
    assert x in q && y in r;
    Reflexive(x);
    Reflexive(y);
    assert Compare(y, x) <= 0 by {
      var i :| 0 <= i < |q| && q[i] == x;
    }
    assert Compare(x, y) <= 0 by {
      var i :| 0 <= i < |r| && r[i] == y;
    }
    CompareAntisymmetric(x, y);
    assert Equals(x, r)[0] == x && Equals(x, q)[0] == y;
  }

  lemma {:induction false} Reflexive(x: Info)
    requires Built(x)
    ensures Compare(x, x) == 0
  {
    CompareAntisymmetric(x, x);
  }

  function Ips(s: seq<Info>): seq<seq<Byte>> { seq(|s|, i requires 0 <= i < |s| => s[i].ip) }

  function Infos(addrs: seq<seq<Byte>>, srcs: seq<Addr>): (r: seq<Info>)
    requires |addrs| == |srcs|
    ensures |r| == |addrs| && AllBuilt(r)
  {
    seq(|addrs|, i requires 0 <= i < |addrs| => Build(addrs[i], srcs[i]))
  }

  /** sortByRFC6724withSrcs: overwrite the addresses with the only stable sort of them. */
  method SortWithSrcs(addrs: array<seq<Byte>>, srcs: seq<Addr>)
    requires addrs.Length == |srcs|
    modifies addrs
    ensures exists r :: StablySorts(Infos(old(addrs[..]), srcs), r) && addrs[..] == Ips(r)
    ensures multiset(addrs[..]) == multiset(old(addrs[..]))
  {
    hide Build, StableSort, StablySorts, Built;
    var infos := BuildInfos(addrs[..], srcs);
    var sorted := StableSort(infos);
    StableSortSorts(infos);
    SameSize(sorted, infos);
    IpsPermuted(sorted, infos);
    assert Ips(infos) == addrs[..];
    for i := 0 to addrs.Length
      invariant forall j :: 0 <= j < i ==> addrs[j] == sorted[j].ip
    {
      addrs[i] := sorted[i].ip;
    }
    assert addrs[..] == Ips(sorted);
  }

  /** The loop that fills addrInfos. */
  method BuildInfos(addrs: seq<seq<Byte>>, srcs: seq<Addr>) returns (r: seq<Info>)
    requires |addrs| == |srcs|
    ensures r == Infos(addrs, srcs)
  {
    hide Build, Built;
    var infos := new Info[|addrs|](i => Info([], Attr(0, 0, 0), Invalid, Attr(0, 0, 0)));
    for i := 0 to |addrs|
      invariant forall j :: 0 <= j < i ==> infos[j] == Build(addrs[j], srcs[j])
    {
      infos[i] := Build(addrs[i], srcs[i]);
    }
    r := infos[..];
  }

  lemma {:induction false} IpsPermuted(r: seq<Info>, s: seq<Info>)
    requires multiset(r) == multiset(s)
    ensures multiset(Ips(r)) == multiset(Ips(s))
    decreases |r|
  {
    SameSize(r, s);
    if r == [] {
      assert r == s;
    } else {
      assert r[0] in multiset(s);
      var i :| 0 <= i < |s| && s[i] == r[0];
      var t := s[..i] + s[i + 1..];
      Removed(s, i);
      RemovedFirst(r);
      hide Ips;
      Cancel(r[0], multiset(r[1..]), multiset(t));
      IpsPermuted(r[1..], t);
    }
  }

  lemma {:induction false} RemovedFirst(s: seq<Info>)
    requires s != []
    ensures multiset(s) == multiset{s[0]} + multiset(s[1..])
    ensures multiset(Ips(s)) == multiset{s[0].ip} + multiset(Ips(s[1..]))
  {
    assert s == [s[0]] + s[1..];
    assert Ips(s) == [s[0].ip] + Ips(s[1..]);
  }

  lemma {:induction false} Removed(s: seq<Info>, i: nat)
    requires i < |s|
    ensures var t := s[..i] + s[i + 1..];
      && multiset(s) == multiset{s[i]} + multiset(t)
      && multiset(Ips(s)) == multiset{s[i].ip} + multiset(Ips(t))
  {
    var t := s[..i] + s[i + 1..];
    assert s == s[..i] + [s[i]] + s[i + 1..];
    assert Ips(s) == Ips(s[..i]) + [s[i].ip] + Ips(s[i + 1..]);
    assert Ips(t) == Ips(s[..i]) + Ips(s[i + 1..]);
  }
}
