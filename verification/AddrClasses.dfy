/**
 What the policy table and the scopes say of the kinds of addresses there are, and what that means
 for the order of destinations.
 */
module AddrClasses {
  import opened Bytes
  import opened Words
  import opened AddrSelect
  import opened AddrOrder

  /** The kinds of addresses of section 2.1 of RFC 6724. */
  datatype Class = Loopback | IPv4 | Compatible | Teredo | SixToFour | SixBone | SiteLocal | UniqueLocal | Native

  predicate Zero(b: seq<Byte>) { forall i :: 0 <= i < |b| ==> b[i] == 0 }

  function ClassOf(ip: seq<Byte>): Class
    requires |ip| == 16
  {
    if Zero(ip[..12]) then
      if ip[12..] == [0, 0, 0, 1] then Loopback else Compatible
    else if ip[..12] == MAPPED then IPv4
    else if ip[..4] == [0x20, 0x01, 0, 0] then Teredo
    else if ip[..2] == [0x20, 0x02] then SixToFour
    else if ip[..2] == [0x3F, 0xFE] then SixBone
    else if ip[0] == 0xFE && ip[1] >= 0xC0 then SiteLocal
    else if ip[0] == 0xFC || ip[0] == 0xFD then UniqueLocal
    else Native
  }

  function PrecedenceOf(c: Class): nat {
    match c
    case Loopback => 50
    case Native => 40
    case IPv4 => 35
    case SixToFour => 30
    case Teredo => 5
    case UniqueLocal => 3
    case Compatible => 1
    case SixBone => 1
    case SiteLocal => 1
  }

  function LabelOf(c: Class): nat {
    match c
    case Loopback => 0
    case Native => 1
    case SixToFour => 2
    case Compatible => 3
    case IPv4 => 4
    case Teredo => 5
    case SiteLocal => 11
    case SixBone => 12
    case UniqueLocal => 13
  }

  // ---- the entries of the table ----

  /** The address is in entry i. */
  predicate In(i: nat, ip: seq<Byte>)
    requires i < |TABLE| && |ip| == 16
  {
    TableFacts();
    Contains(TABLE[i], ip)
  }

  lemma {:induction false} WholeBytes(i: nat, ip: seq<Byte>, k: nat)
    requires i < |TABLE| && |ip| == 16 && k <= 16 && TABLE[i].bits == 8 * k
    ensures In(i, ip) <==> ip[..k] == TABLE[i].prefix[..k]
  {
    TableFacts();
    EntryBytes(TABLE[i], ip, k);
    hide Contains;
  }

  lemma {:induction false} EntryBytes(e: Entry, ip: seq<Byte>, k: nat)
    requires EntryOk(e) && |ip| == 16 && e.bits == 8 * k
    ensures Contains(e, ip) <==> ip[..k] == e.prefix[..k]
  {}

  lemma {:induction false} LongEntries(ip: seq<Byte>)
    requires |ip| == 16
    ensures In(0, ip) <==> ClassOf(ip).Loopback?
    ensures In(1, ip) <==> ClassOf(ip).IPv4?
    ensures In(2, ip) <==> Zero(ip[..12])
  {
    WholeBytes(0, ip, 16);
    WholeBytes(1, ip, 12);
    WholeBytes(2, ip, 12);
    hide In;
    LoopbackIs(ip);
    ZeroIs(ip[..12]);
    assert TABLE[1].prefix[..12] == MAPPED;
    assert !Zero(MAPPED) by { assert MAPPED[10] == 0xFF; }
    assert TABLE[2].prefix[..12] == ZEROS[..12];
  }

  lemma {:induction false} ZeroIs(b: seq<Byte>)
    requires |b| == 12
    ensures Zero(b) <==> b == ZEROS[..12]
  {}

  lemma {:induction false} LoopbackIs(ip: seq<Byte>)
    requires |ip| == 16
    ensures ip[..16] == TABLE[0].prefix[..16] <==> Zero(ip[..12]) && ip[12..] == [0, 0, 0, 1]
  {
    var p := TABLE[0].prefix;
    assert p == p[..12] + p[12..] && ip == ip[..12] + ip[12..];
    assert p[12..] == [0, 0, 0, 1];
    assert p[..12] == ZEROS[..12];
    assert p[..16] == p && ip[..16] == ip;
    ZeroIs(ip[..12]);
  }

  lemma {:induction false} ShortEntries(ip: seq<Byte>)
    requires |ip| == 16
    ensures In(3, ip) <==> ip[..4] == [0x20, 0x01, 0, 0]
    ensures In(4, ip) <==> ip[..2] == [0x20, 0x02]
    ensures In(5, ip) <==> ip[..2] == [0x3F, 0xFE]
    ensures In(8, ip)
  {
    WholeBytes(3, ip, 4);
    WholeBytes(4, ip, 2);
    WholeBytes(5, ip, 2);
    WholeBytes(8, ip, 0);
    hide In;
    assert TABLE[3].prefix[..4] == [0x20, 0x01, 0, 0];
    assert TABLE[4].prefix[..2] == [0x20, 0x02];
    assert TABLE[5].prefix[..2] == [0x3F, 0xFE];
  }

  lemma {:induction false} BitEntries(ip: seq<Byte>)
    requires |ip| == 16
    ensures In(6, ip) <==> ip[0] == 0xFE && ip[1] >= 0xC0
    ensures In(7, ip) <==> ip[0] == 0xFC || ip[0] == 0xFD
  {
    assert Pow2(6) == 64 && Pow2(1) == 2;
    assert TABLE[6].prefix[..1] == [0xFE] && TABLE[7].prefix[..0] == [];
    assert ip[..1] == [ip[0]] && ip[..0] == [];
  }

  // ---- classification ----

  lemma {:induction false} MatchAt(t: seq<Entry>, ip: seq<Byte>, i: nat)
    requires |ip| == 16 && i < |t| && forall j :: 0 <= j < |t| ==> EntryOk(t[j])
    requires Contains(t[i], ip) && forall j :: 0 <= j < i ==> !Contains(t[j], ip)
    ensures FirstMatch(t, ip) == t[i]
  {
    hide Contains;
    if i > 0 {
      MatchAt(t[1..], ip, i - 1);
    }
  }

  lemma {:induction false} FirstIn(ip: seq<Byte>, i: nat)
    requires |ip| == 16 && i < |TABLE| && In(i, ip) && forall j :: 0 <= j < i ==> !In(j, ip)
    ensures TableOk(TABLE) && FirstMatch(TABLE, ip) == TABLE[i]
  {
    TableFacts();
    hide Contains;
    assert forall j :: 0 <= j < i ==> In(j, ip) == Contains(TABLE[j], ip);
    MatchAt(TABLE, ip, i);
  }

  /** The place of a class in the table. */
  function EntryOf(c: Class): (i: nat)
    ensures i < 9
  {
    match c
    case Loopback => 0
    case IPv4 => 1
    case Compatible => 2
    case Teredo => 3
    case SixToFour => 4
    case SixBone => 5
    case SiteLocal => 6
    case UniqueLocal => 7
    case Native => 8
  }

  lemma {:induction false} ClassEntry(ip: seq<Byte>)
    requires |ip| == 16
    ensures In(EntryOf(ClassOf(ip)), ip) && forall j :: 0 <= j < EntryOf(ClassOf(ip)) ==> !In(j, ip)
  {
    LongEntries(ip);
    ShortEntries(ip);
    BitEntries(ip);
    StartsApart(ip);
    hide In;
    var i := EntryOf(ClassOf(ip));
    forall j | 0 <= j < i ensures !In(j, ip) {
      assert j == 0 || j == 1 || j == 2 || j == 3 || j == 4 || j == 5 || j == 6 || j == 7;
    }
  }

  lemma {:induction false} StartsApart(ip: seq<Byte>)
    requires |ip| == 16
    ensures Zero(ip[..12]) ==> ip[0] == 0 && ip[1] == 0
    ensures ip[..12] == MAPPED ==> ip[0] == 0 && ip[1] == 0
    ensures ip[..4] == [0x20, 0x01, 0, 0] ==> ip[0] == 0x20 && ip[1] == 0x01
    ensures ip[..2] == [ip[0], ip[1]]
  {
    assert ip[..12][0] == ip[0] && ip[..12][1] == ip[1];
    assert ip[..4][0] == ip[0] && ip[..4][1] == ip[1];
  }

  lemma {:induction false} EntryValues(c: Class)
    ensures TABLE[EntryOf(c)].precedence == PrecedenceOf(c) && TABLE[EntryOf(c)].labelId == LabelOf(c)
  {}

  /** Precedence and label depend on the class of the address alone. */
  lemma {:induction false} Policy(a: Addr)
    requires !a.Invalid?
    ensures AttrOf(a).precedence == PrecedenceOf(ClassOf(As16(a)))
    ensures AttrOf(a).labelId == LabelOf(ClassOf(As16(a)))
  {
    var ip := As16(a);
    ClassEntry(ip);
    FirstIn(ip, EntryOf(ClassOf(ip)));
    EntryValues(ClassOf(ip));
    hide FirstMatch, In, ClassOf, PrecedenceOf, LabelOf, EntryOf, ScopeOf;
  }

  // ---- scope ----

  /** An IPv4-mapped address is treated as the IPv4 address it stands for. */
  lemma {:induction false} MappedAlike(b: seq<Byte>)
    requires |b| == 4
    ensures AttrOf(V6(MAPPED + b)) == AttrOf(V4(b))
  {
    assert (MAPPED + b)[..12] == MAPPED && (MAPPED + b)[12..] == b;
    hide FirstMatch;
  }

  /** The scope of an IPv4 address: link-local for 127/8 and 169.254/16. */
  lemma {:induction false} ScopeOf4(b: seq<Byte>)
    requires |b| == 4
    ensures ScopeOf(V4(b)) == if b[0] == 127 || (b[0] == 169 && b[1] == 254) then LINK_LOCAL else GLOBAL
  {}

  /** The scope of an IPv6 address: the scope bits of a multicast address, link-local for ::1 and
      fe80::/10, site-local for fec0::/10. */
  lemma {:induction false} ScopeOf6(b: seq<Byte>)
    requires |b| == 16 && !ClassOf(b).IPv4?
    ensures ScopeOf(V6(b)) ==
      if b[0] == 0xFF then b[1] % 16
      else if ClassOf(b).Loopback? || (b[0] == 0xFE && 0x80 <= b[1] < 0xC0) then LINK_LOCAL
      else if ClassOf(b).SiteLocal? then SITE_LOCAL
      else GLOBAL
  {
    StartsApart(b);
    NotMapped(b);
    LoopbackBytes(b);
    assert IsLoopback(V6(b)) <==> ClassOf(b).Loopback?;
    hide IsLoopback, Mapped;
  }

  lemma {:induction false} NotMapped(b: seq<Byte>)
    requires |b| == 16 && !ClassOf(b).IPv4?
    ensures !Mapped(b)
  {
    assert !Zero(MAPPED) by { assert MAPPED[10] == 0xFF; }
  }

  lemma {:induction false} LoopbackBytes(b: seq<Byte>)
    requires |b| == 16
    ensures ClassOf(b).Loopback? <==> b[15] == 1 && forall i :: 0 <= i < 15 ==> b[i] == 0
  {
    assert forall i :: 0 <= i < 12 ==> b[..12][i] == b[i];
    assert b[12..] == [b[12], b[13], b[14], b[15]];
  }

  // ---- the order ----

  /** The source address suits the destination: same scope, same label. */
  predicate Suits(a: Info) {
    !a.src.Invalid? && a.addrAttr.scope == a.srcAttr.scope && a.addrAttr.labelId == a.srcAttr.labelId
  }

  /** A destination whose source suits it goes before every destination of a class with a lower
      precedence, so native IPv6 before IPv4 and IPv4 before 6to4, Teredo and unique local. */
  lemma {:induction false} SuitedFirst(a: Info, b: Info)
    requires Built(a) && Built(b) && Suits(a) && |a.ip| in {4, 16} && |b.ip| in {4, 16}
    requires PrecedenceOf(ClassOf(As16(FromSlice(a.ip)))) > PrecedenceOf(ClassOf(As16(FromSlice(b.ip))))
    ensures Compare(a, b) == -1
  {
    Policy(FromSlice(a.ip));
    Policy(FromSlice(b.ip));
    hide AttrOf, ClassOf, PrecedenceOf, LabelOf, CommonPrefixLen;
  }
}
