/**
 Destination address selection, net/addrselect.go (section 6 of RFC 6724). The comparison is
 a lawful order although its last rule applies to some pairs only.
 */
module AddrSelect {
  import opened Bytes
  import opened Words

  // ---- addresses ----

  datatype RawAddr = Invalid | V4(b: seq<Byte>) | V6(b: seq<Byte>)

  predicate WellFormed(a: RawAddr) { (a.V4? ==> |a.b| == 4) && (a.V6? ==> |a.b| == 16) }

  /** netip.Addr, without zones. */
  type Addr = a: RawAddr | WellFormed(a) witness Invalid

  /** netip.AddrFromSlice. */
  function FromSlice(ip: seq<Byte>): Addr {
    if |ip| == 4 then V4(ip) else if |ip| == 16 then V6(ip) else Invalid
  }

  /** ::ffff:0:0 */
  const MAPPED: seq<Byte> := [0, 0, 0, 0, 0, 0, 0, 0, 0, 0, 0xFF, 0xFF]

  predicate Mapped(b: seq<Byte>) { |b| == 16 && b[..12] == MAPPED }

  /** IP.To4: nil, or the four bytes. */
  function To4(ip: seq<Byte>): seq<Byte> {
    if |ip| == 4 then ip else if Mapped(ip) then ip[12..] else []
  }

  function As16(a: Addr): (b: seq<Byte>)
    requires !a.Invalid?
    ensures |b| == 16
  {
    if a.V4? then MAPPED + a.b else a.b
  }

  /** The address with an IPv4-mapped one as IPv4. */
  function Unmap(a: Addr): Addr {
    if a.V6? && Mapped(a.b) then V4(a.b[12..]) else a
  }

  predicate IsLoopback(a: Addr) {
    var u := Unmap(a);
    if u.V4? then u.b[0] == 127
    else u.V6? && u.b[15] == 1 && forall i :: 0 <= i < 15 ==> u.b[i] == 0
  }

  predicate IsLinkLocalUnicast(a: Addr) {
    var u := Unmap(a);
    if u.V4? then u.b[0] == 169 && u.b[1] == 254
    else u.V6? && u.b[0] == 0xFE && u.b[1] / 0x40 == 2
  }

  predicate IsMulticast(a: Addr) {
    var u := Unmap(a);
    if u.V4? then u.b[0] / 0x10 == 0xE
    else u.V6? && u.b[0] == 0xFF
  }

  const LINK_LOCAL: nat := 0x2
  const SITE_LOCAL: nat := 0x5
  const GLOBAL: nat := 0xE

  /** classifyScope. */
  function ScopeOf(a: Addr): nat
    requires !a.Invalid?
  {
    var ipv6 := a.V6? && !Mapped(a.b);
    var b := As16(a);
    if IsLoopback(a) || IsLinkLocalUnicast(a) then LINK_LOCAL
    else if ipv6 && IsMulticast(a) then b[1] % 0x10
    else if ipv6 && b[0] == 0xFE && b[1] / 0x40 == 3 then SITE_LOCAL
    else GLOBAL
  }

  // ---- the policy table ----

  datatype Entry = Entry(prefix: seq<Byte>, bits: nat, precedence: nat, labelId: nat)

  const ZEROS: seq<Byte> := [0, 0, 0, 0, 0, 0, 0, 0, 0, 0, 0, 0, 0, 0, 0, 0]

  /** Section 2.1 of RFC 6724. */
  const TABLE: seq<Entry> := [
    Entry([0, 0, 0, 0, 0, 0, 0, 0, 0, 0, 0, 0, 0, 0, 0, 1], 128, 50, 0),
    Entry([0, 0, 0, 0, 0, 0, 0, 0, 0, 0, 0xFF, 0xFF, 0, 0, 0, 0], 96, 35, 4),
    Entry(ZEROS, 96, 1, 3),
    Entry([0x20, 1, 0, 0, 0, 0, 0, 0, 0, 0, 0, 0, 0, 0, 0, 0], 32, 5, 5),
    Entry([0x20, 2, 0, 0, 0, 0, 0, 0, 0, 0, 0, 0, 0, 0, 0, 0], 16, 30, 2),
    Entry([0x3F, 0xFE, 0, 0, 0, 0, 0, 0, 0, 0, 0, 0, 0, 0, 0, 0], 16, 1, 12),
    Entry([0xFE, 0xC0, 0, 0, 0, 0, 0, 0, 0, 0, 0, 0, 0, 0, 0, 0], 10, 1, 11),
    Entry([0xFC, 0, 0, 0, 0, 0, 0, 0, 0, 0, 0, 0, 0, 0, 0, 0], 7, 3, 13),
    Entry(ZEROS, 0, 40, 1)]

  /** Bit i of an address, the most significant first. */
  function Bit(b: seq<Byte>, i: nat): nat
    requires i < 8 * |b|
  {
    b[i / 8] / Pow2(7 - i % 8) % 2
  }

  /** Prefix.Contains, for IPv6 prefixes and addresses of 16 bytes. */
  predicate Contains(e: Entry, ip: seq<Byte>)
    requires EntryOk(e) && |ip| == 16
  {
    var k, r := e.bits / 8, e.bits % 8;
    e.prefix[..k] == ip[..k] && (r > 0 ==> e.prefix[k] / Pow2(8 - r) == ip[k] / Pow2(8 - r))
  }

  predicate EntryOk(e: Entry) { |e.prefix| == 16 && e.bits <= 128 }

  /** Sorted from the longest prefix to the shortest. */
  predicate TableOk(t: seq<Entry>) {
    && (forall i :: 0 <= i < |t| ==> EntryOk(t[i]))
    && (forall i, j :: 0 <= i < j < |t| ==> t[i].bits >= t[j].bits)
  }

  /** The loop of Classify: the first entry that contains the address. */
  method Classify(t: seq<Entry>, a: Addr) returns (e: Entry)
    requires TableOk(t) && !a.Invalid?
    ensures e == FirstMatch(t, As16(a))
  {
    var ip := As16(a);
    for i := 0 to |t|
      invariant FirstMatch(t, ip) == FirstMatch(t[i..], ip)
    {
      if Contains(t[i], ip) {
        return t[i];
      }
      assert t[i..][1..] == t[i + 1..];
    }
    return Entry([], 0, 0, 0);
  }

  function FirstMatch(t: seq<Entry>, ip: seq<Byte>): (e: Entry)
    requires |ip| == 16 && forall i :: 0 <= i < |t| ==> EntryOk(t[i])
  {
    if t == [] then Entry([], 0, 0, 0)
    else if Contains(t[0], ip) then t[0]
    else FirstMatch(t[1..], ip)
  }

  /** The first match is the longest matching prefix, if any entry matches. */
  lemma {:induction false} FirstIsLongest(t: seq<Entry>, ip: seq<Byte>, j: nat)
    requires |ip| == 16 && TableOk(t) && j < |t| && Contains(t[j], ip)
    ensures var e := FirstMatch(t, ip); e in t && EntryOk(e) && Contains(e, ip) && e.bits >= t[j].bits
  {
    if !Contains(t[0], ip) {
      FirstIsLongest(t[1..], ip, j - 1);
    }
  }

  /** Every address has a longest matching prefix in the policy table. */
  lemma {:induction false} TableClassifies(ip: seq<Byte>)
    requires |ip| == 16
    ensures TableOk(TABLE)
    ensures var e := FirstMatch(TABLE, ip);
      && e in TABLE && EntryOk(e) && Contains(e, ip)
      && forall j :: 0 <= j < |TABLE| && Contains(TABLE[j], ip) ==> TABLE[j].bits <= e.bits
  {
    assert TableOk(TABLE);
    assert Contains(TABLE[8], ip);
    forall j | 0 <= j < |TABLE| && Contains(TABLE[j], ip)
      ensures FirstMatch(TABLE, ip).bits >= TABLE[j].bits
    {
      FirstIsLongest(TABLE, ip, j);
    }
    FirstIsLongest(TABLE, ip, 8);
  }

  datatype Attr = Attr(scope: nat, precedence: nat, labelId: nat)

  /** ipAttrOf. */
  function AttrOf(a: Addr): Attr {
    if a.Invalid? then Attr(0, 0, 0)
    else
      var e := (TableFacts(); FirstMatch(TABLE, As16(a)));
      Attr(ScopeOf(a), e.precedence, e.labelId)
  }

  lemma {:induction false} TableFacts()
    ensures TableOk(TABLE)
  {}

  lemma {:induction false} MatchIn(t: seq<Entry>, ip: seq<Byte>)
    requires |ip| == 16 && forall i :: 0 <= i < |t| ==> EntryOk(t[i])
    requires forall i :: 0 <= i < |t| ==> t[i].precedence != 35
    ensures FirstMatch(t, ip).precedence != 35
  {
    hide Contains;
    if t != [] {
      MatchIn(t[1..], ip);
    }
  }

  lemma {:induction false} Match35(ip: seq<Byte>)
    requires |ip| == 16
    ensures TableOk(TABLE) && (FirstMatch(TABLE, ip).precedence == 35 <==> Mapped(ip))
  {
    TableFacts();
    SecondEntry(ip);
    FirstEntry(ip);
    hide Contains, Mapped;
    var rest := TABLE[1..];
    assert FirstMatch(TABLE, ip) == if Contains(TABLE[0], ip) then TABLE[0] else FirstMatch(rest, ip);
    assert FirstMatch(rest, ip) == if Contains(TABLE[1], ip) then TABLE[1] else FirstMatch(rest[1..], ip);
    MatchIn(rest[1..], ip);
  }

  lemma {:induction false} SecondEntry(ip: seq<Byte>)
    requires |ip| == 16
    ensures EntryOk(TABLE[1]) && (Contains(TABLE[1], ip) <==> Mapped(ip))
  {
    assert TABLE[1].prefix[..12] == MAPPED;
  }

  lemma {:induction false} FirstEntry(ip: seq<Byte>)
    requires |ip| == 16
    ensures EntryOk(TABLE[0]) && (Contains(TABLE[0], ip) ==> !Mapped(ip))
  {
    if Contains(TABLE[0], ip) {
      assert TABLE[0].prefix[..16][10] == ip[..16][10];
      assert ip[..12][10] == 0;
    }
  }

  /** The table gives precedence 35 to IPv4 addresses, mapped ones included, and to no other. */
  lemma {:induction false} Precedence35(ip: seq<Byte>)
    ensures AttrOf(FromSlice(ip)).precedence == 35 <==> To4(ip) != []
  {
    var a := FromSlice(ip);
    if !a.Invalid? {
      Match35(As16(a));
      hide FirstMatch, ScopeOf;
      assert a.V4? ==> As16(a)[..12] == MAPPED;
    }
  }

  // ---- common prefixes ----

  /** Bits left in common when a and b, bits wide, are halved until they agree. */
  function Halve(a: nat, b: nat, bits: nat): (n: nat)
    requires a != b && a < Pow2(bits) && b < Pow2(bits)
    ensures n < bits
    decreases bits
  {
    if a / 2 == b / 2 then bits - 1
    else Halve(a / 2, b / 2, bits - 1)
  }

  /** The number of common leading bits. */
  function CommonBits(a: seq<Byte>, b: seq<Byte>): (n: nat)
    requires |a| == |b|
    ensures n <= 8 * |a|
  {
    if a == [] then 0
    else if a[0] == b[0] then 8 + CommonBits(a[1..], b[1..])
    else ByteBits(a[0], b[0])
  }

  function ByteBits(a: Byte, b: Byte): (n: nat)
    requires a != b
    ensures n < 8
  {
    assert Pow2(8) == 256;
    Halve(a, b, 8)
  }

  /** commonPrefixLen, for valid a. */
  function CommonPrefixLen(a: Addr, ip: seq<Byte>): (n: nat)
    requires !a.Invalid?
    ensures n <= 64
  {
    var b := if To4(ip) != [] then To4(ip) else ip;
    if |a.b| != |b| then 0
    else if |b| > 8 then CommonBits(a.b[..8], b[..8])
    else CommonBits(a.b, b)
  }

  /** The loops of commonPrefixLen. */
  method CommonPrefixLoop(a: Addr, ip: seq<Byte>) returns (cpl: nat)
    requires !a.Invalid?
    ensures cpl == CommonPrefixLen(a, ip)
  {
    cpl := 0;
    var b := if To4(ip) != [] then To4(ip) else ip;
    var s := a.b;
    if |s| != |b| {
      return 0;
    }
    if |s| > 8 {
      s, b := s[..8], b[..8];
    }
    ghost var goal := CommonBits(s, b);
    while |s| > 0
      invariant |s| == |b| && goal == cpl + CommonBits(s, b)
    {
      if s[0] == b[0] {
        cpl := cpl + 8;
        s, b := s[1..], b[1..];
        continue;
      }
      var bits := HalveLoop(s[0], b[0]);
      return cpl + bits;
    }
  }

  method HalveLoop(a: Byte, b: Byte) returns (bits: nat)
    requires a != b
    ensures bits == ByteBits(a, b)
  {
    assert Pow2(8) == 256;
    var ab: nat, bb: nat := a, b;
    bits := 8;
    while true
      invariant bits > 0 && ab != bb && ab < Pow2(bits) && bb < Pow2(bits)
      invariant Halve(ab, bb, bits) == Halve(a, b, 8)
      decreases bits
    {
      ab := ab / 2;
      bb := bb / 2;
      bits := bits - 1;
      if ab == bb {
        return;
      }
    }
  }

  // ---- what the prefixes mean, bit by bit ----

  lemma {:induction false} HalfOfQuotient(a: nat, k: nat)
    ensures a / Pow2(k + 1) == a / Pow2(k) / 2
  {
    var p := Pow2(k);
    var q, r := a / p, a % p;
    var h := q / 2;
    DivBounds(a, p);
    assert a == q * p + r;
    assert q == 2 * h + q % 2;
    assert (2 * h + q % 2) * p == h * (2 * p) + (q % 2) * p;
    assert q % 2 == 0 || q % 2 == 1;
    assert (q % 2) * p <= p;
    DivModUnique(a, 2 * p, h, (q % 2) * p + r);
  }

  /** Bit i of a byte, the most significant first. */
  function ByteBit(a: Byte, i: nat): nat
    requires i < 8
  {
    a / Pow2(7 - i) % 2
  }

  /** The top k bits of a byte, as a number. */
  function TopOf(a: Byte, k: nat): nat
    requires k <= 8
  {
    DivBounds(a, Pow2(8 - k));
    a / Pow2(8 - k)
  }

  lemma {:induction false} TopStep(a: Byte, k: nat)
    requires 0 < k <= 8
    ensures TopOf(a, k) / 2 == TopOf(a, k - 1) && TopOf(a, k) % 2 == ByteBit(a, k - 1)
  {
    hide Pow2;
    HalfOfQuotient(a, 8 - k);
  }

  /** The top k bits of two bytes agree as numbers when they agree bit by bit. */
  lemma {:induction false} TopBits(a: Byte, b: Byte, k: nat)
    requires k <= 8
    ensures TopOf(a, k) == TopOf(b, k) <==> forall i :: 0 <= i < k ==> ByteBit(a, i) == ByteBit(b, i)
  {
    if k == 0 {
      assert Pow2(8) == 256;
    } else {
      hide TopOf, ByteBit;
      TopBits(a, b, k - 1);
      TopStep(a, k);
      TopStep(b, k);
      HalvesAgree(TopOf(a, k), TopOf(b, k));
    }
  }

  lemma {:induction false} HalvesAgree(x: nat, y: nat)
    ensures x == y <==> x / 2 == y / 2 && x % 2 == y % 2
  {}

  lemma {:induction false} HalveAt(a: nat, b: nat, bits: nat)
    requires a != b && a < Pow2(bits) && b < Pow2(bits)
    ensures var m := bits - Halve(a, b, bits);
      a / Pow2(m) == b / Pow2(m) && a / Pow2(m - 1) != b / Pow2(m - 1)
    decreases bits
  {
    if a / 2 == b / 2 {
      assert Pow2(1) == 2 && Pow2(0) == 1;
    } else {
      HalveAt(a / 2, b / 2, bits - 1);
      var m := bits - 1 - Halve(a / 2, b / 2, bits - 1);
      assert bits - Halve(a, b, bits) == m + 1;
      hide Pow2, Halve;
      QuotientOfHalf(a, m);
      QuotientOfHalf(b, m);
      QuotientOfHalf(a, m - 1);
      QuotientOfHalf(b, m - 1);
    }
  }

  lemma {:induction false} QuotientOfHalf(a: nat, k: nat)
    ensures a / 2 / Pow2(k) == a / Pow2(k + 1)
  {
    if k == 0 {
      assert Pow2(1) == 2 && Pow2(0) == 1;
    } else {
      QuotientOfHalf(a, k - 1);
      HalfOfQuotient(a / 2, k - 1);
      HalfOfQuotient(a, k);
    }
  }

  /** CommonBits counts the leading bits in common, no fewer and no more. */
  lemma {:induction false} CommonBitsExact(a: seq<Byte>, b: seq<Byte>)
    requires |a| == |b|
    ensures var n := CommonBits(a, b);
      && (forall i :: 0 <= i < n ==> Bit(a, i) == Bit(b, i))
      && (n < 8 * |a| ==> Bit(a, n) != Bit(b, n))
  {
    if a != [] {
      if a[0] == b[0] {
        CommonBitsExact(a[1..], b[1..]);
        BitsOf(a);
        BitsOf(b);
        hide Bit;
      } else {
        FirstByte(a[0], b[0]);
        BitsOf(a);
        BitsOf(b);
        hide Bit, ByteBit;
      }
    }
  }

  /** The bits of the first byte, then those of the others. */
  lemma {:induction false} BitsOf(a: seq<Byte>)
    requires a != []
    ensures forall i :: 0 <= i < 8 ==> Bit(a, i) == ByteBit(a[0], i)
    ensures forall i :: 8 <= i < 8 * |a| ==> Bit(a, i) == Bit(a[1..], i - 8)
  {
    forall i | 8 <= i < 8 * |a|
      ensures Bit(a, i) == Bit(a[1..], i - 8)
    {
      assert i / 8 == (i - 8) / 8 + 1 && i % 8 == (i - 8) % 8;
    }
  }

  lemma {:induction false} FirstByte(a: Byte, b: Byte)
    requires a != b
    ensures var n := ByteBits(a, b);
      && (forall i :: 0 <= i < n ==> ByteBit(a, i) == ByteBit(b, i))
      && ByteBit(a, n) != ByteBit(b, n)
  {
    hide TopOf, ByteBit, ByteBits, Pow2;
    var n := ByteBits(a, b);
    TopsPart(a, b);
    TopBits(a, b, n);
    TopBits(a, b, n + 1);
  }

  lemma {:induction false} TopsPart(a: Byte, b: Byte)
    requires a != b
    ensures var n := ByteBits(a, b); TopOf(a, n) == TopOf(b, n) && TopOf(a, n + 1) != TopOf(b, n + 1)
  {
    assert Pow2(8) == 256;
    hide Pow2, Halve;
    HalveAt(a, b, 8);
  }

  /** An entry contains the addresses that agree with its prefix in the first bits. */
  lemma {:induction false} ContainsBits(e: Entry, ip: seq<Byte>)
    requires EntryOk(e) && |ip| == 16
    ensures Contains(e, ip) <==> forall i :: 0 <= i < e.bits ==> Bit(e.prefix, i) == Bit(ip, i)
  {
    CommonBitsExact(e.prefix, ip);
    ContainsCommon(e.prefix, ip, e.bits);
    hide Contains, Bit, CommonBits;
  }

  /** Whole bytes and a partial one agree when that many leading bits are common. */
  lemma {:induction false} ContainsCommon(p: seq<Byte>, ip: seq<Byte>, bits: nat)
    requires |p| == |ip| && bits <= 8 * |p|
    ensures var k, r := bits / 8, bits % 8;
      (p[..k] == ip[..k] && (r > 0 ==> p[k] / Pow2(8 - r) == ip[k] / Pow2(8 - r))) <==> CommonBits(p, ip) >= bits
    decreases |p|
  {
    var k, r := bits / 8, bits % 8;
    if bits == 0 {
    } else if p[0] != ip[0] {
      FirstByte(p[0], ip[0]);
      var n := ByteBits(p[0], ip[0]);
      if bits >= 8 {
        assert p[..k][0] != ip[..k][0];
      } else {
        TopBits(p[0], ip[0], r);
        TopBits(p[0], ip[0], if n < r then n + 1 else r);
      }
    } else if bits < 8 {
      assert p[..k] == ip[..k] == [];
    } else {
      ContainsCommon(p[1..], ip[1..], bits - 8);
      assert (bits - 8) / 8 == k - 1 && (bits - 8) % 8 == r;
      assert p[..k] == [p[0]] + p[1..][..k - 1] && ip[..k] == [ip[0]] + ip[1..][..k - 1];
    }
  }
}
