/**
 The software fused multiply-add of math/fma.go. The main result, `FmaCorrect`, is that
 for all finite arguments the function returns the correctly rounded value of the exact
 x*y+z, including subnormal results, overflow, exact cancellation and signed zeros.
 */
module Fma {
  import opened Words
  import opened Float64
  import opened DoubleWord

  datatype Parts = Parts(negative: bool, exp: int, mantissa: Word)

  /** Sign, biased exponent and 53-bit mantissa; subnormals are normalized. */
  function Split(b: Word): (r: Parts) {
    var mantissa := Fraction(b);
    if Exponent(b) == 0 then
      FractionZeros(mantissa);
      var shift := LeadingZeros(mantissa) - 11;
      Parts(Negative(b), 1 - shift, Words.Shl(mantissa, shift))
    else Parts(Negative(b), Exponent(b), mantissa + FRAC)
  }

  lemma {:induction false} FractionZeros(f: nat)
    requires f < FRAC
    ensures BitLen(f) <= 52
  {
    hide Pow2;
    Pow2Is64();
    BitLenBound(f, 52);
  }

  /** A signed two-word mantissa on the scale of a biased exponent. */
  datatype Operand = Operand(negative: bool, exp: int, hi: Word, lo: Word)

  function Product(x: Parts, y: Parts): (p: Operand) {
    var a, b := Words.Shl(x.mantissa, 10), Words.Shl(y.mantissa, 11);
    ProductFits(a, b);
    NormalizedProduct(x.negative != y.negative, x.exp + y.exp - BIAS + 1, (a * b) / W64, (a * b) % W64)
  }

  /** Moves the top bit of the product to position 62 of the high word. */
  function NormalizedProduct(negative: bool, pe: int, pm1: Word, pm2: Word): (p: Operand) {
    var is62zero := And(Shr(Not(pm1), 62), 1);
    var (hi, lo) := ShlPair(pm1, pm2, is62zero);
    Operand(negative, pe - is62zero, hi, lo)
  }

  lemma {:induction false} ProductFits(a: Word, b: Word)
    ensures (a * b) / W64 < W64
  {
    MulMonotone(a, W64 - 1, b);
    MulMonotone(b, W64 - 1, W64 - 1);
  }

  function Addend(z: Parts): (a: Operand) {
    Operand(z.negative, z.exp, Words.Shl(z.mantissa, 10), 0)
  }

  /** bits.Add64 on both words. */
  function AddPair(u1: Word, u2: Word, v1: Word, v2: Word): (r: (Word, Word)) {
    var c := (u2 + v2) / W64;
    ((u1 + v1 + c) % W64, (u2 + v2) % W64)
  }

  /** bits.Sub64 on both words. */
  function SubPair(u1: Word, u2: Word, v1: Word, v2: Word): (r: (Word, Word)) {
    var c := if u2 < v2 then 1 else 0;
    ((u1 - v1 - c) % W64, (u2 - v2) % W64)
  }

  function LeadingZerosPair(u1: Word, u2: Word): (l: nat)
    ensures l <= 128
  {
    if LeadingZeros(u1) == 64 then 64 + LeadingZeros(u2) else LeadingZeros(u1)
  }

  function SumMantissa(p: Operand, z1: Word, z2: Word): (r: (int, Word)) {
    var (s1, s2) := AddPair(p.hi, p.lo, z1, z2);
    var pe := p.exp - Shr(Not(s1), 63);
    Pow2Is64();
    (pe, ShrCompress(s1, s2, 64 + Shr(s1, 63)).1)
  }

  function DifferenceMantissa(p: Operand, z1: Word, z2: Word): (r: (int, Word)) {
    var (s1, s2) := SubPair(p.hi, p.lo, z1, z2);
    var nz := LeadingZerosPair(s1, s2);
    var (m, rest) := ShlPair(s1, s2, USub(nz, 1));
    (p.exp - nz, OrWord(m, Nonzero(rest)))
  }

  /** The final rounding: m has its top bit at position 62. */
  function RoundPack(negative: bool, pe: int, m: Word): (r: Word) {
    if pe > 1022 + BIAS || (pe == 1022 + BIAS && Shr(Words.Add(m, 512), 63) == 1) then
      WithSign(negative, INF)
    else
      var m1 := if pe < 0 then OrWord(Shr(m, -pe), Nonzero(And(m, USub(Words.Shl(1, -pe), 1)))) else m;
      var pe1 := if pe < 0 then 0 else pe;
      var tie := m1 % 1024 == 512;
      var m2 := AndNot(Shr(Words.Add(m1, 512), 10), if tie then 1 else 0);
      var pe2 := if m2 != 0 then pe1 else 0;
      Words.Add(Words.Add(if negative then SIGN else 0, Words.Shl(pe2, 52)), m2)
  }

  /** The sum of two operands, the larger magnitude first. */
  function Combine(p: Operand, z: Operand): (r: Word) {
    if p.negative != z.negative && p.exp == z.exp && p.hi == z.hi && p.lo == z.lo then 0
    else
      var (z1, z2) := ShrCompress(z.hi, z.lo, (p.exp - z.exp) % W64);
      var (pe, m) := if p.negative == z.negative then SumMantissa(p, z1, z2)
                     else DifferenceMantissa(p, z1, z2);
      RoundPack(p.negative, pe, m)
  }

  function Fma(x: Word, y: Word, z: Word): (r: Word) {
    if IsZero(x) || IsZero(y) || !Finite(x) || !Finite(y) then Float64.Add(Float64.Mul(x, y), z)
    else if IsZero(z) then Float64.Mul(x, y)
    else if !Finite(z) then z
    else
      var p, a := Product(Split(x), Split(y)), Addend(Split(z));
      if p.exp < a.exp || (p.exp == a.exp && p.hi < a.hi) then Combine(a, p) else Combine(p, a)
  }

  // ---- the final rounding ----

  const BIT62: nat := 0x4000_0000_0000_0000

  lemma {:induction false} StickyWord(m: Word, n: nat)
    ensures OrWord(Shr(m, n), Nonzero(And(m, USub(Words.Shl(1, n), 1)))) == Sticky(m, n)
  {
    hide Pow2, Or, And;
    var q := Shr(m, n);
    OrOne(q);
    OrZero(q);
    if n < 64 {
      OneShifted(n);
      AndMask(m, n);
    } else {
      Pow2Is64();
      AndMask(m, 64);
      DivByHuge(m, n);
    }
  }

  /** h is m/1024 rounded to nearest, ties to even. */
  predicate Nearest1024(m: nat, h: nat) {
    && 1024 * h <= m + 512
    && m <= 1024 * h + 512
    && (1024 * h == m + 512 || m == 1024 * h + 512 ==> h % 2 == 0)
  }

  lemma {:induction false} RoundedMantissa(m: Word)
    requires m < W63
    ensures var tie := m % 1024 == 512;
      Nearest1024(m, AndNot(Shr(Words.Add(m, 512), 10), if tie then 1 else 0))
  {
    hide Pow2, AndNot;
    Pow2Small();
    var v := Shr(Words.Add(m, 512), 10);
    assert v == (m + 512) / 1024;
    AndNotMask(v, 1);
    AndNotZero(v);
    hide Shr, Words.Add, Nearest1024;
    RoundedQuotient(m, (m + 512) / 1024, (m + 512) % 1024);
  }

  /** Adding half and dropping ten bits rounds to nearest; clearing the last bit mends a tie. */
  lemma {:induction false} RoundedQuotient(m: nat, v: nat, r: nat)
    requires m + 512 == 1024 * v + r && r < 1024
    ensures Nearest1024(m, if m % 1024 == 512 then v - v % 2 else v)
  {
    assert m % 1024 == 512 <==> r == 0;
  }

  /** Comparing N/2^1275 with c halves on scale q is comparing m with 512c. */
  lemma {:induction false} CompareOnScale(N: nat, q: nat, m: nat, c: nat)
    requires Approximates(N, Pow2(q + 1265), m)
    ensures 2 * N < (c * Pow2(q)) * Pow2(1275) <==> m < 512 * c
    ensures 2 * N == (c * Pow2(q)) * Pow2(1275) <==> m == 512 * c
  {
    hide Pow2, Approximates;
    Pow2Add(q, 1265);
    Thousandfold();
    ApproximateCompare(N, Pow2(q + 1265), m, 512 * c);
    CompareDoubled(N, c, Pow2(q), Pow2(1265));
  }

  lemma {:induction false} Thousandfold()
    ensures Pow2(1275) == 1024 * Pow2(1265)
  {
    hide Pow2;
    Pow2Small();
    Pow2Add(10, 1265);
  }

  lemma {:induction false} CompareDoubled(N: nat, c: nat, a: nat, b: nat)
    ensures 2 * N < (c * a) * (1024 * b) <==> N < (512 * c) * (a * b)
    ensures 2 * N == (c * a) * (1024 * b) <==> N == (512 * c) * (a * b)
  {
    ScaleIdentity(c, a, b);
  }

  lemma {:induction false} ScaleIdentity(c: nat, a: nat, b: nat)
    ensures (c * a) * (1024 * b) == 2 * ((512 * c) * (a * b))
  {
    var x := a * b;
    assert (c * a) * (1024 * b) == 1024 * (c * x);
    assert (512 * c) * x == 512 * (c * x);
  }

  lemma {:induction false} RoundsOnScale(N: nat, q: nat, m: nat, h: nat)
    requires Approximates(N, Pow2(q + 1265), m)
    requires Nearest1024(m, h) && m < W63
    requires q == 0 || m >= BIT62
    requires q * FRAC + h < INF
    ensures RoundsTo(N, Pow2(1275), q * FRAC + h)
  {
    hide Pow2, Approximates, Value, RoundsTo;
    var b := q * FRAC + h;
    assert h <= 2 * FRAC;
    assert q > 0 ==> h >= FRAC;
    assert b % 2 == h % 2;
    RoundsOnScaleLow(N, q, m, h);
    RoundsOnScaleHigh(N, q, m, h);
    RoundsToFromSides(N, Pow2(1275), b);
  }

  lemma {:induction false} RoundsToFromSides(N: nat, D: nat, b: nat)
    requires b < INF && AboveLow(N, D, b) && BelowHigh(N, D, b)
    ensures RoundsTo(N, D, b)
  {}

  lemma {:induction false} RoundsOnScaleHigh(N: nat, q: nat, m: nat, h: nat)
    requires Approximates(N, Pow2(q + 1265), m)
    requires Nearest1024(m, h)
    requires h <= 2 * FRAC && (q > 0 ==> h >= FRAC)
    requires q * FRAC + h < INF
    ensures BelowHigh(N, Pow2(1275), q * FRAC + h)
  {
    hide Pow2, Approximates, Value;
    var c := if h < 2 * FRAC then 2 * h + 1 else 2 * h + 2;
    MidpointAbove(q, h);
    CompareOnScale(N, q, m, c);
    assert (q * FRAC + h) % 2 == h % 2;
  }

  lemma {:induction false} RoundsOnScaleLow(N: nat, q: nat, m: nat, h: nat)
    requires Approximates(N, Pow2(q + 1265), m)
    requires Nearest1024(m, h)
    requires h <= 2 * FRAC && (q > 0 ==> h >= FRAC && m >= BIT62)
    ensures AboveLow(N, Pow2(1275), q * FRAC + h)
  {
    hide Pow2, Approximates, Value, Nearest1024, AboveLow;
    if h > FRAC || (q == 0 && h > 0) {
      LowInside(N, q, m, h);
    } else if q > 0 {
      LowAtBinade(N, q, m);
    } else {
      AboveLowZero(N, Pow2(1275));
    }
  }

  lemma {:induction false} AboveLowZero(N: nat, D: nat)
    ensures AboveLow(N, D, 0 * FRAC + 0)
  {}

  lemma {:induction false} LowInside(N: nat, q: nat, m: nat, h: nat)
    requires Approximates(N, Pow2(q + 1265), m)
    requires Nearest1024(m, h)
    requires 0 < h <= 2 * FRAC && (q > 0 ==> h > FRAC)
    ensures AboveLow(N, Pow2(1275), q * FRAC + h)
  {
    hide Pow2, Approximates, Value;
    MidpointBelow(q, h);
    CompareOnScale(N, q, m, 2 * h - 1);
    assert (q * FRAC + h) % 2 == h % 2;
  }

  lemma {:induction false} LowAtBinade(N: nat, q: nat, m: nat)
    requires Approximates(N, Pow2(q + 1265), m) && q > 0 && m >= BIT62
    ensures AboveLow(N, Pow2(1275), q * FRAC + FRAC)
  {
    hide Pow2, Approximates, Value;
    MidpointBelowBinade(q);
    BinadeStart(N, q, m);
  }

  lemma {:induction false} BinadeStart(N: nat, q: nat, m: nat)
    requires Approximates(N, Pow2(q + 1265), m) && q > 0 && m >= BIT62
    ensures 2 * N > ((4 * FRAC - 1) * Pow2(q - 1)) * Pow2(1275)
  {
    assert Pow2(q) == 2 * Pow2(q - 1);
    hide Pow2, Approximates;
    var p := Pow2(q - 1);
    CompareOnScale(N, q, m, 2 * FRAC);
    assert (2 * FRAC) * Pow2(q) == (4 * FRAC) * p;
    MulMonotone(4 * FRAC - 1, 4 * FRAC, p);
    MulMonotone((4 * FRAC - 1) * p, (4 * FRAC) * p, Pow2(1275));
  }

  /** Packing: the carry of a rounded-up mantissa moves into the exponent field. */
  lemma {:induction false} PackIs(negative: bool, q: nat, h: nat)
    requires q * FRAC + h < SIGN && h <= 2 * FRAC && (h == 0 ==> q == 0)
    ensures Words.Add(Words.Add(if negative then SIGN else 0, Words.Shl(q, 52)), h)
         == WithSign(negative, q * FRAC + h)
  {
    hide Pow2;
    Pow2Is64();
  }

  lemma {:induction false} RoundPackOverflows(N: nat, pe: int, m: Word)
    requires BIT62 <= m < W63 && pe + 1265 >= 0
    requires Approximates(N, Pow2(pe + 1265), m)
    requires pe > 2045 || (pe == 2045 && m + 512 >= W63)
    ensures RoundNE(N, Pow2(1275)) == INF
  {
    hide Pow2, Approximates, Value;
    MidpointAbove(2045, 2 * FRAC - 1);
    var c := 4 * FRAC - 1;
    assert 2045 * FRAC + 2 * FRAC == INF;
    assert 2 * N >= (c * Pow2(2045)) * Pow2(1275) by {
      if pe == 2045 {
        CompareOnScale(N, 2045, m, c);
      } else {
        CompareOnScale(N, pe, m, 2 * FRAC);
        Pow2Monotone(2045, pe);
        MulMonotone(2 * Pow2(2045), Pow2(pe), 2 * FRAC);
        MulMonotone(c, 4 * FRAC, Pow2(2045));
        assert (2 * FRAC) * (2 * Pow2(2045)) == (4 * FRAC) * Pow2(2045);
        MulMonotone(c * Pow2(2045), (2 * FRAC) * Pow2(pe), Pow2(1275));
      }
    }
    RoundNEIsNearest(N, Pow2(1275));
  }

  lemma {:induction false} RoundPackMantissa(pe: int, m: Word) returns (q: nat, m1: Word, h: nat)
    requires BIT62 <= m < W63
    requires !(pe > 2045 || (pe == 2045 && m + 512 >= W63))
    ensures q == (if pe < 0 then 0 else pe) && m1 == (if pe < 0 then Sticky(m, -pe) else m)
    ensures m1 < W63 && (q > 0 ==> m1 >= BIT62)
    ensures Nearest1024(m1, h) && q * FRAC + h < INF
    ensures forall negative :: RoundPack(negative, pe, m) == WithSign(negative, q * FRAC + h)
  {
    hide Pow2, Or, And, AndNot, Sticky, Approximates;
    Pow2Is64();
    assert Words.Add(m, 512) == m + 512;
    assert pe == 2045 ==> Shr(Words.Add(m, 512), 63) == 0;
    if pe < 0 {
      StickyWord(m, -pe);
      StickySmaller(m, -pe);
      m1 := Sticky(m, -pe);
      q := 0;
    } else {
      m1 := m;
      q := pe;
    }
    RoundedMantissa(m1);
    var tie := m1 % 1024 == 512;
    h := AndNot(Shr(Words.Add(m1, 512), 10), if tie then 1 else 0);
    assert q * FRAC + h < INF;
    PackIs(true, q, h);
    PackIs(false, q, h);
  }

  lemma {:induction false} StickySmaller(m: Word, n: nat)
    requires n > 0 && m < W63
    ensures Sticky(m, n) < W63
  {
    hide Pow2;
    DivBounds(m, Pow2(n));
    MulMonotone(1, Pow2(n), m / Pow2(n));
  }

  /** The rounding step delivers the correctly rounded value of whatever m approximates. */
  lemma {:induction false} RoundPackCorrect(negative: bool, N: nat, pe: int, m: Word)
    requires BIT62 <= m < W63 && pe + 1265 >= 0
    requires Approximates(N, Pow2(pe + 1265), m)
    ensures RoundPack(negative, pe, m) == WithSign(negative, RoundNE(N, Pow2(1275)))
  {
    hide Pow2, Approximates, Sticky, Value, RoundNE;
    if pe > 2045 || (pe == 2045 && m + 512 >= W63) {
      RoundPackOverflows(N, pe, m);
      Pow2Is64();
    } else {
      var q, m1, h := RoundPackMantissa(pe, m);
      hide RoundPack;
      if pe < 0 {
        StickyApproximates(N, Pow2(pe + 1265), m, -pe);
        Pow2Add(pe + 1265, -pe);
      }
      RoundsOnScale(N, q, m1, h);
      RoundNEIs(N, Pow2(1275), q * FRAC + h);
    }
  }

  // ---- operands ----

  const BIT126: nat := 0x4000_0000_0000_0000_0000_0000_0000_0000
  const BIT127: nat := 0x8000_0000_0000_0000_0000_0000_0000_0000

  predicate Normalized(x: Parts) {
    FRAC <= x.mantissa < 2 * FRAC && -51 <= x.exp <= 2046
  }

  lemma {:induction false} NormalizeShift(f: nat) returns (shift: nat)
    requires 0 < f < FRAC
    ensures 1 <= shift <= 52 && LeadingZeros(f) - 11 == shift
    ensures FRAC <= f * Pow2(shift) < 2 * FRAC
    ensures Words.Shl(f, shift) == f * Pow2(shift)
  {
    hide Pow2, BitLen;
    FractionZeros(f);
    Pow2Is64();
    var n := BitLen(f);
    shift := 53 - n;
    Pow2Add(n - 1, shift);
    Pow2Add(n, shift);
    MulMonotone(Pow2(n - 1), f, Pow2(shift));
    MulMonotone(f, Pow2(n), Pow2(shift));
    ShlExact(f, shift);
  }

  /** `split` normalizes without changing the value. */
  lemma {:induction false} SplitExact(b: Word)
    requires Finite(b) && !IsZero(b)
    ensures var x := Split(b);
      && Normalized(x) && x.negative == Negative(b)
      && Value(Magnitude(b)) * Pow2(100) == x.mantissa * Pow2(x.exp + 99)
  {
    hide Pow2, Value;
    var f := Fraction(b);
    Fields(b);
    if Exponent(b) == 0 {
      ValueSmall(f);
      var shift := NormalizeShift(f);
      SubnormalScale(f, shift);
    } else {
      ValueNormal(Exponent(b), f);
      NormalScale(FRAC + f, Exponent(b));
    }
  }

  lemma {:induction false} SubnormalScale(f: nat, shift: nat)
    requires shift <= 52
    ensures f * Pow2(100) == (f * Pow2(shift)) * Pow2((1 - shift) + 99)
  {
    hide Pow2;
    Pow2Add(shift, 100 - shift);
    MulAssociative(f, Pow2(shift), Pow2(100 - shift));
  }

  lemma {:induction false} NormalScale(h: nat, e: nat)
    requires e >= 1
    ensures (h * Pow2(e - 1)) * Pow2(100) == h * Pow2(e + 99)
  {
    hide Pow2;
    Pow2Add(e - 1, 100);
    MulAssociative(h, Pow2(e - 1), Pow2(100));
  }

  /** A two-word mantissa with its top bit at position 126 and its lowest bit clear. */
  predicate Aligned(o: Operand) {
    && BIT126 <= Pair(o.hi, o.lo) < BIT127
    && Pair(o.hi, o.lo) % 2 == 0
    && -1130 <= o.exp <= 4000
  }

  /** The exact value of an operand, in units of 2^-2349. */
  function Exact(o: Operand): nat
    requires o.exp >= -1200
  {
    Pair(o.hi, o.lo) * Pow2(o.exp + 1200)
  }

  lemma {:induction false} PairOf(full: nat)
    requires full < BIT127
    ensures full / W64 < W63 && Pair(full / W64, full % W64) == full
    ensures full / W64 < BIT62 <==> full < BIT126
  {}

  lemma {:induction false} DoublePair(u1: Word, u2: Word)
    requires Pair(u1, u2) < BIT127
    ensures var r := ShlPair(u1, u2, 1); Pair(r.0, r.1) == 2 * Pair(u1, u2)
  {
    hide Pow2, ShlPair, Pair;
    Pow2Small();
    ShlPairExact(u1, u2, 1);
    DivModUnique(2 * Pair(u1, u2), W128, 0, 2 * Pair(u1, u2));
  }

  lemma {:induction false} NormalizedProductIs(negative: bool, pe: int, full: nat)
    requires BIT126 / 2 <= full < BIT127
    ensures full / W64 < W64
    ensures var p := NormalizedProduct(negative, pe, full / W64, full % W64);
      && p.negative == negative
      && (if full >= BIT126 then Pair(p.hi, p.lo) == full && p.exp == pe
          else Pair(p.hi, p.lo) == 2 * full && p.exp == pe - 1)
  {
    hide And, ShlPair, Pair, Shr;
    PairOf(full);
    var pm1, pm2 := full / W64, full % W64;
    Bit62(pm1);
    if pm1 < BIT62 {
      DoublePair(pm1, pm2);
    } else {
      ShlPairNone(pm1, pm2);
    }
  }

  lemma {:induction false} MantissaProduct(a: nat, b: nat)
    requires FRAC <= a < 2 * FRAC && FRAC <= b < 2 * FRAC
    ensures (a * 1024) * (b * 2048) == (a * b) * 0x20_0000
    ensures BIT126 / 2 <= (a * b) * 0x20_0000 < BIT127
  {
    MulMonotone(FRAC, b, a);
    MulMonotone(b, 2 * FRAC, a);
  }

  lemma {:induction false} ProductWords(x: Parts, y: Parts)
    requires Normalized(x) && Normalized(y)
    ensures var p := Product(x, y);
      var full := (x.mantissa * y.mantissa) * 0x20_0000;
      && p.negative == (x.negative != y.negative)
      && BIT126 / 2 <= full < BIT127
      && (if full >= BIT126 then Pair(p.hi, p.lo) == full && p.exp == x.exp + y.exp - 1022
          else Pair(p.hi, p.lo) == 2 * full && p.exp == x.exp + y.exp - 1023)
  {
    hide Pow2, NormalizedProduct;
    Pow2Small();
    ShlExact(x.mantissa, 10);
    ShlExact(y.mantissa, 11);
    MantissaProduct(x.mantissa, y.mantissa);
    NormalizedProductIs(x.negative != y.negative, x.exp + y.exp - 1022, (x.mantissa * y.mantissa) * 0x20_0000);
  }

  lemma {:induction false} Bit62(u: Word)
    requires u < W63
    ensures And(Shr(Not(u), 62), 1) == if u < BIT62 then 1 else 0
  {
    hide Pow2, And;
    Pow2Is64();
    Pow2Small();
    AndMask(Shr(Not(u), 62), 1);
  }

  lemma {:induction false} ProductScaleInt(c: nat, e: int)
    requires e >= -177
    ensures ((c * 0x20_0000) * Pow2(e + 178)) == c * Pow2(e + 199)
    ensures ((2 * (c * 0x20_0000)) * Pow2(e + 177)) == c * Pow2(e + 199)
  {
    hide Pow2;
    Pow2Small();
    Pow2Add(10, 11);
    Pow2Add(21, e + 178);
    Pow2Add(1, e + 177);
    var p := Pow2(e + 177);
    assert Pow2(e + 178) == 2 * p && Pow2(e + 199) == 0x40_0000 * p;
  }

  lemma {:induction false} ProductAligned(p: Operand, c: nat, full: nat, e: int)
    requires -102 <= e <= 4092
    requires full == c * 0x20_0000 && BIT126 / 2 <= full < BIT127
    requires if full >= BIT126 then Pair(p.hi, p.lo) == full && p.exp == e - 1022
             else Pair(p.hi, p.lo) == 2 * full && p.exp == e - 1023
    ensures Aligned(p) && Exact(p) == c * Pow2(e + 199)
  {
    hide Pow2, Pair;
    ProductScaleInt(c, e);
    ProductParity(c, full);
  }

  lemma {:induction false} ProductParity(c: nat, full: nat)
    requires full == c * 0x20_0000
    ensures full % 2 == 0 && (2 * full) % 2 == 0
  {
    var h := c * 0x10_0000;
    assert full == 2 * h;
  }

  lemma {:induction false} ProductExact(x: Parts, y: Parts)
    requires Normalized(x) && Normalized(y)
    ensures var p := Product(x, y);
      && Aligned(p) && p.negative == (x.negative != y.negative)
      && Exact(p) == (x.mantissa * y.mantissa) * Pow2(x.exp + y.exp + 199)
  {
    hide Pow2, Product, Pair, Aligned, Exact;
    ProductWords(x, y);
    ProductAligned(Product(x, y), x.mantissa * y.mantissa, (x.mantissa * y.mantissa) * 0x20_0000, x.exp + y.exp);
  }

  lemma {:induction false} AddendExact(z: Parts)
    requires Normalized(z)
    ensures var a := Addend(z);
      && Aligned(a) && a.negative == z.negative && a.lo == 0
      && Exact(a) == z.mantissa * Pow2(z.exp + 1274)
  {
    AddendPair(z);
    AddendScale(z.mantissa, z.exp);
    hide Pow2, Pair;
  }

  lemma {:induction false} AddendPair(z: Parts)
    requires Normalized(z)
    ensures var a := Addend(z); a.lo == 0 && a.hi == 1024 * z.mantissa && Pair(a.hi, a.lo) == z.mantissa * Pow2(74)
  {
    hide Pow2;
    Pow2Small();
    ShlExact(z.mantissa, 10);
    Pow2Is64();
    Pow2Add(10, 64);
    MulAssociative(z.mantissa, 1024, W64);
  }

  lemma {:induction false} AddendScale(m: nat, e: int)
    requires e + 1200 >= 0
    ensures (m * Pow2(74)) * Pow2(e + 1200) == m * Pow2(e + 1274)
  {
    hide Pow2;
    Pow2Add(74, e + 1200);
    MulAssociative(m, Pow2(74), Pow2(e + 1200));
  }

  // ---- adding and subtracting the aligned mantissas ----

  lemma {:induction false} AddPairIs(u1: Word, u2: Word, v1: Word, v2: Word)
    requires Pair(u1, u2) + Pair(v1, v2) < W128
    ensures var r := AddPair(u1, u2, v1, v2); Pair(r.0, r.1) == Pair(u1, u2) + Pair(v1, v2)
  {}

  lemma {:induction false} SubPairIs(u1: Word, u2: Word, v1: Word, v2: Word)
    requires Pair(u1, u2) >= Pair(v1, v2)
    ensures var r := SubPair(u1, u2, v1, v2); Pair(r.0, r.1) == Pair(u1, u2) - Pair(v1, v2)
  {}

  lemma {:induction false} TopBit(u: Word)
    ensures Shr(u, 63) == (if u < W63 then 0 else 1)
    ensures Shr(Not(u), 63) == (if u < W63 then 1 else 0)
  {
    hide Pow2;
    Pow2Is64();
  }

  lemma {:induction false} Pow2Is128()
    ensures Pow2(128) == W128 && Pow2(127) == BIT127 && Pow2(126) == BIT126 && Pow2(125) == BIT126 / 2
  {
    hide Pow2;
    Pow2Is64();
    Pow2Add(64, 64);
    Pow2Add(64, 63);
    Pow2Add(64, 62);
    Pow2Small();
    Pow2Add(125, 1);
  }

  /** The low word of a two-word number below 2^64 is the number. */
  lemma {:induction false} LowWord(u1: Word, u2: Word)
    requires Pair(u1, u2) < W64
    ensures u1 == 0 && u2 == Pair(u1, u2)
  {}

  lemma {:induction false} SumIsSticky(p: Operand, z1: Word, z2: Word, s: nat)
    requires s == Pair(p.hi, p.lo) + Pair(z1, z2) && BIT126 <= s < W128
    ensures SumMantissa(p, z1, z2)
         == (if s < BIT127 then (p.exp - 1, Sticky(s, 64)) else (p.exp, Sticky(s, 65)))
    ensures BIT62 <= SumMantissa(p, z1, z2).1 < W63
  {
    hide Pow2, ShrCompress, Sticky, Shr, AddPair;
    AddPairIs(p.hi, p.lo, z1, z2);
    var (s1, s2) := AddPair(p.hi, p.lo, z1, z2);
    TopBit(s1);
    Pow2Is128();
    Pow2Is64();
    var n: Word := if s < BIT127 then 64 else 65;
    ShrCompressIsSticky(s1, s2, n);
    StickyBound(s, n, 63);
    var c := ShrCompress(s1, s2, n);
    LowWord(c.0, c.1);
  }

  lemma {:induction false} SumCorrect(p: Operand, z1: Word, z2: Word, Z: nat)
    requires Aligned(p) && Pair(z1, z2) < BIT127
    requires Approximates(Z, Pow2(p.exp + 1200), Pair(z1, z2))
    ensures var (pe, m) := SumMantissa(p, z1, z2);
      && BIT62 <= m < W63
      && p.exp - 1 <= pe <= p.exp
      && Approximates(Exact(p) + Z, Pow2(pe + 1265), m)
  {
    hide Pow2, Approximates, Sticky, SumMantissa, Pair;
    var s := Pair(p.hi, p.lo) + Pair(z1, z2);
    SumIsSticky(p, z1, z2, s);
    ApproximateSum(Z, Pow2(p.exp + 1200), Pair(z1, z2), Pair(p.hi, p.lo));
    var n := if s < BIT127 then 64 else 65;
    StickyApproximates(Exact(p) + Z, Pow2(p.exp + 1200), s, n);
    Pow2Add(p.exp + 1200, n);
  }

  lemma {:induction false} LeadingZerosPairIs(u1: Word, u2: Word)
    requires 0 < Pair(u1, u2) < BIT127
    ensures var l := LeadingZerosPair(u1, u2);
      && 1 <= l <= 127
      && BIT126 <= Pair(u1, u2) * Pow2(l - 1) < BIT127
  {
    hide Pow2, BitLen, Pair;
    Pow2Is128();
    Pow2Is64();
    if BitLen(u1) == 0 {
      HighWordZero(u1, u2);
      var n := BitLen(u2);
      BitLenBound(u2, 64);
      Pow2Add(n - 1, 127 - n);
      Pow2Add(n, 127 - n);
      MulMonotone(Pow2(n - 1), u2, Pow2(127 - n));
      MulMonotone(u2, Pow2(n), Pow2(127 - n));
    } else {
      var n := BitLen(u1);
      HighWordBounds(u1, u2, n);
      Pow2Add(n + 63, 63 - n);
      Pow2Add(n + 64, 63 - n);
      MulMonotone(Pow2(n + 63), Pair(u1, u2), Pow2(63 - n));
      MulMonotone(Pair(u1, u2), Pow2(n + 64), Pow2(63 - n));
    }
  }

  lemma {:induction false} HighWordZero(u1: Word, u2: Word)
    requires BitLen(u1) == 0
    ensures u1 == 0 && Pair(u1, u2) == u2
  {}

  lemma {:induction false} HighWordBounds(u1: Word, u2: Word, n: nat)
    requires n == BitLen(u1) > 0 && Pair(u1, u2) < BIT127
    ensures n <= 63
    ensures Pow2(n + 63) <= Pair(u1, u2) < Pow2(n + 64)
  {
    assert u1 > 0;
    hide Pow2, BitLen;
    Pow2Is64();
    assert u1 < W63;
    BitLenBound(u1, 63);
    Pow2Add(n - 1, 64);
    Pow2Add(n, 64);
    MulMonotone(u1 + 1, Pow2(n), W64);
    MulMonotone(Pow2(n - 1), u1, W64);
  }

  lemma {:induction false} DifferenceIsSticky(p: Operand, z1: Word, z2: Word, d: nat) returns (k: nat)
    requires Pair(p.hi, p.lo) - Pair(z1, z2) == d && 0 < d < BIT127
    ensures k <= 126 && BIT126 <= d * Pow2(k) < BIT127
    ensures DifferenceMantissa(p, z1, z2) == (p.exp - 1 - k, Sticky(d * Pow2(k), 64))
    ensures BIT62 <= DifferenceMantissa(p, z1, z2).1 < W63
  {
    hide Pow2, ShlPair, Sticky, Or, SubPair, LeadingZerosPair;
    SubPairIs(p.hi, p.lo, z1, z2);
    var (s1, s2) := SubPair(p.hi, p.lo, z1, z2);
    LeadingZerosPairIs(s1, s2);
    var nz := LeadingZerosPair(s1, s2);
    k := nz - 1;
    assert USub(nz, 1) == k;
    ShlPairExact(s1, s2, k);
    var x := d * Pow2(k);
    DivModUnique(x, W128, 0, x);
    var (m, rest) := ShlPair(s1, s2, k);
    StickyHighWord(m, rest);
  }

  lemma {:induction false} StickyHighWord(m: Word, rest: Word)
    requires BIT126 <= Pair(m, rest) < BIT127
    ensures OrWord(m, Nonzero(rest)) == Sticky(Pair(m, rest), 64)
    ensures BIT62 <= OrWord(m, Nonzero(rest)) < W63
  {
    hide Or, Sticky, Pow2, ShrCompress;
    HighWordRange(m, rest);
    OrOne(m);
    OrZero(m);
    ShrCompressWord(m, rest);
    ShrCompressAtWord(m, rest);
  }

  lemma {:induction false} HighWordRange(m: Word, rest: Word)
    requires BIT126 <= Pair(m, rest) < BIT127
    ensures BIT62 <= m < W63
  {}

  lemma {:induction false} ShrCompressAtWord(m: Word, rest: Word)
    ensures ShrCompress(m, rest, 64) == (0, OrWord(m, Nonzero(rest)))
  {
    hide Or;
  }

  lemma {:induction false} DifferenceCorrect(p: Operand, z1: Word, z2: Word, Z: nat)
    requires Aligned(p) && Pair(z1, z2) < Pair(p.hi, p.lo)
    requires Approximates(Z, Pow2(p.exp + 1200), Pair(z1, z2))
    requires Z == Pair(z1, z2) * Pow2(p.exp + 1200) || Pair(z1, z2) <= BIT126 / 2
    ensures Z <= Exact(p)
    ensures var (pe, m) := DifferenceMantissa(p, z1, z2);
      && BIT62 <= m < W63
      && p.exp - 127 <= pe <= p.exp
      && pe + 1265 >= 0
      && Approximates(Exact(p) - Z, Pow2(pe + 1265), m)
  {
    hide Pow2, Approximates, Sticky, DifferenceMantissa, Pair;
    var B := Pow2(p.exp + 1200);
    var d := Pair(p.hi, p.lo) - Pair(z1, z2);
    ApproximateDifference(Z, B, Pair(z1, z2), Pair(p.hi, p.lo));
    var k := DifferenceIsSticky(p, z1, z2, d);
    var N := Exact(p) - Z;
    if k <= 64 {
      StickyOfShifted(d, k, 64);
      StickyApproximates(N, B, d, 64 - k);
      Pow2Add(p.exp + 1200, 64 - k);
    } else {
      FarCancellation(d, k);
      assert Z == Pair(z1, z2) * B;
      MulMinus(Pair(p.hi, p.lo), Pair(z1, z2), B);
      CancelExact(N, d, p.exp, k);
    }
  }

  lemma {:induction false} MulMinus(a: nat, b: nat, c: nat)
    requires b <= a
    ensures a * c - b * c == (a - b) * c
  {}

  lemma {:induction false} FarCancellation(d: nat, k: nat)
    requires k > 1 && d * Pow2(k) < BIT127
    ensures d < BIT126 / 2
  {
    hide Pow2;
    Pow2Small();
    Pow2Add(1, 1);
    Pow2Monotone(2, k);
    MulMonotone(4, Pow2(k), d);
  }

  lemma {:induction false} CancelExact(N: nat, d: nat, e: int, k: nat)
    requires e >= -1130 && 64 < k <= 126 && N == d * Pow2(e + 1200)
    requires BIT126 <= d * Pow2(k) < BIT127
    ensures e - 1 - k + 1265 >= 0
    ensures Approximates(N, Pow2(e - 1 - k + 1265), Sticky(d * Pow2(k), 64))
  {
    hide Pow2, Sticky;
    Pow2Add(k - 64, 64);
    MulAssociative(d, Pow2(k - 64), Pow2(64));
    StickyOfMultiple(d * Pow2(k - 64), 64);
    Pow2Add(k - 64, e + 1264 - k);
    MulAssociative(d, Pow2(k - 64), Pow2(e + 1264 - k));
  }

  // ---- alignment ----

  lemma {:induction false} AlignCorrect(p: Operand, z: Operand, n: Word)
    requires Aligned(p) && Aligned(z) && n == p.exp - z.exp
    ensures var (z1, z2) := ShrCompress(z.hi, z.lo, n);
      && Approximates(Exact(z), Pow2(p.exp + 1200), Pair(z1, z2))
      && Pair(z1, z2) < BIT127
      && (n == 0 ==> Pair(z1, z2) == Pair(z.hi, z.lo))
      && (n > 0 ==> Pair(z1, z2) < BIT126)
      && (Exact(z) == Pair(z1, z2) * Pow2(p.exp + 1200) || Pair(z1, z2) <= BIT126 / 2)
  {
    hide Pow2, Approximates, Sticky, ShrCompress, Pair;
    ShrCompressIsSticky(z.hi, z.lo, n);
    var w := Pair(z.hi, z.lo);
    var c := Pow2(z.exp + 1200);
    SelfApproximates(w);
    StickyApproximates(w, 1, w, n);
    ApproximateScale(w, Pow2(n), Sticky(w, n), c);
    Pow2Add(n, z.exp + 1200);
    if n <= 1 {
      AlignShort(w, n, c);
    } else {
      AlignLong(w, n);
    }
  }

  lemma {:induction false} SelfApproximates(w: nat)
    ensures Approximates(w, 1, w)
  {}

  lemma {:induction false} AlignShort(w: nat, n: nat, c: nat)
    requires w % 2 == 0 && w < BIT127 && n <= 1
    ensures w * c == Sticky(w, n) * (Pow2(n) * c)
    ensures n == 0 ==> Sticky(w, n) == w
    ensures n == 1 ==> Sticky(w, n) < BIT126
  {
    assert Pow2(0) == 1;
    hide Pow2, Sticky;
    Pow2Small();
    var h := if n == 0 then w else w / 2;
    StickyOfMultiple(h, n);
    MulAssociative(h, Pow2(n), c);
  }

  lemma {:induction false} AlignLong(w: nat, n: nat)
    requires w < BIT127 && n >= 2
    ensures Sticky(w, n) < BIT126 / 2
  {
    hide Pow2, Sticky;
    Pow2Is128();
    Pow2Monotone(127, 125 + n);
    StickyBound(w, n, 125);
  }

  predicate Ordered(p: Operand, z: Operand) {
    z.exp < p.exp || (z.exp == p.exp && Pair(z.hi, z.lo) <= Pair(p.hi, p.lo))
  }

  lemma {:induction false} CombineSum(p: Operand, z: Operand)
    requires Aligned(p) && Aligned(z) && Ordered(p, z) && p.negative == z.negative
    ensures Combine(p, z) == WithSign(p.negative, RoundNE(Exact(p) + Exact(z), Pow2(1275)))
  {
    hide Pow2, Approximates, ShrCompress, SumMantissa, RoundPack, RoundNE, Pair, Exact;
    var n: Word := p.exp - z.exp;
    assert (p.exp - z.exp) % W64 == n;
    AlignCorrect(p, z, n);
    var (z1, z2) := ShrCompress(z.hi, z.lo, n);
    SumCorrect(p, z1, z2, Exact(z));
    var (pe, m) := SumMantissa(p, z1, z2);
    RoundPackCorrect(p.negative, Exact(p) + Exact(z), pe, m);
  }

  lemma {:induction false} CombineDifference(p: Operand, z: Operand)
    requires Aligned(p) && Aligned(z) && Ordered(p, z) && p.negative != z.negative
    requires !(p.exp == z.exp && p.hi == z.hi && p.lo == z.lo)
    ensures Exact(z) < Exact(p)
    ensures Combine(p, z) == WithSign(p.negative, RoundNE(Exact(p) - Exact(z), Pow2(1275)))
  {
    hide Pow2, Approximates, ShrCompress, DifferenceMantissa, RoundPack, RoundNE, Pair, Exact;
    var n: Word := p.exp - z.exp;
    assert (p.exp - z.exp) % W64 == n;
    AlignCorrect(p, z, n);
    PairInjective(p.hi, p.lo, z.hi, z.lo);
    var (z1, z2) := ShrCompress(z.hi, z.lo, n);
    DifferenceCorrect(p, z1, z2, Exact(z));
    var (pe, m) := DifferenceMantissa(p, z1, z2);
    RoundPackCorrect(p.negative, Exact(p) - Exact(z), pe, m);
    PositiveApproximation(Exact(p) - Exact(z), Pow2(pe + 1265), m);
  }

  lemma {:induction false} PairInjective(u1: Word, u2: Word, v1: Word, v2: Word)
    ensures Pair(u1, u2) == Pair(v1, v2) ==> u1 == v1 && u2 == v2
  {}

  lemma {:induction false} PositiveApproximation(N: nat, B: nat, m: nat)
    requires Approximates(N, B, m) && m > 1
    ensures N > 0
  {
    MulMonotone(1, m - 1, B);
    MulMonotone(1, m, B);
  }

  // ---- the theorem ----

  /** The exact x*y+z, in units of 2^-2148. */
  function ExactResult(x: Word, y: Word, z: Word): int {
    SignedValue(x) * SignedValue(y) + SignedValue(z) * Unit()
  }

  /** One rounding of the exact result; an exact zero is negative only if the product and
      z are both negative zeros. */
  function Reference(x: Word, y: Word, z: Word): (r: Word) {
    RoundSigned(ExactResult(x, y, z), Negative(x) != Negative(y) && Negative(z))
  }

  function RoundSigned(e: int, zeroNegative: bool): (r: Word) {
    if e == 0 then WithSign(zeroNegative, 0) else WithSign(e < 0, RoundNE(Abs(e), Unit()))
  }

  lemma {:induction false} RoundSignedExact(negative: bool, m: nat, zeroNegative: bool)
    requires 0 < m < INF
    ensures RoundSigned(Signed(negative, Value(m) * Unit()), zeroNegative) == WithSign(negative, m)
  {
    hide Value, RoundNE, Pow2, Unit, WithSign;
    PositiveValue(m);
    MulMonotone(1, Value(m), Unit());
    RoundExact(m, Unit());
  }

  lemma {:induction false} ProductMagnitude(X: nat, Y: nat, xm: nat, ym: nat, xe: int, ye: int)
    requires -51 <= xe && -51 <= ye
    requires X * Pow2(100) == xm * Pow2(xe + 99) && Y * Pow2(100) == ym * Pow2(ye + 99)
    ensures (xm * ym) * Pow2(xe + ye + 199) == (X * Y) * Pow2(201)
  {
    hide Pow2;
    Pow2Small();
    Pow2Add(xe + 99, ye + 99);
    Pow2Add(1, xe + ye + 198);
    Pow2Add(100, 100);
    Pow2Add(1, 200);
    Exchange(X, Pow2(100), Y, Pow2(100));
    Exchange(xm, Pow2(xe + 99), ym, Pow2(ye + 99));
    MulDouble(X * Y, Pow2(200));
    MulDouble(xm * ym, Pow2(xe + ye + 198));
  }

  lemma {:induction false} Exchange(a: nat, b: nat, c: nat, d: nat)
    ensures (a * b) * (c * d) == (a * c) * (b * d)
  {}

  lemma {:induction false} AddendMagnitude(Z: nat, zm: nat, ze: int)
    requires -51 <= ze && Z * Pow2(100) == zm * Pow2(ze + 99)
    ensures zm * Pow2(ze + 1274) == (Z * Unit()) * Pow2(201)
  {
    hide Pow2;
    Pow2Add(ze + 99, 1175);
    Pow2Add(100, 1175);
    Pow2Add(1074, 201);
    MulAssociative(zm, Pow2(ze + 99), Pow2(1175));
    MulAssociative(Z, Pow2(100), Pow2(1175));
    MulAssociative(Z, Pow2(1074), Pow2(201));
  }

  lemma {:induction false} RoundScaled(e: nat)
    ensures RoundNE(e * Pow2(201), Pow2(1275)) == RoundNE(e, Unit())
  {
    hide Pow2, RoundNE;
    Pow2Add(1074, 201);
    RoundScale(e, Unit(), Pow2(201));
  }

  /** The magnitudes of the product and of z decide the result, whichever comes first. */
  lemma {:induction false} CombineCorrect(p: Operand, z: Operand, P: nat, Q: nat)
    requires Aligned(p) && Aligned(z) && Ordered(p, z)
    requires Exact(p) == P * Pow2(201) && Exact(z) == Q * Pow2(201)
    ensures p.negative == z.negative ==>
      Combine(p, z) == WithSign(p.negative, RoundNE(P + Q, Unit()))
    ensures p.negative != z.negative ==>
      && P >= Q
      && Combine(p, z) == (if P == Q then 0 else WithSign(p.negative, RoundNE(P - Q, Unit())))
  {
    hide Pow2, RoundNE, Pair, Aligned, Ordered;
    var S := Pow2(201);
    if p.negative == z.negative {
      hide Combine;
      CombineSum(p, z);
      DistributeTwo(P, Q, S);
      RoundScaled(P + Q);
    } else if p.exp == z.exp && p.hi == z.hi && p.lo == z.lo {
      MulCancel(P, Q, S);
    } else {
      hide Combine;
      CombineDifference(p, z);
      MulCancel(Q, P, S);
      MulMinus(P, Q, S);
      RoundScaled(P - Q);
    }
  }

  /** The rounded sum of two signed magnitudes. */
  function SignedSum(pn: bool, P: nat, zn: bool, Q: nat): (r: Word) {
    if pn == zn then WithSign(pn, RoundNE(P + Q, Unit()))
    else if P == Q then 0
    else if P > Q then WithSign(pn, RoundNE(P - Q, Unit()))
    else WithSign(zn, RoundNE(Q - P, Unit()))
  }

  /** The addend's magnitude, in units of 2^-2148. */
  function AddendValue(z: Word): nat {
    MulNonNegative(Value(Magnitude(z)), Unit());
    Value(Magnitude(z)) * Unit()
  }

  lemma {:induction false} CoreCorrect(x: Word, y: Word, z: Word)
    requires Finite(x) && Finite(y) && Finite(z)
    requires !IsZero(x) && !IsZero(y) && !IsZero(z)
    ensures Fma(x, y, z) == SignedSum(Negative(x) != Negative(y), ProductValue(x, y), Negative(z), AddendValue(z))
  {
    hide Pow2, Value, RoundNE, Split, Product, Addend, Combine, Exact, Unit, Pair, ProductValue, AddendValue,
         Aligned, WithSign;
    var sx, sy, sz := Split(x), Split(y), Split(z);
    var p, a := Product(sx, sy), Addend(sz);
    var P, Q := ProductValue(x, y), AddendValue(z);
    OperandsExact(x, y, z);
    PairOrder(p, a);
    if p.exp < a.exp || (p.exp == a.exp && p.hi < a.hi) {
      CombineCorrect(a, p, Q, P);
    } else {
      CombineCorrect(p, a, P, Q);
    }
  }

  /** Both operands of the addition are exact, on one scale. */
  lemma {:induction false} OperandsExact(x: Word, y: Word, z: Word)
    requires Finite(x) && Finite(y) && Finite(z)
    requires !IsZero(x) && !IsZero(y) && !IsZero(z)
    ensures var p, a := Product(Split(x), Split(y)), Addend(Split(z));
      && Aligned(p) && p.negative == (Negative(x) != Negative(y)) && Exact(p) == ProductValue(x, y) * Pow2(201)
      && Aligned(a) && a.negative == Negative(z) && a.lo == 0 && Exact(a) == AddendValue(z) * Pow2(201)
  {
    hide Pow2, Value, Split, Product, Addend, Exact, Unit, Aligned, Magnitude, Negative;
    SplitExact(x);
    SplitExact(y);
    SplitExact(z);
    var sx, sy, sz := Split(x), Split(y), Split(z);
    ProductExact(sx, sy);
    AddendExact(sz);
    ProductMagnitude(Value(Magnitude(x)), Value(Magnitude(y)), sx.mantissa, sy.mantissa, sx.exp, sy.exp);
    AddendMagnitude(Value(Magnitude(z)), sz.mantissa, sz.exp);
  }

  /** Comparing high words suffices: the addend's low word is zero. */
  lemma {:induction false} PairOrder(p: Operand, a: Operand)
    requires a.lo == 0
    ensures p.hi < a.hi ==> Pair(p.hi, p.lo) <= Pair(a.hi, a.lo)
    ensures p.hi >= a.hi ==> Pair(p.hi, p.lo) >= Pair(a.hi, a.lo)
  {
    if p.hi < a.hi {
      MulMonotone(p.hi, a.hi, W64);
    } else {
      MulMonotone(a.hi, p.hi, W64);
    }
  }

  lemma {:induction false} SignedProduct(a: bool, X: nat, b: bool, Y: nat)
    ensures Signed(a, X) * Signed(b, Y) == Signed(a != b, X * Y)
  {}

  /** The exact result from magnitudes. */
  lemma {:induction false} ExactResultIs(x: Word, y: Word, z: Word)
    ensures ExactResult(x, y, z)
         == Signed(Negative(x) != Negative(y), ProductValue(x, y)) + Signed(Negative(z), AddendValue(z))
  {
    hide Value, Pow2, Unit;
    SignedProduct(Negative(x), Value(Magnitude(x)), Negative(y), Value(Magnitude(y)));
    SignedProduct(Negative(z), Value(Magnitude(z)), false, Unit());
  }

  lemma {:induction false} ReferenceOfZero(x: Word, y: Word, z: Word)
    requires Finite(z) && (IsZero(x) || IsZero(y))
    ensures Reference(x, y, z) == if IsZero(z) then WithSign(Negative(x) != Negative(y) && Negative(z), 0) else z
  {
    assert Value(0) == 0;
    hide Value, Pow2, RoundNE, Unit, ExactResult, Magnitude, Negative, WithSign;
    ExactResultIs(x, y, z);
    assert ProductValue(x, y) == 0 && (IsZero(z) ==> AddendValue(z) == 0);
    hide ProductValue;
    if !IsZero(z) {
      assert ExactResult(x, y, z) == Signed(Negative(z), AddendValue(z));
      hide RoundSigned, Signed;
      RoundSignedExact(Negative(z), Magnitude(z), Negative(x) != Negative(y) && Negative(z));
      SignAndMagnitude(z);
    }
  }

  lemma {:induction false} ZeroProduct(x: Word, y: Word, z: Word)
    requires Finite(x) && Finite(y) && Finite(z) && (IsZero(x) || IsZero(y))
    ensures Fma(x, y, z) == Reference(x, y, z)
  {
    hide Reference, Product, Addend, Split, Combine,
         Magnitude, Negative, WithSign, Float64.Add, Float64.Mul;
    ReferenceOfZero(x, y, z);
    MulZero(x, y);
    var zero := WithSign(Negative(x) != Negative(y), 0);
    if IsZero(z) {
      AddZeros(zero, z);
    } else {
      AddToZero(zero, z);
    }
  }

  lemma {:induction false} MulZero(x: Word, y: Word)
    requires Finite(x) && Finite(y) && (IsZero(x) || IsZero(y))
    ensures Float64.Mul(x, y) == WithSign(Negative(x) != Negative(y), 0)
  {
    assert Value(0) == 0;
    hide Value, Pow2, RoundNE, Unit, Magnitude, Negative, WithSign;
    RoundExact(0, Unit());
    assert ProductValue(x, y) == 0;
  }

  lemma {:induction false} AddZeros(a: Word, z: Word)
    requires IsZero(a) && IsZero(z)
    ensures Float64.Add(a, z) == WithSign(Negative(a) && Negative(z), 0)
  {
    assert Value(0) == 0;
    hide Value, RoundNE, Magnitude, Negative, WithSign;
  }

  lemma {:induction false} AddToZero(a: Word, z: Word)
    requires IsZero(a) && Finite(z) && !IsZero(z)
    ensures Float64.Add(a, z) == z
  {
    assert Value(0) == 0;
    hide Value, RoundNE, Magnitude, Negative, WithSign;
    assert SignedValue(a) == 0;
    hide SignedValue;
    SignedNonzero(z);
    RoundOne(Magnitude(z));
    SignAndMagnitude(z);
  }

  lemma {:induction false} SignedNonzero(z: Word)
    requires !IsZero(z)
    ensures SignedValue(z) != 0 && (SignedValue(z) < 0 <==> Negative(z))
    ensures Abs(SignedValue(z)) == Value(Magnitude(z))
  {
    hide Value, Magnitude, Negative;
    PositiveValue(Magnitude(z));
  }

  lemma {:induction false} RoundOne(m: nat)
    requires m < INF
    ensures RoundNE(Value(m), 1) == m
  {
    hide Value, RoundNE;
    RoundExact(m, 1);
    assert Value(m) * 1 == Value(m);
  }

  lemma {:induction false} SignedSumIsReference(x: Word, y: Word, z: Word)
    requires ProductValue(x, y) > 0 && AddendValue(z) > 0
    ensures SignedSum(Negative(x) != Negative(y), ProductValue(x, y), Negative(z), AddendValue(z))
         == Reference(x, y, z)
  {
    hide Pow2, RoundNE, Value, Unit, ExactResult, Magnitude, Negative, ProductValue, AddendValue;
    ExactResultIs(x, y, z);
  }

  lemma {:induction false} MulIsReference(x: Word, y: Word, z: Word)
    requires Finite(x) && Finite(y) && IsZero(z)
    requires ProductValue(x, y) > 0
    ensures Float64.Mul(x, y) == Reference(x, y, z)
  {
    assert Value(0) == 0;
    hide Pow2, RoundNE, Value, Unit, ExactResult, Magnitude, Negative, WithSign, ProductValue;
    ExactResultIs(x, y, z);
    assert AddendValue(z) == 0;
  }

  /** For all finite arguments, `FMA` rounds the exact x*y+z once. */
  lemma {:induction false} FmaCorrect(x: Word, y: Word, z: Word)
    requires Finite(x) && Finite(y) && Finite(z)
    ensures Fma(x, y, z) == Reference(x, y, z)
  {
    hide Pow2, RoundNE, Value, Unit, ExactResult, Product, Addend, Split, Combine, Reference,
         Magnitude, Negative, WithSign, SignedValue, Float64.Add, Float64.Mul, SignedSum;
    if IsZero(x) || IsZero(y) {
      ZeroProduct(x, y, z);
    } else {
      PositiveValue(Magnitude(x));
      PositiveValue(Magnitude(y));
      PositiveValue(Magnitude(z));
      MulMonotone(1, Value(Magnitude(x)), Value(Magnitude(y)));
      if IsZero(z) {
        MulIsReference(x, y, z);
      } else {
        CoreCorrect(x, y, z);
        MulMonotone(1, Value(Magnitude(z)), Unit());
        SignedSumIsReference(x, y, z);
      }
    }
  }
}
