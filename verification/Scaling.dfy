/**
 math/bits.go normalize, math/frexp.go and math/ldexp.go. `frexp` is exact. `ldexp`
 returns the correctly rounded value of frac * 2^exp exactly when the sum it forms of
 exp and the exponent of frac fits a 64-bit int; otherwise the sum wraps and an
 overflow is reported as zero or an underflow as infinity.
 */
module Scaling {
  import opened Words
  import opened Float64

  const TWO52: Word := 1075 * FRAC      // the float64 2^52
  const ONE: Word := 1023 * FRAC        // the float64 1
  const TWO_53: Word := 970 * FRAC      // the float64 2^-53
  const INT64: int := 0x8000_0000_0000_0000

  /** A normal number and an exponent with x == y * 2^exp. */
  function Normalize(x: Word): (r: (Word, int)) {
    if Magnitude(x) < FRAC then (Mul(x, TWO52), -52) else (x, 0)
  }

  /** The exponent of the leading bit of x, as the code computes it. */
  function LeadingExponent(x: Word): int {
    var (y, e) := Normalize(x);
    Exponent(y) - BIAS + e
  }

  /** The 53-bit significand of x. */
  function Leading(x: Word): nat {
    FRAC + Fraction(Normalize(x).0)
  }

  function Frexp(f: Word): (r: (Word, int)) {
    if IsZero(f) || !Finite(f) then (f, 0)
    else
      var (y, e) := Normalize(f);
      (WithSign(Negative(y), (BIAS - 1) * FRAC + Fraction(y)), e + Exponent(y) - BIAS + 1)
  }

  /** Two's complement wrap-around of a 64-bit int. */
  function WrapInt(x: int): (w: int)
    ensures -INT64 <= w < INT64
    ensures -INT64 <= x < INT64 ==> w == x
    ensures INT64 <= x < 3 * INT64 ==> w == x - 2 * INT64
    ensures -3 * INT64 <= x < -INT64 ==> w == x + 2 * INT64
  {
    (x + INT64) % (2 * INT64) - INT64
  }

  function Ldexp(frac: Word, exp: int): (r: Word) {
    if IsZero(frac) || !Finite(frac) then frac
    else
      var (y, e) := Normalize(frac);
      var exp2 := WrapInt(WrapInt(exp + e) + (Exponent(y) - BIAS));
      if exp2 < -1075 then WithSign(Negative(frac), 0)
      else if exp2 > 1023 then WithSign(Negative(y), INF)
      else if exp2 < -1022 then
        Mul(TWO_53, WithSign(Negative(y), (exp2 + 53 + BIAS) * FRAC + Fraction(y)))
      else
        Mul(ONE, WithSign(Negative(y), (exp2 + BIAS) * FRAC + Fraction(y)))
  }

  // ---- rounding h * 2^k ----

  /** The correctly rounded value of h * 2^k, in units of 2^-1074. */
  function RoundPow(h: nat, k: int): (m: nat)
    ensures m <= INF
  {
    if k >= 0 then RoundNE(h * Pow2(k), 1) else RoundNE(h, Pow2(-k))
  }

  lemma {:induction false} RoundRatio(x: nat, D: nat, c: nat, N: nat, E: nat)
    requires D > 0 && c > 0 && N == x * c && E == D * c
    ensures E > 0 && RoundNE(N, E) == RoundNE(x, D)
  {
    hide RoundNE, RoundsTo;
    RoundScale(x, D, c);
  }

  lemma {:induction false} RoundPowRatio(h: nat, a: nat, b: nat)
    ensures RoundNE(h * Pow2(a), Pow2(b)) == RoundPow(h, a - b)
  {
    hide Pow2, RoundNE, RoundsTo;
    if a >= b {
      Pow2Add(a - b, b);
      MulAssociative(h, Pow2(a - b), Pow2(b));
      RoundRatio(h * Pow2(a - b), 1, Pow2(b), h * Pow2(a), Pow2(b));
    } else {
      Pow2Add(b - a, a);
      RoundRatio(h, Pow2(b - a), Pow2(a), h * Pow2(a), Pow2(b));
    }
  }

  lemma {:induction false} RoundPowShift(h: nat, j: nat, k: int)
    ensures RoundPow(h * Pow2(j), k) == RoundPow(h, k + j)
  {
    hide Pow2, RoundNE;
    if k >= 0 {
      Pow2Add(j, k);
      MulAssociative(h, Pow2(j), Pow2(k));
    } else {
      RoundPowRatio(h, j, -k);
    }
  }

  lemma {:induction false} RoundPowTiny(h: nat, k: int)
    requires h < 2 * FRAC && k <= -54
    ensures RoundPow(h, k) == 0
  {
    hide Pow2, RoundNE, Value;
    Pow2Is64();
    Pow2Add(53, 1);
    Pow2Small();
    Pow2Monotone(54, -k);
    ValueSmall(0);
    ValueSmall(1);
    RoundNEIs(h, Pow2(-k), 0);
  }

  lemma {:induction false} RoundPowHuge(h: nat, k: int)
    requires h >= FRAC && k >= 2046
    ensures RoundPow(h, k) == INF
  {
    hide Pow2, RoundNE, Value;
    ValueAt(2045, 2 * FRAC);
    ValueMonotone(INF - 1, INF);
    Pow2Monotone(2046, k);
    Pow2Small();
    Pow2Add(1, 2045);
    assert 2045 * FRAC + 2 * FRAC == INF;
    MulMonotone(FRAC, h, Pow2(k));
    MulMonotone(Pow2(2046), Pow2(k), FRAC);
    assert FRAC * Pow2(2046) == Value(INF);
    RoundNEIsNearest(h * Pow2(k), 1);
  }

  // ---- normalize and frexp are exact ----

  lemma {:induction false} SubnormalTimes(x: Word)
    requires 0 < Magnitude(x) < FRAC
    ensures var y := Mul(x, TWO52);
      && FRAC <= Magnitude(y) < INF && Negative(y) == Negative(x)
      && Value(Magnitude(y)) == Magnitude(x) * FRAC
  {
    hide Value, RoundNE, Pow2, Negative, Magnitude;
    var X := Magnitude(x);
    ValueSmall(X);
    assert Magnitude(TWO52) == 1075 * FRAC && !Negative(TWO52) by { Constants(); }
    ValueNormal(1075, 0);
    Pow2Is64();
    var m := Representable(X, 52);
    assert Value(m) == X * FRAC;
    MulAssociative(X, FRAC, Pow2(1074));
    RoundExact(m, Pow2(1074));
    Pow2Zero();
    ValueNormal(1, 0);
    MulMonotone(1, X, FRAC);
    ValueOrder(FRAC, m);
  }

  lemma {:induction false} Constants()
    ensures Magnitude(TWO52) == TWO52 && !Negative(TWO52)
    ensures Magnitude(ONE) == ONE && !Negative(ONE)
    ensures Magnitude(TWO_53) == TWO_53 && !Negative(TWO_53)
  {}

  /** The leading exponent and significand give back the value. */
  lemma {:induction false} LeadingForm(x: Word)
    requires Finite(x) && !IsZero(x)
    ensures FRAC <= Leading(x) < 2 * FRAC && -1074 <= LeadingExponent(x) <= 1023
    ensures Value(Magnitude(x)) * Pow2(52) == Leading(x) * Pow2(LeadingExponent(x) + 1074)
    ensures Negative(Normalize(x).0) == Negative(x)
  {
    hide Value, Pow2, Mul;
    var y := Normalize(x).0;
    Fields(y);
    Pow2Is64();
    var E, h := Exponent(y), FRAC + Fraction(y);
    if Magnitude(x) < FRAC {
      SubnormalTimes(x);
      ValueSmall(Magnitude(x));
      SubnormalRange(Magnitude(x), Magnitude(y));
      ValueNormal(E, Fraction(y));
    } else {
      ValueNormal(E, Fraction(y));
      Pow2Add(E - 1, 52);
      MulAssociative(h, Pow2(E - 1), Pow2(52));
    }
  }

  /** A scaled-up subnormal stays below 2^104 units. */
  lemma {:induction false} SubnormalRange(X: nat, m: nat)
    requires X < FRAC && Value(m) == X * FRAC
    ensures m / FRAC <= 53
  {
    hide Value, Pow2;
    Pow2Is64();
    ValueNormal(53, 0);
    MulMonotone(X, FRAC, FRAC);
    ValueOrder(53 * FRAC, m);
  }

  /** `frexp`: the fraction is in [1/2, 1) and fraction * 2^exp is the argument. */
  lemma {:induction false} FrexpExact(f: Word)
    requires Finite(f) && !IsZero(f)
    ensures var (frac, exp) := Frexp(f);
      && Negative(frac) == Negative(f)
      && Pow2(1073) <= Value(Magnitude(frac)) < Pow2(1074)
      && -1073 <= exp <= 1024
      && Value(Magnitude(f)) * Pow2(1074) == Value(Magnitude(frac)) * Pow2(exp + 1074)
  {
    hide Value, Pow2, Mul, Leading, LeadingExponent, Normalize;
    FrexpForm(f);
    LeadingForm(f);
    var M, t := Leading(f), LeadingExponent(f);
    ValueNormal(1022, M - FRAC);
    Pow2Is64();
    Pow2Add(52, 1021);
    Pow2Add(53, 1021);
    MulMonotone(FRAC, M, Pow2(1021));
    MulMonotone(M, 2 * FRAC, Pow2(1021));
    FrexpScale(Value(Magnitude(f)), M, t);
  }

  lemma {:induction false} FrexpForm(f: Word)
    requires Finite(f) && !IsZero(f)
    ensures Negative(Frexp(f).0) == Negative(Normalize(f).0)
    ensures Magnitude(Frexp(f).0) == 1022 * FRAC + (Leading(f) - FRAC)
    ensures Frexp(f).1 == LeadingExponent(f) + 1
  {
    hide Mul, Value;
  }

  lemma {:induction false} FrexpScale(X: nat, M: nat, t: int)
    requires t >= -1074 && X * Pow2(52) == M * Pow2(t + 1074)
    ensures X * Pow2(1074) == (M * Pow2(1021)) * Pow2(t + 1 + 1074)
  {
    hide Pow2;
    Pow2Add(52, 1022);
    Pow2Add(t + 1074, 1022);
    Pow2Add(1021, t + 1075);
    MulAssociative(X, Pow2(52), Pow2(1022));
    MulAssociative(M, Pow2(t + 1074), Pow2(1022));
    MulAssociative(M, Pow2(1021), Pow2(t + 1075));
  }

  // ---- ldexp ----

  /** The correctly rounded frac * 2^exp, with the sign of frac. */
  function Reference(frac: Word, exp: int): (r: Word) {
    WithSign(Negative(frac), RoundPow(Value(Magnitude(frac)), exp))
  }

  /** The sum of exponents that `ldexp` forms stays within a 64-bit int. */
  predicate SumFits(frac: Word, exp: int) {
    -INT64 <= exp + LeadingExponent(frac) < INT64
  }

  lemma {:induction false} RoundPowLeading(frac: Word, exp: int)
    requires Finite(frac) && !IsZero(frac)
    ensures RoundPow(Value(Magnitude(frac)), exp)
         == RoundPow(Leading(frac), exp + LeadingExponent(frac) + 1022)
  {
    hide Pow2, RoundPow, Value, Leading, LeadingExponent, Magnitude;
    LeadingForm(frac);
    var X, M, t := Value(Magnitude(frac)), Leading(frac), LeadingExponent(frac);
    RoundPowShift(X, 52, exp - 52);
    RoundPowShift(M, t + 1074, exp - 52);
  }

  lemma {:induction false} ScaledPattern(E: nat, f: nat, c: Word, d: nat, k: int)
    requires 1 <= E <= 2046 && f < FRAC
    requires c < SIGN && c / FRAC == d && c % FRAC == 0 && d >= 1
    requires c < INF && k == E - 1 + d - 1 + 52 - 1074
    ensures RoundNE(Value(c) * Value(E * FRAC + f), Unit()) == RoundPow(FRAC + f, k)
  {
    hide Pow2, RoundPow, RoundNE, Value;
    var M := FRAC + f;
    ValueNormal(E, f);
    ValueNormal(d, 0);
    Pow2Is64();
    Pow2Add(52, d - 1);
    Pow2Add(52 + d - 1, E - 1);
    assert Value(c) == Pow2(52 + d - 1);
    assert Pow2(52 + d - 1) * (M * Pow2(E - 1)) == M * (Pow2(52 + d - 1) * Pow2(E - 1));
    RoundPowRatio(M, 52 + d - 1 + E - 1, 1074);
  }

  /** Scaling by 1 or by 2^-53 rounds once. */
  lemma {:induction false} LdexpMiddle(negative: bool, E: nat, f: nat, c: Word, k: int)
    requires 1 <= E <= 2046 && f < FRAC
    requires (c == ONE && k == E - 1) || (c == TWO_53 && k == E - 54)
    ensures Mul(c, WithSign(negative, E * FRAC + f)) == WithSign(negative, RoundPow(FRAC + f, k))
  {
    hide Pow2, RoundPow, RoundNE, Value, Negative, Magnitude;
    Constants();
    ScaledPattern(E, f, c, if c == ONE then 1023 else 970, k);
  }

  lemma {:induction false} LdexpSum(frac: Word, exp: int)
    requires Finite(frac) && !IsZero(frac) && -INT64 <= exp < INT64
    ensures var (y, e) := Normalize(frac);
      WrapInt(WrapInt(exp + e) + (Exponent(y) - BIAS)) == WrapInt(exp + LeadingExponent(frac))
  {
    hide Value, Pow2, Mul;
    LeadingForm(frac);
    var (y, e) := Normalize(frac);
    var a, b := exp + e, Exponent(y) - BIAS;
    assert -1074 <= b <= 1024;
  }

  /** `ldexp` after the sum: what it returns is a function of the wrapped sum t. */
  lemma {:induction false} LdexpForm(frac: Word, exp: int, t: int)
    requires Finite(frac) && !IsZero(frac) && -INT64 <= exp < INT64
    requires t == WrapInt(exp + LeadingExponent(frac))
    ensures Ldexp(frac, exp) == WithSign(Negative(frac), RoundPow(Leading(frac), t + 1022))
  {
    hide Value, Pow2, Mul, RoundPow, Negative, Magnitude, WrapInt, Exponent, Fraction;
    LeadingForm(frac);
    LdexpSum(frac, exp);
    var y := Normalize(frac).0;
    if t < -1075 {
      RoundPowTiny(Leading(frac), t + 1022);
    } else if t > 1023 {
      RoundPowHuge(Leading(frac), t + 1022);
    } else if t < -1022 {
      LdexpMiddle(Negative(y), t + 53 + BIAS, Fraction(y), TWO_53, t + 1022);
    } else {
      LdexpMiddle(Negative(y), t + BIAS, Fraction(y), ONE, t + 1022);
    }
  }

  /** `ldexp` is the correctly rounded product exactly when its exponent sum does not wrap. */
  lemma {:induction false} LdexpCorrect(frac: Word, exp: int)
    requires Finite(frac) && !IsZero(frac) && -INT64 <= exp < INT64
    ensures Ldexp(frac, exp) == Reference(frac, exp) <==> SumFits(frac, exp)
  {
    hide Value, Pow2, RoundPow, Negative, Magnitude, Leading, LeadingExponent, Ldexp, WithSign;
    LeadingForm(frac);
    var s := exp + LeadingExponent(frac);
    var t := WrapInt(s);
    LdexpForm(frac, exp, t);
    RoundPowLeading(frac, exp);
    if s >= INT64 {
      RoundPowTiny(Leading(frac), t + 1022);
      RoundPowHuge(Leading(frac), s + 1022);
    } else if s < -INT64 {
      RoundPowHuge(Leading(frac), t + 1022);
      RoundPowTiny(Leading(frac), s + 1022);
    }
  }

  /** The wrap is reachable: Ldexp(0.5, MinInt) is +Inf although 0.5 * 2^MinInt rounds to 0. */
  lemma {:induction false} LdexpWraps()
    ensures Ldexp(1022 * FRAC, -INT64) == INF
    ensures Reference(1022 * FRAC, -INT64) == 0
  {
    hide Value, Pow2, RoundPow;
    var half: Word := 1022 * FRAC;
    assert LeadingExponent(half) == -1;
    LeadingForm(half);
    LdexpForm(half, -INT64, INT64 - 1);
    RoundPowHuge(Leading(half), INT64 - 1 + 1022);
    RoundPowLeading(half, -INT64);
    RoundPowTiny(Leading(half), -INT64 - 1 + 1022);
  }
}
