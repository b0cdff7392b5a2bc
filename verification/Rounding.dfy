/**
 Trunc, Round and RoundToEven of math/floor.go, which work on the bit pattern: adding to
 the pattern lets a carry run from the fraction into the exponent, and clearing the low
 bits truncates. Each is proved to deliver the integer its comment describes.
 */
module Rounding {
  import opened Words
  import opened Float64

  const ONE: Word := 1023 * FRAC
  const HALF: nat := 0x8_0000_0000_0000    // 2^51

  function Trunc(x: Word): (r: Word) {
    if Magnitude(x) < ONE then WithSign(Negative(x), 0)
    else
      var e := Exponent(x) - BIAS;
      if e < 52 then AndNot(x, Pow2(52 - e) - 1) else x
  }

  function Round(x: Word): (r: Word) {
    var e := Exponent(x);
    if e < BIAS then WithSign(Negative(x), if e == BIAS - 1 then ONE else 0)
    else if e < BIAS + 52 then
      AndNot(Words.Add(x, Shr(HALF, e - BIAS)), Shr(FRAC - 1, e - BIAS))
    else x
  }

  function RoundToEven(x: Word): (r: Word) {
    var e := Exponent(x);
    if e >= BIAS then
      var d := e - BIAS;
      var odd := Shr(x, USub(52, d)) % 2;
      AndNot(Words.Add(x, Shr(HALF - 1 + odd, d)), Shr(FRAC - 1, d))
    else if e == BIAS - 1 && Fraction(x) != 0 then WithSign(Negative(x), ONE)
    else WithSign(Negative(x), 0)
  }

  // ---- what the results mean ----

  /** r is the integer n, with x's sign. */
  predicate IsInteger(x: Word, r: Word, n: nat) {
    Finite(r) && Negative(r) == Negative(x) && Value(Magnitude(r)) == n * Unit()
  }

  /** n is the magnitude X rounded toward zero, in whole units of U. */
  predicate TowardZero(X: nat, U: nat, n: nat) { n * U <= X < (n + 1) * U }

  /** n is nearest to X/U, halves away from zero. */
  predicate NearestAway(X: nat, U: nat, n: nat) {
    2 * n * U <= 2 * X + U < 2 * (n + 1) * U
  }

  /** n is nearest to X/U, halves to even. */
  predicate NearestEven(X: nat, U: nat, n: nat) {
    && 2 * n * U <= 2 * X + U
    && 2 * X <= (2 * n + 1) * U
    && (2 * n * U == 2 * X + U || 2 * X == (2 * n + 1) * U ==> n % 2 == 0)
  }

  // ---- adding to a pattern and clearing its low bits ----

  lemma {:induction false} ClearLow(k: nat, a: nat, G: nat)
    requires G > 0
    ensures (k * G + a) - (k * G + a) % G == k * G + (a / G) * G
  {
    var n, rest := a / G, a % G;
    assert a == n * G + rest;
    assert (k + n) * G == k * G + n * G;
    DivModUnique(k * G + a, G, k + n, rest);
  }

  /** The pattern is its exponent part plus the 53-bit significand. */
  lemma {:induction false} PatternParts(x: Word, e: nat) returns (base: nat)
    requires e < 52 && Exponent(x) == BIAS + e
    ensures base == (1022 + e) * FRAC + (if Negative(x) then SIGN else 0)
    ensures x == base + (FRAC + Fraction(x))
    ensures Value(Magnitude(x)) == (FRAC + Fraction(x)) * Pow2(1022 + e)
  {
    hide Pow2, Value;
    base := (1022 + e) * FRAC + (if Negative(x) then SIGN else 0);
    Fields(x);
    SignAndMagnitude(x);
    ValueNormal(BIAS + e, Fraction(x));
  }

  lemma {:induction false} PatternOf(negative: bool, q: nat, h: nat)
    requires h <= 2 * FRAC && q <= 1100
    ensures var r: Word := q * FRAC + (if negative then SIGN else 0) + h;
      Magnitude(r) == q * FRAC + h && Negative(r) == negative && Finite(r)
  {}

  /** Clearing the low g bits of a pattern after adding c to it. */
  lemma {:induction false} ClearedBits(base: nat, k: nat, M: nat, c: nat, g: nat)
    requires base == k * Pow2(g)
    ensures AndNot(base + M + c, Pow2(g) - 1) == base + ((M + c) / Pow2(g)) * Pow2(g)
  {
    hide Pow2, AndNot;
    AndNotMask(base + M + c, g);
    ClearLow(k, M + c, Pow2(g));
  }

  lemma {:induction false} ClearedValue(e: nat, n: nat)
    requires e < 52 && FRAC <= n * Pow2(52 - e) <= 2 * FRAC
    ensures Value((1022 + e) * FRAC + n * Pow2(52 - e)) == n * Unit()
  {
    hide Pow2, Value;
    ValueAt(1022 + e, n * Pow2(52 - e));
    Pow2Add(52 - e, 1022 + e);
    MulAssociative(n, Pow2(52 - e), Pow2(1022 + e));
  }

  /** Adding c and clearing the fraction bits leaves the integer (M + c) / 2^g. */
  lemma {:induction false} ClearedPattern(x: Word, e: nat, c: nat) returns (n: nat, M: nat)
    requires e < 52 && Exponent(x) == BIAS + e && c <= Pow2(52 - e)
    ensures M == FRAC + Fraction(x) && n == (M + c) / Pow2(52 - e)
    ensures Value(Magnitude(x)) == M * Pow2(1022 + e)
    ensures x + c < W64
    ensures IsInteger(x, AndNot(x + c, Pow2(52 - e) - 1), n)
  {
    hide Pow2, Value, AndNot, Magnitude, Negative, ExponentPart, Unit;
    var base := PatternParts(x, e);
    M := FRAC + Fraction(x);
    n := (M + c) / Pow2(52 - e);
    Pow2Is64();
    Pow2Add(e, 52 - e);
    Pow2Monotone(52 - e, 52);
    BaseMultiple(e, Pow2(e), Pow2(52 - e), Negative(x));
    ClearedBits(base, ExponentPart(e, Pow2(e), Negative(x)), M, c, 52 - e);
    SignificandRange(M, c, Pow2(52 - e), Pow2(e), n);
    ClearedValue(e, n);
    PatternOf(Negative(x), 1022 + e, n * Pow2(52 - e));
  }

  /** The exponent part of a pattern, in multiples of FRAC / 2^e. */
  function ExponentPart(e: nat, p: nat, negative: bool): nat {
    (1022 + e) * p + (if negative then 2048 * p else 0)
  }

  lemma {:induction false} BaseMultiple(e: nat, p: nat, G: nat, negative: bool)
    requires p * G == FRAC
    ensures ExponentPart(e, p, negative) * G == (1022 + e) * FRAC + (if negative then SIGN else 0)
  {
    MulAssociative(1022 + e, p, G);
    MulAssociative(2048, p, G);
  }

  lemma {:induction false} SignificandRange(M: nat, c: nat, G: nat, p: nat, n: nat)
    requires FRAC <= M < 2 * FRAC && c <= G && p * G == FRAC && G > 0 && n == (M + c) / G
    ensures FRAC <= n * G <= 2 * FRAC
  {
    QuotientRange(M + c, G, p, n);
    MulMonotone(p, n, G);
    MulMonotone(n, 2 * p, G);
    MulAssociative(2, p, G);
  }

  lemma {:induction false} QuotientRange(a: nat, G: nat, p: nat, n: nat)
    requires G > 0 && p * G <= a < 2 * (p * G) + G && n == a / G
    ensures p <= n <= 2 * p
  {
    DivBounds(a, G);
    MulAssociative(2, p, G);
    MulCancel(p, n + 1, G);
    MulCancel(n, 2 * p + 1, G);
  }

  // ---- the three functions ----

  lemma {:induction false} Shifts(e: nat)
    requires e < 52
    ensures Shr(FRAC - 1, e) == Pow2(52 - e) - 1
    ensures Shr(HALF, e) == Pow2(51 - e) && Shr(HALF - 1, e) == Pow2(51 - e) - 1
    ensures Pow2(52 - e) == 2 * Pow2(51 - e)
  {
    hide Pow2;
    Pow2Is64();
    Pow2Small();
    Pow2Add(51, 1);
    Pow2Add(51 - e, 1);
    Pow2Add(51 - e, e);
    Pow2Add(52 - e, e);
    QuotientMinusOne(Pow2(52 - e), Pow2(e));
    QuotientMinusOne(Pow2(51 - e), Pow2(e));
    DivModUnique(HALF, Pow2(e), Pow2(51 - e), 0);
  }

  lemma {:induction false} QuotientMinusOne(a: nat, b: nat)
    requires a > 0 && b > 0
    ensures (a * b - 1) / b == a - 1
  {
    assert a * b - 1 == (a - 1) * b + (b - 1);
    DivModUnique(a * b - 1, b, a - 1, b - 1);
  }

  /** Below one unit: a pattern with exponent field under BIAS. */
  lemma {:induction false} BelowOne(x: Word)
    requires Exponent(x) < BIAS
    ensures Value(Magnitude(x)) < Unit()
    ensures Exponent(x) < BIAS - 1 ==> 2 * Value(Magnitude(x)) < Unit()
    ensures Exponent(x) == BIAS - 1 ==> 2 * Value(Magnitude(x)) >= Unit()
    ensures Exponent(x) == BIAS - 1 && Fraction(x) == 0 ==> 2 * Value(Magnitude(x)) == Unit()
    ensures Exponent(x) == BIAS - 1 && Fraction(x) != 0 ==> 2 * Value(Magnitude(x)) > Unit()
  {
    hide Pow2, Value, Exponent, Fraction, Magnitude;
    Fields(x);
    Pow2Is64();
    Pow2Small();
    Pow2Add(52, 1022);
    Pow2Add(52, 1021);
    Pow2Add(1073, 1);
    ValueNormal(1023, 0);
    ValueNormal(1022, 0);
    assert Value(1023 * FRAC) == Unit();
    assert 2 * Value(1022 * FRAC) == Unit();
    var m := Magnitude(x);
    OrderAgainst(m, 1023 * FRAC);
    OrderAgainst(m, 1022 * FRAC);
  }

  lemma {:induction false} OrderAgainst(a: nat, b: nat)
    ensures a < b <==> Value(a) < Value(b)
    ensures a == b <==> Value(a) == Value(b)
  {
    hide Value;
    ValueOrder(a, b);
    ValueOrder(b, a);
  }

  /** With the exponent at BIAS + 52 or more there are no fraction bits. */
  lemma {:induction false} LargeIsInteger(x: Word) returns (n: nat)
    requires Finite(x) && Exponent(x) >= BIAS + 52
    ensures IsInteger(x, x, n) && Value(Magnitude(x)) == n * Unit()
  {
    hide Pow2, Value, Magnitude, Exponent, Fraction, Negative;
    Fields(x);
    var E, M := Exponent(x), FRAC + Fraction(x);
    ValueNormal(E, Fraction(x));
    Pow2Add(E - 1075, 1074);
    n := M * Pow2(E - 1075);
    MulAssociative(M, Pow2(E - 1075), Pow2(1074));
  }

  lemma {:induction false} ScaleQuotient(M: nat, c: nat, G: nat, n: nat, P: nat)
    requires G > 0 && n == (M + c) / G
    ensures n * (G * P) <= M * P + c * P
    ensures P > 0 ==> M * P + c * P < (n + 1) * (G * P)
  {
    DivBounds(M + c, G);
    MulAssociative(n, G, P);
    MulAssociative(n + 1, G, P);
    DistributeTwo(M, c, P);
    MulMonotone(n * G, M + c, P);
    MulMonotone(M + c, (n + 1) * G, P);
  }

  lemma {:induction false} TruncCorrect(x: Word) returns (n: nat)
    requires Finite(x)
    ensures IsInteger(x, Trunc(x), n) && TowardZero(Value(Magnitude(x)), Unit(), n)
  {
    hide Pow2, Value, Magnitude, Negative, AndNot, IsInteger;
    Fields(x);
    if Magnitude(x) < ONE {
      BelowOne(x);
      ZeroInteger(x);
      n := 0;
    } else if Exponent(x) < BIAS + 52 {
      var e := Exponent(x) - BIAS;
      var M;
      n, M := ClearedPattern(x, e, 0);
      Pow2Add(52 - e, 1022 + e);
      ScaleQuotient(M, 0, Pow2(52 - e), n, Pow2(1022 + e));
    } else {
      n := LargeIsInteger(x);
      assert (n + 1) * Unit() == n * Unit() + Unit();
    }
  }

  lemma {:induction false} ZeroInteger(x: Word)
    ensures IsInteger(x, WithSign(Negative(x), 0), 0)
  {
    ValueSmall(0);
  }

  lemma {:induction false} OneInteger(x: Word)
    ensures IsInteger(x, WithSign(Negative(x), ONE), 1)
  {
    hide Pow2, Value;
    Pow2Is64();
    Pow2Add(52, 1022);
    ValueNormal(1023, 0);
  }

  lemma {:induction false} AwayFrom(X: nat, U: nat, n: nat, c: nat)
    requires U == 2 * c && n * U <= X + c < (n + 1) * U
    ensures NearestAway(X, U, n)
  {
    assert 2 * n * U == 2 * (n * U);
    assert 2 * (n + 1) * U == 2 * ((n + 1) * U);
  }

  lemma {:induction false} UnitIsEven()
    ensures Unit() == 2 * Pow2(1073)
  {}

  lemma {:induction false} RoundMiddle(x: Word, e: nat) returns (n: nat)
    requires Exponent(x) == BIAS + e && e < 52
    ensures IsInteger(x, Round(x), n) && NearestAway(Value(Magnitude(x)), Unit(), n)
  {
    hide Pow2, Value, Magnitude, Negative, AndNot, IsInteger, Shr, Unit, NearestAway;
    Shifts(e);
    var c := Pow2(51 - e);
    var M;
    n, M := ClearedPattern(x, e, c);
    UnitIsEven();
    UnitScale(e);
    ScaleQuotient(M, c, Pow2(52 - e), n, Pow2(1022 + e));
    AwayFrom(Value(Magnitude(x)), Unit(), n, Pow2(1073));
  }

  lemma {:induction false} UnitScale(e: nat)
    requires e < 52
    ensures Pow2(52 - e) * Pow2(1022 + e) == Unit()
    ensures Pow2(51 - e) * Pow2(1022 + e) == Pow2(1073)
  {
    hide Pow2;
    Pow2Add(52 - e, 1022 + e);
    Pow2Add(51 - e, 1022 + e);
  }

  /** `Round`: the nearest integer, halves away from zero. */
  lemma {:induction false} RoundCorrect(x: Word) returns (n: nat)
    requires Finite(x)
    ensures IsInteger(x, Round(x), n) && NearestAway(Value(Magnitude(x)), Unit(), n)
  {
    hide Pow2, Value, Magnitude, Negative, AndNot, IsInteger, Shr, Unit;
    Fields(x);
    if Exponent(x) < BIAS {
      BelowOne(x);
      ZeroInteger(x);
      OneInteger(x);
      n := if Exponent(x) == BIAS - 1 then 1 else 0;
    } else if Exponent(x) < BIAS + 52 {
      n := RoundMiddle(x, Exponent(x) - BIAS);
    } else {
      n := LargeIsInteger(x);
      UnitIsEven();
      var U := Unit();
      assert (n + 1) * U == n * U + U;
      AwayFrom(n * U, U, n, Pow2(1073));
    }
  }

  lemma {:induction false} RoundOther(x: Word)
    requires !Finite(x)
    ensures Round(x) == x && RoundToEven(x) == x && Trunc(x) == x
  {
    hide Pow2, AndNot;
    var d := Exponent(x) - BIAS;
    assert d == 1024;
    assert Shr(FRAC - 1, d) == 0;
    AndNotZero(x);
  }

  lemma {:induction false} QuotientOf(k: nat, M: nat, G: nat)
    requires G > 0
    ensures (k * G + M) / G == k + M / G
  {
    var n, rest := M / G, M % G;
    assert (k + n) * G == k * G + n * G;
    DivModUnique(k * G + M, G, k + n, rest);
  }

  lemma {:induction false} ParityOf(x: nat, k: nat, M: nat, G: nat)
    requires G > 0 && x == k * G + M && k % 2 == 0
    ensures (x / G) % 2 == (M / G) % 2
  {
    QuotientOf(k, M, G);
  }

  lemma {:induction false} EvenBase(e: nat, negative: bool)
    ensures ExponentPart(e, Pow2(e), negative) % 2 == 0
  {
    if e == 0 {
    } else {
      var p := Pow2(e - 1);
      assert Pow2(e) == 2 * p;
      hide Pow2, ExponentPart;
      EvenPart(e, p, negative);
    }
  }

  lemma {:induction false} EvenPart(e: nat, p: nat, negative: bool)
    ensures ExponentPart(e, 2 * p, negative) % 2 == 0
  {
    var h := (1022 + e) * p;
    assert (1022 + e) * (2 * p) == 2 * h;
    assert ExponentPart(e, 2 * p, negative) == 2 * (h + (if negative then 2048 * p else 0));
  }

  /** The parity bit the code reads is the parity of the integer part. */
  lemma {:induction false} ParityBit(x: Word, e: nat)
    requires e < 52 && Exponent(x) == BIAS + e
    ensures Shr(x, USub(52, e)) % 2 == ((FRAC + Fraction(x)) / Pow2(52 - e)) % 2
  {
    hide Pow2, Value, Magnitude, Negative, Fraction, ExponentPart;
    var G, M := Pow2(52 - e), FRAC + Fraction(x);
    Pow2Is64();
    Pow2Add(e, 52 - e);
    var base := PatternParts(x, e);
    BaseMultiple(e, Pow2(e), G, Negative(x));
    EvenBase(e, Negative(x));
    var k := ExponentPart(e, Pow2(e), Negative(x));
    ParityOf(x, k, M, G);
    assert USub(52, e) == 52 - e;
  }

  lemma {:induction false} EvenFrom(M: nat, H: nat, G: nat, n: nat, odd: nat)
    requires H > 0 && G == 2 * H && odd == (M / G) % 2 && n == (M + H - 1 + odd) / G
    ensures NearestEven(M, G, n)
  {
    hide NearestEven;
    var a, b := M / G, M % G;
    assert M == a * G + b;
    Distribute(a, 1, G);
    if b + H - 1 + odd < G {
      DivModUnique(M + H - 1 + odd, G, a, b + H - 1 + odd);
      EvenLow(a, b, H, G);
    } else {
      DivModUnique(M + H - 1 + odd, G, a + 1, b + H - 1 + odd - G);
      EvenHigh(a, b, H, G);
    }
  }

  lemma {:induction false} EvenLow(a: nat, b: nat, H: nat, G: nat)
    requires H > 0 && G == 2 * H && b < G && (b < H || (b == H && a % 2 == 0))
    ensures NearestEven(a * G + b, G, a)
  {
    MulAssociative(2, a, G);
    Distribute(2 * a, 1, G);
  }

  lemma {:induction false} EvenHigh(a: nat, b: nat, H: nat, G: nat)
    requires H > 0 && G == 2 * H && b < G && (b > H || (b == H && a % 2 == 1))
    ensures NearestEven(a * G + b, G, a + 1)
  {
    MulAssociative(2, a, G);
    MulAssociative(2, a + 1, G);
    Distribute(a, 1, G);
    Distribute(2 * (a + 1), 1, G);
  }

  lemma {:induction false} EvenScale(M: nat, G: nat, n: nat, P: nat)
    requires NearestEven(M, G, n) && P > 0
    ensures NearestEven(M * P, G * P, n)
  {
    MulAssociative(2 * n, G, P);
    MulAssociative(2 * n + 1, G, P);
    MulAssociative(2, M, P);
    DistributeTwo(2 * M, G, P);
    MulCancel(2 * n * G, 2 * M + G, P);
    MulCancel(2 * M, (2 * n + 1) * G, P);
  }

  lemma {:induction false} RoundToEvenPattern(x: Word, e: nat) returns (odd: nat)
    requires Exponent(x) == BIAS + e && e < 52
    ensures odd == ((FRAC + Fraction(x)) / Pow2(52 - e)) % 2
    ensures Pow2(51 - e) < FRAC
    ensures RoundToEven(x)
         == AndNot(Words.Add(x, Pow2(51 - e) - 1 + odd), Pow2(52 - e) - 1)
  {
    hide Pow2, Value, Magnitude, Negative, AndNot, Shr, USub;
    Shifts(e);
    Pow2Is64();
    Pow2Monotone(51 - e, 52);
    ParityBit(x, e);
    odd := Shr(x, USub(52, e)) % 2;
  }

  lemma {:induction false} RoundToEvenMiddle(x: Word, e: nat) returns (n: nat)
    requires Exponent(x) == BIAS + e && e < 52
    ensures IsInteger(x, RoundToEven(x), n) && NearestEven(Value(Magnitude(x)), Unit(), n)
  {
    hide Pow2, Value, Magnitude, Negative, AndNot, IsInteger, Shr, Unit, NearestEven, RoundToEven, Fraction;
    Shifts(e);
    var odd := RoundToEvenPattern(x, e);
    var M;
    var c := Pow2(51 - e) - 1 + odd;
    n, M := ClearedPattern(x, e, c);
    EvenFrom(M, Pow2(51 - e), Pow2(52 - e), n, odd);
    UnitScale(e);
    EvenScale(M, Pow2(52 - e), n, Pow2(1022 + e));
  }

  /** `RoundToEven`: the nearest integer, halves to even. */
  lemma {:induction false} RoundToEvenCorrect(x: Word) returns (n: nat)
    requires Finite(x)
    ensures IsInteger(x, RoundToEven(x), n) && NearestEven(Value(Magnitude(x)), Unit(), n)
  {
    hide Pow2, Value, Magnitude, Negative, AndNot, IsInteger, Shr, USub, Unit;
    Fields(x);
    if Exponent(x) < BIAS {
      BelowOne(x);
      ZeroInteger(x);
      OneInteger(x);
      n := if Exponent(x) == BIAS - 1 && Fraction(x) != 0 then 1 else 0;
    } else if Exponent(x) < BIAS + 52 {
      n := RoundToEvenMiddle(x, Exponent(x) - BIAS);
    } else {
      n := RoundToEvenLarge(x);
    }
  }

  lemma {:induction false} RoundToEvenLarge(x: Word) returns (n: nat)
    requires Finite(x) && Exponent(x) >= BIAS + 52
    ensures IsInteger(x, RoundToEven(x), n) && NearestEven(Value(Magnitude(x)), Unit(), n)
  {
    hide Pow2, Value, Magnitude, Negative, AndNot, IsInteger, NearestEven, Unit;
    var d := Exponent(x) - BIAS;
    n := LargeIsInteger(x);
    AndNotZero(x);
    LargeShifts(d);
    EvenExact(n, Unit());
  }

  lemma {:induction false} EvenExact(n: nat, U: nat)
    requires U > 0
    ensures NearestEven(n * U, U, n)
  {
    MulAssociative(2, n, U);
    Distribute(2 * n, 1, U);
  }

  lemma {:induction false} LargeShifts(d: nat)
    requires d >= 52
    ensures Shr(FRAC - 1, d) == 0 && Shr(HALF - 1, d) == 0 && Shr(HALF, d) == 0
  {
    hide Pow2;
    if d < 64 {
      Pow2Is64();
      Pow2Monotone(52, d);
      DivModUnique(FRAC - 1, Pow2(d), 0, FRAC - 1);
      DivModUnique(HALF - 1, Pow2(d), 0, HALF - 1);
      DivModUnique(HALF, Pow2(d), 0, HALF);
    }
  }

  // ---- the definitions in the comments ----

  const ONE_HALF: Word := 1022 * FRAC

  /** The definition of Round in its comment, with the machine's own arithmetic. */
  function RoundSimple(x: Word): (r: Word) {
    var t := Trunc(x);
    if Magnitude(Sub(x, t)) >= ONE_HALF then Float64.Add(t, WithSign(Negative(x), ONE)) else t
  }

  /** The integer value of t is odd; stands for Remainder(t, 2) != 0. */
  predicate OddInteger(t: Word) { (Value(Magnitude(t)) / Unit()) % 2 == 1 }

  /** The definition of RoundToEven in its comment. */
  function RoundToEvenSimple(x: Word): (r: Word) {
    var t := Trunc(x);
    var d := Magnitude(Sub(x, t));
    if d > ONE_HALF || (d == ONE_HALF && OddInteger(t)) then Float64.Add(t, WithSign(Negative(x), ONE))
    else t
  }

  /** x - Trunc(x) is exact. */
  lemma {:induction false} FractionalPart(x: Word, n: nat) returns (d: nat)
    requires Finite(x) && IsInteger(x, Trunc(x), n) && TowardZero(Value(Magnitude(x)), Unit(), n)
    ensures d < INF && Value(d) == Value(Magnitude(x)) - n * Unit()
  {
    hide Pow2, Value, Magnitude, Negative, AndNot, Exponent, Fraction, IsInteger;
    Fields(x);
    if Exponent(x) < BIAS {
      BelowOne(x);
      SmallQuotient(n, Unit(), Value(Magnitude(x)));
      d := Magnitude(x);
    } else if Exponent(x) < BIAS + 52 {
      d := MiddleFraction(x, Exponent(x) - BIAS, n);
    } else {
      var n' := LargeIsInteger(x);
      MulCancel(n', n + 1, Unit());
      MulCancel(n, n', Unit());
      d := 0;
      ValueSmall(0);
    }
  }

  lemma {:induction false} SmallQuotient(n: nat, U: nat, X: nat)
    requires X < U && n * U <= X
    ensures n == 0
  {
    if n > 0 {
      MulMonotone(1, n, U);
    }
  }

  lemma {:induction false} MiddleFraction(x: Word, e: nat, n: nat) returns (d: nat)
    requires Exponent(x) == BIAS + e && e < 52 && TowardZero(Value(Magnitude(x)), Unit(), n)
    ensures d < INF && Value(d) == Value(Magnitude(x)) - n * Unit()
  {
    hide Pow2, Value, Magnitude, Negative, Fraction;
    var base := PatternParts(x, e);
    var M, P := FRAC + Fraction(x), Pow2(1022 + e);
    UnitScale(e);
    MulAssociative(n, Pow2(52 - e), P);
    var h := n * Pow2(52 - e);
    MulCancel(h, M, P);
    assert (M - h) * P == M * P - h * P;
    d := Representable(M - h, 1022 + e);
  }

  /** The difference and the increment of the comment's definition, exactly. */
  lemma {:induction false} SimpleParts(x: Word, n: nat)
    requires Finite(x) && IsInteger(x, Trunc(x), n) && TowardZero(Value(Magnitude(x)), Unit(), n)
    ensures var d := Magnitude(Sub(x, Trunc(x)));
      && d < INF && Value(d) == Value(Magnitude(x)) - n * Unit()
      && (d >= ONE_HALF <==> 2 * Value(d) >= Unit())
      && (d > ONE_HALF <==> 2 * Value(d) > Unit())
  {
    hide Pow2, Value, Magnitude, Negative, Trunc, Unit, RoundNE, WithSign;
    var d := FractionalPart(x, n);
    var t := Trunc(x);
    RoundExact(d, 1);
    ValueSmall(0);
    DifferenceOf(x, t, d);
    HalfValue();
    OrderAgainst(ONE_HALF, d);
  }

  lemma {:induction false} HalfValue()
    ensures 2 * Value(ONE_HALF) == Unit()
  {
    hide Pow2, Value;
    ValueNormal(1022, 0);
    Pow2Is64();
    Pow2Small();
    Pow2Add(52, 1021);
    Pow2Add(1073, 1);
  }

  lemma {:induction false} DifferenceOf(x: Word, t: Word, d: nat)
    requires Finite(x) && Finite(t) && Negative(t) == Negative(x) && d < INF
    requires Value(d) == Value(Magnitude(x)) - Value(Magnitude(t))
    ensures Magnitude(Sub(x, t)) == d
  {
    hide Value, Magnitude, Negative, RoundNE, WithSign;
    RoundExact(d, 1);
    ValueSmall(0);
    OrderAgainst(0, d);
  }

  /** t + 1 away from zero is exact while there are fraction bits. */
  lemma {:induction false} IncrementExact(x: Word, t: Word, n: nat)
    requires IsInteger(x, t, n) && n < FRAC
    ensures IsInteger(x, Float64.Add(t, WithSign(Negative(x), ONE)), n + 1)
  {
    hide Value, Magnitude, Negative, RoundNE, WithSign, Pow2;
    OneInteger(x);
    var d := Representable(n + 1, 1074);
    RoundExact(d, 1);
    assert (n + 1) * Unit() == n * Unit() + Unit();
  }

  lemma {:induction false} SameInteger(x: Word, a: Word, b: Word, n: nat)
    requires IsInteger(x, a, n) && IsInteger(x, b, n)
    ensures a == b
  {
    hide Value, Magnitude, Negative, WithSign;
    ValueInjective(Magnitude(a), Magnitude(b));
    SignAndMagnitude(a);
    SignAndMagnitude(b);
  }

  lemma {:induction false} AwayUnique(X: nat, U: nat, a: nat, b: nat)
    requires U > 0 && NearestAway(X, U, a) && NearestAway(X, U, b)
    ensures a == b
  {
    MulCancel(2 * a, 2 * (b + 1), U);
    MulCancel(2 * b, 2 * (a + 1), U);
  }

  lemma {:induction false} EvenUnique(X: nat, U: nat, a: nat, b: nat)
    requires U > 0 && NearestEven(X, U, a) && NearestEven(X, U, b)
    ensures a == b
  {
    if a < b {
      EvenOrdered(X, U, a, b);
    } else if b < a {
      EvenOrdered(X, U, b, a);
    }
  }

  lemma {:induction false} EvenOrdered(X: nat, U: nat, a: nat, b: nat)
    requires U > 0 && a < b && NearestEven(X, U, a)
    ensures !NearestEven(X, U, b)
  {
    assert (2 * a + 1) * U + U == 2 * (a + 1) * U;
    MulMonotone(2 * (a + 1), 2 * b, U);
    if a + 1 < b {
      MulMonotone(2 * (a + 1), 2 * b, U);
    }
  }

  lemma {:induction false} NextUp(X: nat, U: nat, n: nat)
    requires TowardZero(X, U, n)
    ensures 2 * (X - n * U) >= U ==> NearestAway(X, U, n + 1)
    ensures 2 * (X - n * U) < U ==> NearestAway(X, U, n)
    ensures 2 * (X - n * U) > U || (2 * (X - n * U) == U && n % 2 == 1) ==> NearestEven(X, U, n + 1)
    ensures 2 * (X - n * U) < U || (2 * (X - n * U) == U && n % 2 == 0) ==> NearestEven(X, U, n)
  {
    var y := n * U;
    assert (n + 1) * U == y + U;
    assert 2 * n * U == 2 * y;
    assert 2 * (n + 1) * U == 2 * y + 2 * U;
    assert 2 * (n + 2) * U == 2 * y + 4 * U;
    assert (2 * n + 1) * U == 2 * y + U;
    assert (2 * (n + 1) + 1) * U == 2 * y + 3 * U;
  }

  /** Rounding up only happens while there are fraction bits, so the increment is small. */
  lemma {:induction false} IncrementSmall(x: Word, n: nat)
    requires Finite(x) && TowardZero(Value(Magnitude(x)), Unit(), n)
    requires Value(Magnitude(x)) != n * Unit()
    ensures n < FRAC
  {
    hide Pow2, Value, Magnitude, Negative, Exponent, Fraction;
    Fields(x);
    var U := Unit();
    if Exponent(x) < BIAS {
      BelowOne(x);
      SmallQuotient(n, U, Value(Magnitude(x)));
    } else if Exponent(x) < BIAS + 52 {
      var e := Exponent(x) - BIAS;
      var base := PatternParts(x, e);
      UnitScale(e);
      MulAssociative(n, Pow2(52 - e), Pow2(1022 + e));
      MulCancel(n * Pow2(52 - e), FRAC + Fraction(x), Pow2(1022 + e));
      Shifts(e);
      MulMonotone(2, Pow2(52 - e), n);
    } else {
      var n' := LargeIsInteger(x);
      MulCancel(n', n + 1, U);
      MulCancel(n, n', U);
    }
  }

  /** `Round` is the definition in its comment. */
  lemma {:induction false} RoundIsSimple(x: Word)
    requires Finite(x)
    ensures Round(x) == RoundSimple(x)
  {
    hide Pow2, Value, Magnitude, Negative, Trunc, Round, Unit, IsInteger, NearestAway, TowardZero, Float64.Add, Sub, WithSign;
    var n := TruncCorrect(x);
    SimpleParts(x, n);
    var X, U := Value(Magnitude(x)), Unit();
    NextUp(X, U, n);
    var m := RoundCorrect(x);
    var t := Trunc(x);
    if 2 * (X - n * U) >= U {
      IncrementSmall(x, n);
      IncrementExact(x, t, n);
      AwayUnique(X, U, m, n + 1);
    } else {
      AwayUnique(X, U, m, n);
    }
    SameInteger(x, Round(x), RoundSimple(x), m);
  }

  /** `RoundToEven` is the definition in its comment. */
  lemma {:induction false} RoundToEvenIsSimple(x: Word)
    requires Finite(x)
    ensures RoundToEven(x) == RoundToEvenSimple(x)
  {
    hide Pow2, Value, Magnitude, Negative, Trunc, RoundToEven, Unit, IsInteger, NearestEven, TowardZero, Float64.Add, Sub, WithSign, OddInteger;
    var n := TruncCorrect(x);
    SimpleParts(x, n);
    var X, U := Value(Magnitude(x)), Unit();
    NextUp(X, U, n);
    var m := RoundToEvenCorrect(x);
    var t := Trunc(x);
    IntegerParity(x, t, n);
    if 2 * (X - n * U) > U || (2 * (X - n * U) == U && n % 2 == 1) {
      IncrementSmall(x, n);
      IncrementExact(x, t, n);
      EvenUnique(X, U, m, n + 1);
    } else {
      EvenUnique(X, U, m, n);
    }
    SameInteger(x, RoundToEven(x), RoundToEvenSimple(x), m);
  }

  lemma {:induction false} IntegerParity(x: Word, t: Word, n: nat)
    requires IsInteger(x, t, n)
    ensures OddInteger(t) <==> n % 2 == 1
  {
    hide Value, Magnitude, Negative, Pow2;
    DivModUnique(n * Unit(), Unit(), n, 0);
  }
}
