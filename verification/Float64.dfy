/**
 IEEE 754 binary64 numbers as bit patterns. A pattern is a sign bit, an 11-bit biased
 exponent and a 52-bit fraction. Every finite value is an integer multiple of 2^-1074,
 so `Value` gives the magnitude of a pattern as a natural number in that unit, and all
 statements about rounding are statements about integers and ratios of integers.

 The magnitude patterns 0, 1, 2, ... are in order of value; `INF` follows the largest
 finite pattern, and `Value(INF)` is the value 2^1024 that pattern would have if the
 exponent range were unbounded, which is what section 4.3.1 of IEEE 754-2008 compares
 against when it decides whether a result overflows.
 */
module Float64 {
  import opened Words

  const FRAC: nat := 0x10_0000_0000_0000
  const SIGN: nat := W63
  const INF: nat := 0x7FF0_0000_0000_0000
  const BIAS: nat := 1023
  const NAN: nat := 0x7FF8_0000_0000_0001

  function Negative(b: Word): bool { b >= SIGN }

  function Magnitude(b: Word): (m: nat)
    ensures m < SIGN
  {
    b % SIGN
  }

  function Exponent(b: Word): (e: nat)
    ensures e < 2048
  {
    Magnitude(b) / FRAC
  }

  function Fraction(b: Word): (f: nat)
    ensures f < FRAC
  {
    b % FRAC
  }

  lemma {:induction false} Fields(b: Word)
    ensures Magnitude(b) == Exponent(b) * FRAC + Fraction(b)
  {}

  predicate Finite(b: Word) { Magnitude(b) < INF }

  predicate IsNaN(b: Word) { Magnitude(b) > INF }

  predicate IsZero(b: Word) { Magnitude(b) == 0 }

  function WithSign(negative: bool, m: nat): (b: Word)
    requires m < SIGN
    ensures Negative(b) == negative && Magnitude(b) == m
  {
    if negative then SIGN + m else m
  }

  /** The value of a magnitude pattern, in units of 2^-1074. */
  function Value(m: nat): nat {
    if m < FRAC then m else (FRAC + m % FRAC) * Pow2(m / FRAC - 1)
  }

  /** The scale of a magnitude pattern: its value is its significand times 2^Scale. */
  function Scale(m: nat): nat { if m < FRAC then 0 else m / FRAC - 1 }

  function Significand(m: nat): (h: nat)
    ensures h < 2 * FRAC
    ensures m >= FRAC ==> h >= FRAC
    ensures m == Scale(m) * FRAC + h
    ensures Value(m) == h * Pow2(Scale(m))
  {
    if m < FRAC then m else FRAC + m % FRAC
  }

  lemma {:induction false} ValueNormal(e: nat, f: nat)
    requires e >= 1 && f < FRAC
    ensures Value(e * FRAC + f) == (FRAC + f) * Pow2(e - 1)
  {
    DivModUnique(e * FRAC + f, FRAC, e, f);
    MulMonotone(1, e, FRAC);
  }

  /** A significand of up to 2^53 on scale q; 2^53 itself is the carry into the next binade. */
  lemma {:induction false} ValueAt(q: nat, h: nat)
    requires h <= 2 * FRAC && (q == 0 || FRAC <= h)
    ensures Value(q * FRAC + h) == h * Pow2(q)
  {
    hide Value;
    if h == 2 * FRAC {
      ValueNormal(q + 2, 0);
      assert (q + 2) * FRAC + 0 == q * FRAC + h;
      assert FRAC * (2 * Pow2(q)) == h * Pow2(q);
    } else if h >= FRAC {
      ValueNormal(q + 1, h - FRAC);
      assert (q + 1) * FRAC + (h - FRAC) == q * FRAC + h;
    } else {
      ValueSmall(h);
    }
  }

  lemma {:induction false} ValueSmall(m: nat)
    requires m < FRAC
    ensures Value(m) == m
  {}

  /** Twice the midpoint between a pattern and the next one. */
  lemma {:induction false} MidpointAbove(q: nat, h: nat)
    requires h <= 2 * FRAC && (q == 0 || FRAC <= h)
    ensures var b := q * FRAC + h;
      Value(b) + Value(b + 1) == (if h < 2 * FRAC then 2 * h + 1 else 2 * h + 2) * Pow2(q)
  {
    hide Pow2, Value;
    ValueAt(q, h);
    if h < 2 * FRAC {
      ValueAt(q, h + 1);
      DistributeTwo(h, h + 1, Pow2(q));
    } else {
      ValueAfterCarry(q);
      DistributeTwo(h, h + 2, Pow2(q));
    }
  }

  lemma {:induction false} ValueAfterCarry(q: nat)
    ensures Value(q * FRAC + 2 * FRAC + 1) == (2 * FRAC + 2) * Pow2(q)
  {
    assert Pow2(q + 1) == 2 * Pow2(q);
    hide Pow2, Value;
    ValueAt(q + 1, FRAC + 1);
    assert (q + 1) * FRAC + (FRAC + 1) == q * FRAC + 2 * FRAC + 1;
    MulDouble(FRAC + 1, Pow2(q));
  }

  lemma {:induction false} MulDouble(a: nat, b: nat)
    ensures a * (2 * b) == (2 * a) * b
  {}

  lemma {:induction false} DistributeTwo(a: nat, b: nat, c: nat)
    ensures a * c + b * c == (a + b) * c
  {}

  /** Twice the midpoint between a pattern and the previous one, away from a binade's start. */
  lemma {:induction false} MidpointBelow(q: nat, h: nat)
    requires 0 < h <= 2 * FRAC && (q == 0 || FRAC < h)
    ensures var b := q * FRAC + h; Value(b - 1) + Value(b) == (2 * h - 1) * Pow2(q)
  {
    hide Pow2, Value;
    ValueAt(q, h);
    ValueAt(q, h - 1);
    DistributeTwo(h - 1, h, Pow2(q));
  }

  /** ... and at a binade's start, where the spacing below is half the spacing above. */
  lemma {:induction false} MidpointBelowBinade(q: nat)
    requires q > 0
    ensures var b := q * FRAC + FRAC; Value(b - 1) + Value(b) == (4 * FRAC - 1) * Pow2(q - 1)
  {
    hide Value;
    ValueAt(q, FRAC);
    ValueAt(q - 1, 2 * FRAC - 1);
    assert (q - 1) * FRAC + (2 * FRAC - 1) == q * FRAC + FRAC - 1;
    DistributeTwo(2 * FRAC - 1, 2 * FRAC, Pow2(q - 1));
  }

  lemma {:induction false} ValueStep(m: nat)
    ensures Value(m + 1) == Value(m) + Pow2(Scale(m))
  {
    var q, h := Scale(m), Significand(m);
    ValueAt(q, h);
    ValueAt(q, h + 1);
    assert (h + 1) * Pow2(q) == h * Pow2(q) + Pow2(q);
  }

  lemma {:induction false} ValueMonotone(a: nat, b: nat)
    requires a <= b
    ensures Value(a) <= Value(b)
    ensures a < b ==> Value(a) < Value(b)
    decreases b - a
  {
    if a < b {
      ValueStep(a);
      ValueMonotone(a + 1, b);
    }
  }

  lemma {:induction false} ValueInjective(a: nat, b: nat)
    requires Value(a) == Value(b)
    ensures a == b
  {
    if a < b {
      ValueMonotone(a, b);
    } else if b < a {
      ValueMonotone(b, a);
    }
  }

  lemma {:induction false} ValueOrder(a: nat, b: nat)
    ensures a <= b <==> Value(a) <= Value(b)
  {
    if a <= b {
      ValueMonotone(a, b);
    } else {
      ValueMonotone(b, a);
    }
  }

  /** Any integer below 2^53, on any scale, is the value of a pattern. */
  lemma {:induction false} Representable(h: nat, q: nat) returns (m: nat)
    requires h < 2 * FRAC
    ensures Value(m) == h * Pow2(q)
    ensures m < (q + 2) * FRAC
    decreases q
  {
    if q == 0 || h >= FRAC {
      ValueAt(q, h);
      m := q * FRAC + h;
    } else {
      m := Representable(2 * h, q - 1);
      assert (2 * h) * Pow2(q - 1) == h * Pow2(q);
    }
  }

  // ---- round to nearest, ties to even ----

  /** N/D is nearer to m than to m-1; on a tie m must be even. */
  predicate AboveLow(N: nat, D: nat, m: nat) {
    m > 0 ==>
      && 2 * N >= (Value(m - 1) + Value(m)) * D
      && (2 * N == (Value(m - 1) + Value(m)) * D ==> m % 2 == 0)
  }

  predicate BelowHigh(N: nat, D: nat, m: nat) {
    m < INF ==>
      && 2 * N <= (Value(m) + Value(m + 1)) * D
      && (2 * N == (Value(m) + Value(m + 1)) * D ==> m % 2 == 0)
  }

  predicate RoundsTo(N: nat, D: nat, m: nat) {
    m <= INF && AboveLow(N, D, m) && BelowHigh(N, D, m)
  }

  function FloorPattern(N: nat, D: nat, m: nat): (b: nat)
    ensures b <= m
    ensures Value(b) * D <= N
    ensures b < m ==> N < Value(b + 1) * D
  {
    if m == 0 || Value(m) * D <= N then m else FloorPattern(N, D, m - 1)
  }

  /** The reference rounding of the non-negative ratio N/D (in units of 2^-1074). */
  function RoundNE(N: nat, D: nat): (m: nat)
    requires D > 0
    ensures m <= INF
    ensures RoundsTo(N, D, m)
  {
    var b := FloorPattern(N, D, INF);
    NearerNeighbourRounds(N, D, b);
    NearerNeighbour(N, D, b)
  }

  /** Which of b and b+1 is nearer to N/D, the even one on a tie. */
  function NearerNeighbour(N: nat, D: nat, b: nat): (m: nat) {
    if b == INF then INF
    else
      var mid := (Value(b) + Value(b + 1)) * D;
      if 2 * N < mid || (2 * N == mid && b % 2 == 0) then b else b + 1
  }

  lemma {:induction false} NearerNeighbourRounds(N: nat, D: nat, b: nat)
    requires D > 0 && b <= INF
    requires Value(b) * D <= N
    requires b < INF ==> N < Value(b + 1) * D
    ensures RoundsTo(N, D, NearerNeighbour(N, D, b))
  {
    hide Value;
    RoundFromFloor(N, D, b);
  }

  lemma {:induction false} RoundFromFloor(N: nat, D: nat, b: nat)
    requires D > 0 && b <= INF
    requires Value(b) * D <= N
    requires b < INF ==> N < Value(b + 1) * D
    ensures AboveLow(N, D, b)
    ensures b < INF ==> BelowHigh(N, D, b + 1)
  {
    hide Value;
    if b > 0 {
      ValueMonotone(b - 1, b);
      MulCancel(Value(b - 1) + Value(b), 2 * Value(b), D);
      assert 2 * Value(b) * D == 2 * (Value(b) * D);
    }
    if b + 1 < INF {
      ValueMonotone(b + 1, b + 2);
      MulCancel(2 * Value(b + 1), Value(b + 1) + Value(b + 2), D);
      assert 2 * Value(b + 1) * D == 2 * (Value(b + 1) * D);
    }
  }

  /** Rounding is determined: there is one pattern per ratio. */
  lemma {:induction false} RoundsToUnique(N: nat, D: nat, a: nat, b: nat)
    requires D > 0
    requires RoundsTo(N, D, a) && RoundsTo(N, D, b)
    ensures a == b
  {
    hide Value;
    if a < b {
      RoundsToOrdered(N, D, a, b);
    } else if b < a {
      RoundsToOrdered(N, D, b, a);
    }
  }

  lemma {:induction false} RoundsToOrdered(N: nat, D: nat, a: nat, b: nat)
    requires D > 0 && a < b
    requires RoundsTo(N, D, a)
    ensures !RoundsTo(N, D, b)
  {
    hide Value;
    ValueMonotone(a + 1, b);
    ValueMonotone(a, b - 1);
    MulMonotone(Value(a) + Value(a + 1), Value(b - 1) + Value(b), D);
    if a + 1 < b {
      ValueMonotone(a + 1, b);
      MulCancel(Value(a) + Value(a + 1), Value(b - 1) + Value(b), D);
    }
  }

  lemma {:induction false} RoundNEIs(N: nat, D: nat, m: nat)
    requires D > 0 && RoundsTo(N, D, m)
    ensures RoundNE(N, D) == m
  {
    hide Value;
    RoundsToUnique(N, D, m, RoundNE(N, D));
  }

  function Distance(a: nat, b: nat): nat { if a <= b then b - a else a - b }

  /** Section 4.3.1 of IEEE 754-2008: the rounded pattern is at least as near as every
      other finite one, and when another is equally near, the rounded one is even.
      Infinity results exactly when N/D is at least halfway from the largest finite
      value to 2^1024. */
  lemma {:induction false} RoundNEIsNearest(N: nat, D: nat)
    requires D > 0
    ensures var m := RoundNE(N, D);
      && (m == INF <==> 2 * N >= (Value(INF - 1) + Value(INF)) * D)
      && (m < INF ==> forall g: nat | g < INF && g != m ::
            Distance(N, Value(m) * D) <= Distance(N, Value(g) * D)
            && (Distance(N, Value(m) * D) == Distance(N, Value(g) * D) ==> m % 2 == 0))
  {
    hide Value;
    var m := RoundNE(N, D);
    if m < INF {
      ValueMonotone(m, INF - 1);
      ValueMonotone(m + 1, INF);
      MulMonotone(Value(m) + Value(m + 1), Value(INF - 1) + Value(INF), D);
      if m + 1 < INF {
        ValueMonotone(m + 1, INF);
        MulCancel(Value(m) + Value(m + 1), Value(INF - 1) + Value(INF), D);
      }
      forall g: nat | g < INF && g != m
        ensures Distance(N, Value(m) * D) <= Distance(N, Value(g) * D)
        ensures Distance(N, Value(m) * D) == Distance(N, Value(g) * D) ==> m % 2 == 0
      {
        NearerThan(N, D, m, g);
      }
    }
  }

  lemma {:induction false} NearerThan(N: nat, D: nat, m: nat, g: nat)
    requires D > 0 && m < INF && g < INF && g != m
    requires RoundsTo(N, D, m)
    ensures Distance(N, Value(m) * D) <= Distance(N, Value(g) * D)
    ensures Distance(N, Value(m) * D) == Distance(N, Value(g) * D) ==> m % 2 == 0
  {
    hide Value;
    var vm, vg := Value(m), Value(g);
    if g < m {
      ValueMonotone(g, m - 1);
      ValueMonotone(m - 1, m);
      assert (Value(m - 1) + vm) * D == Value(m - 1) * D + vm * D;
      MulMonotone(vg, Value(m - 1), D);
      MulMonotone(Value(m - 1), vm, D);
    } else {
      ValueMonotone(m + 1, g);
      ValueMonotone(m, m + 1);
      assert (vm + Value(m + 1)) * D == vm * D + Value(m + 1) * D;
      MulMonotone(Value(m + 1), vg, D);
      MulMonotone(vm, Value(m + 1), D);
    }
  }

  /** A value that a pattern has exactly is not changed by rounding. */
  lemma {:induction false} RoundExact(m: nat, D: nat)
    requires D > 0 && m <= INF
    ensures RoundNE(Value(m) * D, D) == m
  {
    hide Value;
    var N := Value(m) * D;
    if m > 0 {
      ValueMonotone(m - 1, m);
      MulCancel(Value(m - 1) + Value(m), 2 * Value(m), D);
      assert 2 * Value(m) * D == 2 * N;
    }
    if m < INF {
      ValueMonotone(m, m + 1);
      MulCancel(2 * Value(m), Value(m) + Value(m + 1), D);
      assert 2 * Value(m) * D == 2 * N;
    }
    RoundNEIs(N, D, m);
  }

  lemma {:induction false} CompareScaled(n: nat, v: nat, D: nat, c: nat)
    requires c > 0
    ensures 2 * (n * c) <= v * (D * c) <==> 2 * n <= v * D
    ensures 2 * (n * c) == v * (D * c) <==> 2 * n == v * D
  {
    assert v * (D * c) == (v * D) * c;
    assert 2 * (n * c) == (2 * n) * c;
    MulCancel(2 * n, v * D, c);
  }

  /** Rounding depends on the ratio alone. */
  lemma {:induction false} RoundScale(N: nat, D: nat, c: nat)
    requires D > 0 && c > 0
    ensures D * c > 0 && RoundNE(N * c, D * c) == RoundNE(N, D)
  {
    hide Value, RoundNE;
    MulMonotone(1, D, c);
    var m := RoundNE(N, D);
    if m > 0 {
      CompareScaled(N, Value(m - 1) + Value(m), D, c);
    }
    if m < INF {
      CompareScaled(N, Value(m) + Value(m + 1), D, c);
    }
    RoundNEIs(N * c, D * c, m);
  }

  // ---- the machine's own multiplication and addition ----

  function Signed(negative: bool, m: nat): int {
    var v: int := m;
    if negative then -v else v
  }

  function SignedValue(b: Word): int { Signed(Negative(b), Value(Magnitude(b))) }

  lemma {:induction false} SignAndMagnitude(b: Word)
    ensures WithSign(Negative(b), Magnitude(b)) == b
  {}

  /** 2^1074: products of two values are in units of 2^-2148. */
  function Unit(): (u: nat)
    ensures u > 0
  {
    Pow2(1074)
  }

  function Abs(x: int): nat { if x < 0 then -x else x }

  /** The exact product of the magnitudes, in units of 2^-2148. */
  function ProductValue(a: Word, b: Word): nat {
    MulNonNegative(Value(Magnitude(a)), Value(Magnitude(b)));
    Value(Magnitude(a)) * Value(Magnitude(b))
  }

  /** Correctly rounded product; NaN results carry one fixed payload. */
  function Mul(a: Word, b: Word): (r: Word) {
    var negative := Negative(a) != Negative(b);
    if IsNaN(a) || IsNaN(b) then NAN
    else if !Finite(a) || !Finite(b) then
      if IsZero(a) || IsZero(b) then NAN else WithSign(negative, INF)
    else WithSign(negative, RoundNE(ProductValue(a, b), Unit()))
  }

  /** Correctly rounded sum; an exact zero is negative only if both operands are. */
  function Add(a: Word, b: Word): (r: Word) {
    if IsNaN(a) || IsNaN(b) then NAN
    else if !Finite(a) then (if !Finite(b) && Negative(a) != Negative(b) then NAN else a)
    else if !Finite(b) then b
    else
      var s := SignedValue(a) + SignedValue(b);
      if s == 0 then WithSign(Negative(a) && Negative(b), 0)
      else WithSign(s < 0, RoundNE(Abs(s), 1))
  }

  function Neg(a: Word): (r: Word)
    ensures Negative(r) != Negative(a) && Magnitude(r) == Magnitude(a)
  {
    WithSign(!Negative(a), Magnitude(a))
  }

  function Sub(a: Word, b: Word): (r: Word) { Add(a, Neg(b)) }

  lemma {:induction false} PositiveValue(m: nat)
    ensures Value(m) > 0 <==> m > 0
  {
    if m > 0 {
      ValueMonotone(0, m);
    }
  }
}
