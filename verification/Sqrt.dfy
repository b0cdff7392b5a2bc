/**
 The bit-by-bit square root of math/sqrt.go. The result is the float64 nearest to the
 real square root; a tie cannot occur. With S the argument's value in units of 2^-2148,
 the root in units of 2^-1074 is the real number whose square is S, so "nearer to v than
 to w" is a comparison of (v+w)^2 with 4*S.
 */
module Sqrt {
  import opened Words
  import opened Float64

  function Square(x: nat): nat { x * x }

  /** The argument's value in units of 2^-2148. */
  function Radicand(x: Word): nat { Value(Magnitude(x)) * Unit() }

  /** r lies strictly between the midpoints around the root of x. */
  predicate IsRoot(x: Word, r: Word) {
    var m := Magnitude(r);
    && !Negative(r) && 0 < m < INF
    && Square(Value(m - 1) + Value(m)) < 4 * Radicand(x)
    && 4 * Radicand(x) < Square(Value(m) + Value(m + 1))
  }

  lemma {:induction false} SquareMonotone(a: nat, b: nat)
    requires a <= b
    ensures Square(a) <= Square(b)
    ensures a < b ==> Square(a) < Square(b)
  {
    MulMonotone(a, b, a);
    MulMonotone(a, b, b);
  }

  /** Every other finite value is strictly farther from the root, on its own side. */
  lemma {:induction false} RootIsNearest(x: Word, r: Word, g: nat)
    requires IsRoot(x, r) && g < INF && g != Magnitude(r)
    ensures g < Magnitude(r) ==> Square(Value(g) + Value(Magnitude(r))) < 4 * Radicand(x)
    ensures g > Magnitude(r) ==> 4 * Radicand(x) < Square(Value(g) + Value(Magnitude(r)))
  {
    hide Value, Radicand, Square;
    var m := Magnitude(r);
    if g < m {
      ValueMonotone(g, m - 1);
      SquareMonotone(Value(g) + Value(m), Value(m - 1) + Value(m));
    } else {
      ValueMonotone(m + 1, g);
      SquareMonotone(Value(m) + Value(m + 1), Value(g) + Value(m));
    }
  }

  /** Brings the significand to [2^52, 2^53): the loop handles subnormal arguments. */
  method Normalize(x: Word) returns (ix: Word, exp: int)
    requires Finite(x) && !Negative(x) && !IsZero(x)
    ensures FRAC <= ix < 2 * FRAC && -1074 <= exp <= 1023
    ensures Radicand(x) == ix * Pow2(exp + 2096)
  {
    ScaledNone(x);
    hide Pow2, Scaled, Value;
    Fields(x);
    ix, exp := x, Exponent(x);
    if exp == 0 {
      ghost var k: nat := 0;
      while (ix / FRAC) % 2 == 0
        invariant 0 < ix < 2 * FRAC && exp + k == 0 && k <= 52
        invariant ix == Scaled(x, k)
        decreases 2 * FRAC - ix
      {
        ShlOne(ix);
        SubnormalSteps(x, k, ix);
        ScaledMore(x, k);
        ix := Words.Shl(ix, 1);
        exp := exp - 1;
        k := k + 1;
      }
      exp := exp + 1;
      ValueSmall(x);
      SubnormalRadicand(x, k);
    } else {
      NormalRadicand(x);
    }
    exp := exp - BIAS;
    ix := ix % FRAC + FRAC;
  }

  lemma {:induction false} ShlOne(x: Word)
    requires x < W64 / 2
    ensures Words.Shl(x, 1) == 2 * x
  {
    Pow2Small();
    hide Pow2;
  }

  lemma {:induction false} SubnormalSteps(x: nat, k: nat, ix: nat)
    requires x > 0 && ix == Scaled(x, k) && ix < FRAC
    ensures k < 52
  {
    hide Pow2;
    MulMonotone(1, x, Pow2(k));
    Pow2Is64();
    if k >= 52 {
      Pow2Monotone(52, k);
    }
  }

  lemma {:induction false} SubnormalRadicand(x: nat, k: nat)
    requires k <= 52
    ensures x * Unit() == Scaled(x, k) * Pow2((1 - k) - 1023 + 2096)
  {
    hide Pow2;
    Pow2Add(k, 1074 - k);
    MulAssociative(x, Pow2(k), Pow2(1074 - k));
  }

  /** x shifted up by k bits. */
  function Scaled(x: nat, k: nat): nat {
    MulNonNegative(x, Pow2(k));
    x * Pow2(k)
  }

  lemma {:induction false} ScaledNone(x: nat)
    ensures Scaled(x, 0) == x
  {
    assert Pow2(0) == 1;
    assert x * 1 == x;
  }

  lemma {:induction false} ScaledMore(x: nat, k: nat)
    ensures Scaled(x, k + 1) == 2 * Scaled(x, k)
  {
    assert Pow2(k + 1) == 2 * Pow2(k);
    hide Pow2;
    MulDouble(x, Pow2(k));
    MulAssociative(2, x, Pow2(k));
  }

  lemma {:induction false} NormalRadicand(x: Word)
    requires Finite(x) && Exponent(x) >= 1
    ensures Radicand(x) == (FRAC + Fraction(x)) * Pow2(Exponent(x) - 1023 + 2096)
  {
    hide Pow2, Value;
    Fields(x);
    var e, h := Exponent(x), FRAC + Fraction(x);
    ValueNormal(e, Fraction(x));
    Pow2Add(e - 1, 1074);
    assert (h * Pow2(e - 1)) * Pow2(1074) == h * (Pow2(e - 1) * Pow2(1074));
  }

  /** One bit of the root: the remainder T - q^2 is kept scaled as ix * 2^(n-1). */
  lemma {:induction false} RootStep(T: nat, q: nat, ix: nat, r: nat)
    requires Square(q) <= T < Square(q + 2 * r) && ix * r == T - Square(q) && r > 0
    ensures 2 * q + r <= ix <==> Square(q + r) <= T
    ensures 2 * q + r <= ix ==> (ix - (2 * q + r)) * r == T - Square(q + r)
    ensures ix < 4 * q + 4 * r
  {
    var t := 2 * q + r;
    assert t * r == Square(q + r) - Square(q);
    MulCancel(t, ix, r);
    assert (ix - t) * r == ix * r - t * r;
    assert (4 * q + 4 * r) * r == Square(q + 2 * r) - Square(q);
    MulCancel(ix, 4 * q + 4 * r, r);
  }

  const ROOT_LOW: nat := 0x20_0000_0000_0000    // 2^53
  const ROOT_HIGH: nat := 0x40_0000_0000_0000   // 2^54

  /** The number whose integer square root the loop finds. */
  function Target(start: nat): nat { start * ROOT_LOW }

  lemma {:induction false} RootRange(T: nat, q: nat)
    requires Square(q) <= T < Square(ROOT_HIGH)
    ensures q < ROOT_HIGH
  {
    if q >= ROOT_HIGH {
      SquareMonotone(ROOT_HIGH, q);
    }
  }

  /** The loop: q becomes the integer square root of ix * 2^53, with the remainder left in
      the returned word; nothing overflows 64 bits. */
  method RootLoop(start: Word) returns (q: Word, rest: Word)
    requires ROOT_LOW <= start < 2 * ROOT_HIGH
    ensures Square(q) <= Target(start) < Square(q + 1)
    ensures rest == 0 <==> Square(q) == Target(start)
    ensures ROOT_LOW <= q < ROOT_HIGH
  {
    hide Pow2, Square, Target;
    ghost var T := Target(start);
    RootBounds(start);
    var ix: Word, s: Word, r: Word := start, 0, ROOT_LOW;
    q := 0;
    ghost var n: nat := 54;
    Pow2Is64();
    Pow2Small();
    Pow2Add(53, 1);
    SquareZero();
    while r != 0
      invariant n <= 54 && r == (if n == 0 then 0 else Pow2(n - 1))
      invariant s == 2 * q
      invariant Square(q) <= T < Square(q + Pow2(n))
      invariant ix * Pow2(n) == 2 * (T - Square(q))
      invariant q < ROOT_HIGH
      decreases n
    {
      Pow2Add(1, n - 1);
      Pow2Monotone(n - 1, 53);
      HalveScale(ix, r, T - Square(q));
      RootStep(T, q, ix, r);
      var t: Word := s + r;
      if t <= ix {
        RootRange(T, q + r);
        s := t + r;
        ix := ix - t;
        q := q + r;
      }
      assert ix * r == T - Square(q);
      assert T < Square(q + r);
      ShlOne(ix);
      ix := Words.Shl(ix, 1);
      r := HalfPow2(r, n);
      n := n - 1;
      DoubleScale(ix, Pow2(n), T - Square(q));
    }
    Pow2Zero();
    rest := ix;
    RootAtLeast(T, q);
  }

  lemma {:induction false} SquareZero()
    ensures Square(0) == 0
  {}

  lemma {:induction false} RootBounds(start: nat)
    requires ROOT_LOW <= start < 2 * ROOT_HIGH
    ensures Square(ROOT_LOW) <= Target(start) < Square(ROOT_HIGH)
    ensures start * ROOT_HIGH == 2 * Target(start)
  {
    MulMonotone(ROOT_LOW, start, ROOT_LOW);
    MulMonotone(start, 2 * ROOT_HIGH, ROOT_LOW);
  }

  lemma {:induction false} TargetEven(start: nat)
    ensures Target(start) % 2 == 0
  {
    var half := start * FRAC;
    assert Target(start) == 2 * half;
  }

  lemma {:induction false} RootAtLeast(T: nat, q: nat)
    requires Square(ROOT_LOW) <= T < Square(q + 1)
    ensures q >= ROOT_LOW
  {
    if q < ROOT_LOW {
      SquareMonotone(q + 1, ROOT_LOW);
    }
  }

  lemma {:induction false} HalveScale(ix: nat, r: nat, rem: nat)
    requires ix * (2 * r) == 2 * rem
    ensures ix * r == rem
  {
    assert ix * (2 * r) == 2 * (ix * r);
  }

  lemma {:induction false} DoubleScale(ix: nat, p: nat, rem: nat)
    requires ix % 2 == 0 && (ix / 2) * p == rem
    ensures ix * p == 2 * rem
  {
    assert ix == 2 * (ix / 2);
    assert (2 * (ix / 2)) * p == 2 * ((ix / 2) * p);
  }

  /** r >> 1 on a power of two; the last shift gives zero. */
  function HalfPow2(r: Word, ghost n: nat): (h: Word)
    requires n > 0 && r == Pow2(n - 1)
    ensures h == (if n == 1 then 0 else Pow2(n - 2))
  {
    r / 2
  }

  /** q rounded on its extra bit gives the midpoint bounds; T is even, so an odd q is never exact. */
  lemma {:induction false} RoundExtraBit(T: nat, q: nat, exact: bool) returns (h: nat)
    requires T % 2 == 0 && Square(q) <= T < Square(q + 1) && (exact <==> Square(q) == T)
    requires ROOT_LOW <= q < ROOT_HIGH
    ensures h == (if exact then q else q + q % 2) / 2
    ensures FRAC <= h <= 2 * FRAC
    ensures Square(2 * h - 1) < T < Square(2 * h + 1)
    ensures h == FRAC ==> Square(2 * h) <= T
  {
    hide Square;
    if q % 2 == 0 {
      h := q / 2;
      assert q == 2 * h;
      SquareMonotone(2 * h - 1, 2 * h);
    } else {
      OddSquare(q);
      h := (q + 1) / 2;
      assert q == 2 * h - 1;
      SquareMonotone(2 * h, 2 * h + 1);
    }
  }

  lemma {:induction false} OddSquare(q: nat)
    requires q % 2 == 1
    ensures Square(q) % 2 == 1
  {
    var a := q / 2;
    assert q == 2 * a + 1;
    assert Square(q) == 2 * (2 * (a * a) + 2 * a) + 1;
  }

  /** The midpoint bounds on significands, brought to the scale of the result. */
  lemma {:induction false} RootOnScale(x: Word, start: nat, half: int, h: nat)
    requires -537 <= half <= 511
    requires FRAC <= h <= 2 * FRAC
    requires Square(2 * h - 1) < Target(start) < Square(2 * h + 1)
    requires h == FRAC ==> Square(2 * h) <= Target(start)
    requires Radicand(x) == start * Pow2(2 * half + 2095)
    ensures (half + 1022) * FRAC + h < INF && IsRoot(x, (half + 1022) * FRAC + h)
  {
    hide Pow2, Value, Square, Radicand, Target;
    var q := half + 1022;
    RadicandOnScale(start, half);
    RootAbove(q, h, Target(start));
    RootBelow(q, h, Target(start));
  }

  /** The root is below the midpoint above ... */
  lemma {:induction false} RootAbove(q: nat, h: nat, T: nat)
    requires FRAC <= h <= 2 * FRAC && T < Square(2 * h + 1)
    ensures var m := q * FRAC + h; T * Square(Pow2(q)) < Square(Value(m) + Value(m + 1))
  {
    hide Pow2, Value, Square;
    MidpointAbove(q, h);
    var above := if h < 2 * FRAC then 2 * h + 1 else 2 * h + 2;
    SquareMonotone(2 * h + 1, above);
    ScaledSquareLess(T, above, Pow2(q));
  }

  /** ... and above the midpoint below. */
  lemma {:induction false} RootBelow(q: nat, h: nat, T: nat)
    requires q > 0 && FRAC <= h <= 2 * FRAC && Square(2 * h - 1) < T
    requires h == FRAC ==> Square(2 * h) <= T
    ensures var m := q * FRAC + h; Square(Value(m - 1) + Value(m)) < T * Square(Pow2(q))
  {
    hide Pow2, Value, Square;
    if h > FRAC {
      MidpointBelow(q, h);
      SquareScaledLess(2 * h - 1, T, Pow2(q));
    } else {
      MidpointBelowBinade(q);
      BelowBinade(q, T);
    }
  }

  lemma {:induction false} SquareProduct(a: nat, c: nat)
    ensures Square(a * c) == Square(a) * Square(c)
  {
    assert (a * c) * (a * c) == (a * a) * (c * c);
  }

  lemma {:induction false} ScaledSquareLess(T: nat, a: nat, c: nat)
    requires T < Square(a) && c > 0
    ensures T * Square(c) < Square(a * c)
  {
    SquareProduct(a, c);
    MulMonotone(1, c, c);
    MulMonotone(T, Square(a), Square(c));
  }

  lemma {:induction false} SquareScaledLess(a: nat, T: nat, c: nat)
    requires Square(a) < T && c > 0
    ensures Square(a * c) < T * Square(c)
  {
    SquareProduct(a, c);
    MulMonotone(1, c, c);
    MulMonotone(Square(a), T, Square(c));
  }

  lemma {:induction false} BelowBinade(q: nat, T: nat)
    requires q > 0 && Square(2 * FRAC) <= T
    ensures Square((4 * FRAC - 1) * Pow2(q - 1)) < T * Square(Pow2(q))
  {
    assert Pow2(q) == 2 * Pow2(q - 1);
    hide Pow2, Square;
    var p := Pow2(q - 1);
    SquareProduct(2 * FRAC, Pow2(q));
    MulMonotone(Square(2 * FRAC), T, Square(Pow2(q)));
    assert (2 * FRAC) * Pow2(q) == (4 * FRAC) * p;
    MulMonotone(4 * FRAC - 1, 4 * FRAC, p);
    SquareMonotone((4 * FRAC - 1) * p, (4 * FRAC) * p);
  }

  /** 4 * Radicand is T * 4^(half + 1022). */
  lemma {:induction false} RadicandOnScale(start: nat, half: int)
    requires half >= -537
    ensures 4 * (start * Pow2(2 * half + 2095)) == Target(start) * Square(Pow2(half + 1022))
  {
    hide Pow2;
    Pow2Small();
    Pow2Is64();
    Pow2Add(half + 1022, half + 1022);
    Pow2Add(53, 2 * half + 1991);
    Pow2Add(2 * half + 2044, 51);
    Pow2Add(51, 1);
    Pow2Add(52, 1);
    var c := Pow2(2 * half + 2044);
    assert Square(Pow2(half + 1022)) == c;
    assert 4 * Pow2(51) == ROOT_LOW;
    assert 4 * (start * (c * Pow2(51))) == (start * (4 * Pow2(51))) * c;
  }

  lemma {:induction false} PackRoot(h: nat, e: nat)
    requires FRAC <= h <= 2 * FRAC && e <= 1533
    ensures Words.Add(h, Words.Shl(e, 52)) == e * FRAC + h
  {
    hide Pow2;
    Pow2Is64();
    assert e * FRAC < SIGN - 2 * FRAC;
    ShlExact(e, 52);
  }

  method PositiveSqrt(x: Word) returns (r: Word)
    requires Finite(x) && !Negative(x) && !IsZero(x)
    ensures IsRoot(x, r)
  {
    hide Pow2, Square, IsRoot, Radicand, Value, Target;
    var ix, exp := Normalize(x);
    ghost var significand, e := ix, exp;
    if exp % 2 == 1 {
      ShlOne(ix);
      ix := Words.Shl(ix, 1);
    }
    exp := exp / 2;
    ShlOne(ix);
    ix := Words.Shl(ix, 1);
    ghost var start := ix;
    assert Radicand(x) == start * Pow2(2 * exp + 2095) by { DoubledRadicand(significand, e, exp); }
    var q: Word;
    q, ix := RootLoop(ix);
    TargetEven(start);
    ghost var h := RoundExtraBit(Target(start), q, ix == 0);
    if ix != 0 {
      q := q + q % 2;
    }
    PackRoot(h, exp + 1022);
    r := Words.Add(q / 2, Words.Shl(exp - 1 + BIAS, 52));
    RootOnScale(x, start, exp, h);
  }

  /** Special cases, then the nearest float64 to the root. */
  method Sqrt(x: Word) returns (r: Word)
    ensures IsZero(x) || IsNaN(x) || x == INF ==> r == x
    ensures Negative(x) && !IsZero(x) && !IsNaN(x) ==> r == NAN
    ensures Finite(x) && !Negative(x) && !IsZero(x) ==> IsRoot(x, r)
  {
    hide IsRoot;
    if IsZero(x) || IsNaN(x) || x == INF {
      return x;
    }
    if Negative(x) {
      return NAN;
    }
    r := PositiveSqrt(x);
  }

  /** An odd exponent doubles the significand; the value is unchanged. */
  lemma {:induction false} DoubledRadicand(m: nat, e: int, half: int)
    requires -1074 <= e <= 1023 && half == e / 2
    ensures m * Pow2(e + 2096) == (2 * (if e % 2 == 1 then 2 * m else m)) * Pow2(2 * half + 2095)
  {
    hide Pow2;
    Pow2Small();
    Pow2Add(1, 2 * half + 2095);
    Pow2Add(1, 2 * half + 2096);
    var c := Pow2(2 * half + 2095);
    if e % 2 == 1 {
      assert m * (2 * (2 * c)) == (2 * (2 * m)) * c;
    } else {
      assert m * (2 * c) == (2 * m) * c;
    }
  }
}
