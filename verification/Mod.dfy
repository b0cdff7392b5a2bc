/**
 The floating-point remainder of math/mod.go. Every scaled divisor and every difference
 in the loop is exactly representable, so the result is the exact remainder.
 */
module Mod {
  import opened Words
  import opened Float64
  import opened Scaling

  /** r has x's sign and is the remainder of the magnitudes. */
  predicate IsRemainder(x: Word, y: Word, r: Word)
    requires Value(Magnitude(y)) > 0
  {
    && Finite(r) && Negative(r) == Negative(x)
    && Value(Magnitude(r)) == Value(Magnitude(x)) % Value(Magnitude(y))
  }

  lemma {:induction false} ScaledDifference(c: nat, h: nat, p: nat)
    requires p > 0 && h * p <= c * p <= 2 * (h * p)
    ensures h <= c <= 2 * h && (c - h) * p == c * p - h * p
  {
    MulCancel(h, c, p);
    MulAssociative(2, h, p);
    MulCancel(c, 2 * h, p);
  }

  /** Two values within a factor of two: their difference is exactly representable. */
  lemma {:induction false} Sterbenz(a: nat, b: nat) returns (d: nat)
    requires b <= a && Value(a) <= 2 * Value(b)
    ensures Value(d) == Value(a) - Value(b) && d <= b
  {
    hide Value, Pow2, Scale, Significand;
    var qa, qb := Scale(a), Scale(b);
    ScaleMonotone(b, a);
    Pow2Add(qa - qb, qb);
    var c := Significand(a) * Pow2(qa - qb);
    MulAssociative(Significand(a), Pow2(qa - qb), Pow2(qb));
    ValueOrder(b, a);
    ScaledDifference(c, Significand(b), Pow2(qb));
    d := Representable(c - Significand(b), qb);
    ValueOrder(d, b);
  }

  lemma {:induction false} ScaleMonotone(b: nat, a: nat)
    requires b <= a
    ensures Scale(b) <= Scale(a)
  {}

  lemma {:induction false} SubExact(r: Word, s: Word)
    requires Finite(r) && Finite(s) && !Negative(r) && !Negative(s)
    requires Value(Magnitude(s)) <= Value(Magnitude(r)) <= 2 * Value(Magnitude(s))
    ensures var d := Sub(r, s);
      && Finite(d) && !Negative(d) && Value(Magnitude(d)) == Value(Magnitude(r)) - Value(Magnitude(s))
  {
    hide Value, RoundNE, Magnitude, Negative, WithSign;
    ValueOrder(Magnitude(s), Magnitude(r));
    var d := Sterbenz(Magnitude(r), Magnitude(s));
    RoundExact(d, 1);
    ValueSmall(0);
  }

  /** The scale the loop picks: the exponent difference, less one if r's fraction is smaller. */
  function Shift(r: Word, y: Word): int {
    var (yfr, yexp) := Frexp(y);
    var (rfr, rexp) := Frexp(r);
    (if Magnitude(rfr) < Magnitude(yfr) then rexp - 1 else rexp) - yexp
  }

  predicate Positive(x: Word) { Finite(x) && !IsZero(x) && !Negative(x) }

  lemma {:induction false} SmallerExponent(mr: nat, er: nat, my: nat, ey: nat)
    requires mr < 2 * FRAC && FRAC <= my && er < ey
    ensures mr * Pow2(er) < my * Pow2(ey)
  {
    hide Pow2;
    Pow2Monotone(er, ey);
    MulMonotone(2 * Pow2(er), Pow2(ey), my);
    MulDouble(my, Pow2(er));
    MulMonotone(mr, 2 * my, Pow2(er));
  }

  lemma {:induction false} ShiftBounds(mr: nat, er: nat, my: nat, ey: nat, k: int)
    requires FRAC <= mr < 2 * FRAC && FRAC <= my < 2 * FRAC
    requires my * Pow2(ey) <= mr * Pow2(er)
    requires k == (if mr < my then er - 1 else er) - ey
    ensures k >= 0
    ensures (my * Pow2(ey)) * Pow2(k) <= mr * Pow2(er) < 2 * ((my * Pow2(ey)) * Pow2(k))
  {
    hide Pow2;
    if er < ey {
      SmallerExponent(mr, er, my, ey);
      assert false;
    }
    if er == ey {
      MulCancel(my, mr, Pow2(er));
    }
    var e := ey + k;
    Pow2Add(ey, k);
    MulAssociative(my, Pow2(ey), Pow2(k));
    MulAssociative(2, my, Pow2(e));
    if mr < my {
      Pow2Add(1, e);
      Pow2Small();
      MulDouble(mr, Pow2(e));
      MulMonotone(my, 2 * mr, Pow2(e));
      MulMonotone(2 * mr, 2 * my, Pow2(e));
    } else {
      MulMonotone(my, mr, Pow2(e));
      MulMonotone(mr, 2 * my, Pow2(e));
    }
  }

  /** y * 2^k <= r < 2 * y * 2^k for the shift the loop picks. */
  lemma {:induction false} ShiftCorrect(r: Word, y: Word)
    requires Positive(r) && Positive(y) && Magnitude(y) <= Magnitude(r)
    ensures var k := Shift(r, y);
      && 0 <= k <= 2100
      && Value(Magnitude(y)) * Pow2(k) <= Value(Magnitude(r)) < 2 * (Value(Magnitude(y)) * Pow2(k))
  {
    hide Value, Pow2, Leading, LeadingExponent, Frexp, Magnitude;
    LeadingForm(r);
    LeadingForm(y);
    FrexpForm(r);
    FrexpForm(y);
    var vr, vy := Value(Magnitude(r)), Value(Magnitude(y));
    var k := Shift(r, y);
    ValueOrder(Magnitude(y), Magnitude(r));
    MulMonotone(vy, vr, Pow2(52));
    ShiftBounds(Leading(r), LeadingExponent(r) + 1074, Leading(y), LeadingExponent(y) + 1074, k);
    Unscale(vr, vy, Pow2(k), Pow2(52));
  }

  lemma {:induction false} Unscale(vr: nat, vy: nat, p: nat, c: nat)
    requires c > 0
    requires (vy * c) * p <= vr * c < 2 * ((vy * c) * p)
    ensures vy * p <= vr < 2 * (vy * p)
  {
    assert (vy * c) * p == (vy * p) * c;
    MulCancel(vy * p, vr, c);
    MulCancel(vr, 2 * (vy * p), c);
    assert 2 * ((vy * p) * c) == (2 * (vy * p)) * c;
  }

  lemma {:induction false} LdexpExact(y: Word, k: nat, bound: nat)
    requires Positive(y) && k <= 2100 && bound < INF
    requires Value(Magnitude(y)) * Pow2(k) <= Value(bound)
    ensures var s := Ldexp(y, k);
      Finite(s) && !Negative(s) && Value(Magnitude(s)) == Value(Magnitude(y)) * Pow2(k)
  {
    hide Value, Pow2, Leading, LeadingExponent, Ldexp, Magnitude, Negative, RoundNE, WithSign;
    LeadingForm(y);
    LdexpCorrect(y, k);
    var m := Magnitude(y);
    Pow2Add(Scale(m), k);
    MulAssociative(Significand(m), Pow2(Scale(m)), Pow2(k));
    var s := Representable(Significand(m), Scale(m) + k);
    ValueOrder(s, bound);
    RoundExact(s, 1);
  }

  /** One subtraction: exact, keeps the remainder, and more than halves r. */
  lemma {:induction false} ModStep(r: Word, y: Word)
    requires Positive(r) && Positive(y) && Magnitude(y) <= Magnitude(r)
    ensures var d := Sub(r, Ldexp(y, Shift(r, y)));
      && Finite(d) && !Negative(d)
      && 2 * Value(Magnitude(d)) < Value(Magnitude(r))
      && Value(Magnitude(y)) > 0
      && Value(Magnitude(d)) % Value(Magnitude(y)) == Value(Magnitude(r)) % Value(Magnitude(y))
  {
    hide Value, Pow2, Ldexp, Shift, Magnitude, Negative, Sub;
    ShiftCorrect(r, y);
    var k := Shift(r, y);
    LdexpExact(y, k, Magnitude(r));
    SubExact(r, Ldexp(y, k));
    PositiveValue(Magnitude(y));
    SameRemainder(Value(Magnitude(r)), Value(Magnitude(y)), Pow2(k));
  }

  lemma {:induction false} SameRemainder(a: nat, v: nat, p: nat)
    requires v > 0 && v * p <= a
    ensures (a - v * p) % v == a % v
  {
    var q := a / v;
    assert a == q * v + a % v;
    assert a - v * p == (q - p) * v + a % v;
    DivModUnique(a - v * p, v, q - p, a % v);
  }

  lemma {:induction false} RemainderBelow(a: nat, v: nat)
    requires a < v
    ensures a % v == a
  {}

  /** `mod`: the exact remainder with the sign of x, for every finite x and finite nonzero y. */
  method Mod(x: Word, y: Word) returns (r: Word)
    ensures IsZero(y) || !Finite(x) || IsNaN(y) ==> r == NAN
    ensures Finite(x) && Magnitude(y) == INF ==> r == x
    ensures Finite(x) && Finite(y) && !IsZero(y) ==>
      Value(Magnitude(y)) > 0 && IsRemainder(x, y, r)
  {
    hide Value, Ldexp, Sub, Frexp, Magnitude, Negative, WithSign;
    if IsZero(y) || !Finite(x) || IsNaN(y) {
      return NAN;
    }
    var a := WithSign(false, Magnitude(y));
    PositiveValue(Magnitude(y));
    var below := Negative(x) && !IsZero(x);
    r := if below then Neg(x) else x;
    SignAndMagnitude(x);
    while Magnitude(r) >= Magnitude(a)
      invariant Finite(r)
      invariant IsZero(r) || !Negative(r) || r == x
      invariant Negative(r) ==> r == x && IsZero(x)
      invariant Magnitude(y) == INF ==> r == (if below then Neg(x) else x)
      invariant Value(Magnitude(r)) % Value(Magnitude(y)) == Value(Magnitude(x)) % Value(Magnitude(y))
      invariant !below && Negative(x) ==> r == x
      decreases Value(Magnitude(r))
    {
      ModStep(r, a);
      var (yfr, yexp) := Frexp(a);
      var (rfr, rexp) := Frexp(r);
      if Magnitude(rfr) < Magnitude(yfr) {
        rexp := rexp - 1;
      }
      r := Sub(r, Ldexp(a, rexp - yexp));
    }
    ValueMonotone(Magnitude(r), Magnitude(a));
    RemainderBelow(Value(Magnitude(r)), Value(Magnitude(y)));
    if below {
      r := Neg(r);
    }
    SignAndMagnitude(r);
  }
}
