/**
 The two-word arithmetic of math/fma.go: shifts of a 128-bit number held in two words,
 and the alignment shift that folds the bits it drops into one sticky bit. The second
 half says what a sticky result still knows about the exact number it came from.
 */
module DoubleWord {
  import opened Words

  function Nonzero(x: Word): (r: Word) { if x != 0 then 1 else 0 }

  const W128: nat := 0x1_0000_0000_0000_0000_0000_0000_0000_0000

  /** The number held by a pair of words, high word first. */
  function Pair(u1: Word, u2: Word): nat { u1 * W64 + u2 }

  function ShlPair(u1: Word, u2: Word, n: Word): (r: (Word, Word)) {
    (OrWord(OrWord(Shl(u1, n), Shr(u2, USub(64, n))), Shl(u2, USub(n, 64))), Shl(u2, n))
  }

  function ShrPair(u1: Word, u2: Word, n: Word): (r: (Word, Word)) {
    (Shr(u1, n), OrWord(OrWord(Shr(u2, n), Shl(u1, USub(64, n))), Shr(u1, USub(n, 64))))
  }

  function ShrCompress(u1: Word, u2: Word, n: Word): (r: (Word, Word)) {
    if n == 0 then (u1, u2)
    else if n == 64 then (0, OrWord(u1, Nonzero(u2)))
    else if n >= 128 then (0, Nonzero(OrWord(u1, u2)))
    else
      var (r1, r2) := ShrPair(u1, u2, n);
      if n < 64 then (r1, OrWord(r2, Nonzero(And(u2, USub(Shl(1, n), 1)))))
      else (r1, OrWord(r2, Nonzero(OrWord(And(u1, USub(Shl(1, n - 64), 1)), u2))))
  }

  // ---- the pair operations are exact 128-bit operations ----

  lemma {:induction false} ShrPairLow(u1: Word, u2: Word, n: Word)
    requires 0 < n < 64
    ensures ShrPair(u1, u2, n) == (u1 / Pow2(n), u2 / Pow2(n) + (u1 % Pow2(n)) * Pow2(64 - n))
  {
    hide Pow2;
    ShlKeeps(u1, 64 - n);
    ShlKeeps(u2, n);
    assert USub(64, n) == 64 - n;
    assert USub(n, 64) >= 64;
    var p, p' := Pow2(n), Pow2(64 - n);
    DivBounds(u2, p);
    assert u2 / p < p' by {
      assert (u2 / p) * p < p' * p;
      MulCancel(u2 / p, p', p);
    }
    OrDisjoint(u1 % p, 64 - n, u2 / p);
    OrZero(Or(u2 / p, Shl(u1, 64 - n)));
  }

  lemma {:induction false} ShrPairHigh(u1: Word, u2: Word, n: Word)
    requires 64 <= n < 128
    ensures ShrPair(u1, u2, n) == (0, u1 / Pow2(n - 64))
  {
    assert Pow2(0) == 1;
    hide Pow2;
    assert USub(n, 64) == n - 64;
    if n == 64 {
      assert Shl(u1, 0) == u1 && Shr(u1, 0) == u1;
      OrZero(u1);
      OrSame(u1);
    } else {
      assert USub(64, n) >= 64;
      OrZero(0);
      OrZero(Shr(u1, n - 64));
    }
  }

  /** The quotient and remainder of a pair by 2^n, word by word. */
  lemma {:induction false} PairDivLow(u1: Word, u2: Word, n: nat)
    requires n <= 64
    ensures Pow2(n) * Pow2(64 - n) == W64
    ensures Pair(u1, u2) / Pow2(n) == u1 * Pow2(64 - n) + u2 / Pow2(n)
    ensures Pair(u1, u2) % Pow2(n) == u2 % Pow2(n)
  {
    hide Pow2;
    ShlKeeps(u1, n);
    var p, p' := Pow2(n), Pow2(64 - n);
    assert Pair(u1, u2) == (u1 * p' + u2 / p) * p + u2 % p by {
      assert u1 * W64 == u1 * p' * p;
      assert u2 == (u2 / p) * p + u2 % p;
    }
    DivModUnique(Pair(u1, u2), p, u1 * p' + u2 / p, u2 % p);
  }

  lemma {:induction false} PairDivHigh(u1: Word, u2: Word, n: nat)
    requires 64 <= n
    ensures Pair(u1, u2) / Pow2(n) == u1 / Pow2(n - 64)
    ensures Pair(u1, u2) % Pow2(n) == (u1 % Pow2(n - 64)) * W64 + u2
  {
    hide Pow2;
    Pow2Is64();
    Pow2Add(n - 64, 64);
    var p := Pow2(n - 64);
    var q, r := u1 / p, u1 % p;
    assert Pair(u1, u2) == q * Pow2(n) + (r * W64 + u2) by {
      assert u1 == q * p + r;
      assert (q * p + r) * W64 == q * (p * W64) + r * W64;
    }
    MulMonotone(r, p, W64);
    DivModUnique(Pair(u1, u2), Pow2(n), q, r * W64 + u2);
  }

  lemma {:induction false} ShrPairEnds(u1: Word, u2: Word, n: Word)
    ensures n == 0 ==> ShrPair(u1, u2, n) == (u1, u2)
    ensures n >= 128 ==> ShrPair(u1, u2, n) == (0, 0)
  {
    assert Pow2(0) == 1;
    hide Pow2;
    OrZero(u2);
    OrZero(0);
    if n >= 128 {
      assert USub(64, n) >= 64 && USub(n, 64) >= 64;
    }
  }

  lemma {:induction false} DivByHuge(u: Word, n: nat)
    requires n >= 64
    ensures u / Pow2(n) == 0 && u % Pow2(n) == u
  {
    Pow2Is64();
    Pow2Monotone(64, n);
    hide Pow2;
    DivModUnique(u, Pow2(n), 0, u);
  }

  /** `shr` is the 128-bit right shift, for every shift count. */
  lemma {:induction false} ShrPairExact(u1: Word, u2: Word, n: Word)
    ensures var r := ShrPair(u1, u2, n); Pair(r.0, r.1) == Pair(u1, u2) / Pow2(n)
  {
    assert Pow2(0) == 1;
    hide Pow2, ShrPair;
    ShrPairEnds(u1, u2, n);
    if n == 0 {
      DivModUnique(Pair(u1, u2), 1, Pair(u1, u2), 0);
    } else if n < 64 {
      ShrPairLow(u1, u2, n);
      PairDivLow(u1, u2, n);
      MulSplit(u1, Pow2(n), Pow2(64 - n));
    } else {
      PairDivHigh(u1, u2, n);
      if n < 128 {
        ShrPairHigh(u1, u2, n);
      } else {
        DivByHuge(u1, n - 64);
      }
    }
  }

  /** v * 2^n without the bits above 2^128. */
  function Shifted(v: nat, n: nat): nat { (v * Pow2(n)) % W128 }

  /** `shl` is the 128-bit left shift, for every shift count: bits above 2^128 are lost. */
  lemma {:induction false} ShlPairExact(u1: Word, u2: Word, n: Word)
    ensures var r := ShlPair(u1, u2, n); Pair(r.0, r.1) == Shifted(Pair(u1, u2), n)
  {
    hide Pow2, ShlPair, Pair, Shifted;
    if n == 0 {
      ShlPairNone(u1, u2);
    } else if n < 64 {
      ShlPairLow(u1, u2, n);
    } else {
      ShlPairHigh(u1, u2, n);
    }
  }

  lemma {:induction false} ShlPairNone(u1: Word, u2: Word)
    ensures ShlPair(u1, u2, 0) == (u1, u2) && Shifted(Pair(u1, u2), 0) == Pair(u1, u2)
  {
    ShiftedNone(Pair(u1, u2));
    assert Pow2(0) == 1;
    hide Pow2, Or, Shifted, Pair;
    assert Shl(u1, 0) == u1 && Shl(u2, 0) == u2;
    OrZero(u1);
  }

  lemma {:induction false} ShiftedNone(v: nat)
    requires v < W128
    ensures Shifted(v, 0) == v
  {
    assert Pow2(0) == 1;
    assert v * 1 == v;
  }

  lemma {:induction false} ShlPairLowWords(u1: Word, u2: Word, n: Word)
    requires 0 < n < 64
    ensures Pow2(n) * Pow2(64 - n) == W64
    ensures u2 / Pow2(64 - n) < Pow2(n)
    ensures ShlPair(u1, u2, n)
         == ((u1 % Pow2(64 - n)) * Pow2(n) + u2 / Pow2(64 - n), (u2 % Pow2(64 - n)) * Pow2(n))
  {
    hide Pow2, Or;
    ShlKeeps(u1, n);
    ShlKeeps(u2, n);
    assert USub(64, n) == 64 - n;
    assert USub(n, 64) >= 64;
    var p, p' := Pow2(n), Pow2(64 - n);
    DivBounds(u2, p');
    MulCancel(u2 / p', p, p');
    OrDisjoint(u1 % p', n, u2 / p');
    OrZero((u1 % p') * p + u2 / p');
  }

  lemma {:induction false} ShlPairLow(u1: Word, u2: Word, n: Word)
    requires 0 < n < 64
    ensures var r := ShlPair(u1, u2, n); Pair(r.0, r.1) == Shifted(Pair(u1, u2), n)
  {
    hide Pow2, ShlPair;
    ShlPairLowWords(u1, u2, n);
    var p, p' := Pow2(n), Pow2(64 - n);
    var r := ShlPair(u1, u2, n);
    ShlSplit(u1 / p', u1 % p', u2 / p', u2 % p', p, p');
    DivModUnique(Pair(u1, u2) * p, W128, u1 / p', Pair(r.0, r.1));
  }

  lemma {:induction false} ShlSplit(a1: nat, b1: nat, a2: nat, b2: nat, p: nat, p': nat)
    requires p * p' == W64
    ensures ((a1 * p' + b1) * W64 + (a2 * p' + b2)) * p
         == a1 * W128 + ((b1 * p + a2) * W64 + b2 * p)
  {
    assert (a1 * p') * p == a1 * W64;
    assert (a2 * p') * p == a2 * W64;
    assert (a1 * p' + b1) * W64 * p == ((a1 * p') * p + b1 * p) * W64;
    assert (a2 * p' + b2) * p == (a2 * p') * p + b2 * p;
  }

  lemma {:induction false} ShlHuge(u: Word, n: nat)
    requires n >= 64
    ensures (u * Pow2(n)) % W64 == 0
  {
    Pow2Is64();
    Pow2Add(n - 64, 64);
    hide Pow2;
    MulAssociative(u, Pow2(n - 64), W64);
    DivModUnique(u * Pow2(n), W64, u * Pow2(n - 64), 0);
  }

  lemma {:induction false} ShlPairHighWords(u1: Word, u2: Word, n: Word)
    requires 64 <= n
    ensures ShlPair(u1, u2, n) == ((u2 * Pow2(n - 64)) % W64, 0)
  {
    assert Pow2(0) == 1;
    hide Pow2, Or;
    var s := (u2 * Pow2(n - 64)) % W64;
    assert USub(n, 64) == n - 64;
    assert Shl(u2, n - 64) == s by {
      if n >= 128 {
        ShlHuge(u2, n - 64);
      }
    }
    OrZero(0);
    OrZero(s);
    OrSame(s);
    if n == 64 {
      assert s == u2;
    } else {
      assert USub(64, n) >= 64;
    }
  }

  lemma {:induction false} ShlPairHigh(u1: Word, u2: Word, n: Word)
    requires 64 <= n
    ensures var r := ShlPair(u1, u2, n); Pair(r.0, r.1) == Shifted(Pair(u1, u2), n)
  {
    hide Pow2, ShlPair;
    ShlPairHighWords(u1, u2, n);
    Pow2Is64();
    Pow2Add(64, n - 64);
    ShlHighSplit(u1, u2, Pow2(n - 64));
    var x := u2 * Pow2(n - 64);
    DivModUnique(Pair(u1, u2) * Pow2(n), W128, u1 * Pow2(n - 64) + x / W64, (x % W64) * W64);
  }

  lemma {:induction false} ShlHighSplit(u1: Word, u2: Word, p: nat)
    ensures Pair(u1, u2) * (W64 * p)
         == (u1 * p + (u2 * p) / W64) * W128 + ((u2 * p) % W64) * W64
  {
    var x := u2 * p;
    assert Pair(u1, u2) * (W64 * p) == (u1 * p) * W128 + x * W64;
    assert x == (x / W64) * W64 + x % W64;
  }

  // ---- the sticky shift ----

  /** v shifted right by n, with the lowest bit set if any dropped bit was. */
  function Sticky(v: nat, n: nat): (s: nat) {
    var q := v / Pow2(n);
    if v % Pow2(n) != 0 && q % 2 == 0 then q + 1 else q
  }

  lemma {:induction false} OneShifted(n: nat)
    requires n < 64
    ensures Shl(1, n) == Pow2(n) && USub(Shl(1, n), 1) == Pow2(n) - 1
  {
    hide Pow2;
    Pow2Is64();
    Pow2Monotone(n, 63);
    ShlExact(1, n);
  }

  lemma {:induction false} ShrCompressMiddle(u1: Word, u2: Word, n: Word)
    requires 0 < n < 128 && n != 64
    ensures var r := ShrPair(u1, u2, n);
      ShrCompress(u1, u2, n) == (r.0, if Pair(u1, u2) % Pow2(n) == 0 then r.1 else Or(r.1, 1))
  {
    hide Pow2, ShrPair, Or, And;
    var (r1, r2) := ShrPair(u1, u2, n);
    OrZero(r2);
    if n < 64 {
      PairDivLow(u1, u2, n);
      OneShifted(n);
      AndMask(u2, n);
    } else {
      PairDivHigh(u1, u2, n);
      OneShifted(n - 64);
      AndMask(u1, n - 64);
      OrNonzero(u1 % Pow2(n - 64), u2);
      MulNonNegative(u1 % Pow2(n - 64), W64);
    }
  }

  lemma {:induction false} ShrCompressWord(u1: Word, u2: Word)
    ensures var r := ShrCompress(u1, u2, 64); Pair(r.0, r.1) == Sticky(Pair(u1, u2), 64)
  {
    assert Pow2(0) == 1;
    hide Pow2, Or;
    PairDivHigh(u1, u2, 64);
    OrOne(u1);
    OrZero(u1);
  }

  lemma {:induction false} ShrCompressAll(u1: Word, u2: Word, n: Word)
    requires n >= 128
    ensures var r := ShrCompress(u1, u2, n); Pair(r.0, r.1) == Sticky(Pair(u1, u2), n)
  {
    hide Pow2, Or;
    PairDivHigh(u1, u2, n);
    DivByHuge(u1, n - 64);
    OrNonzero(u1, u2);
  }

  lemma {:induction false} StickyFrom(v: nat, n: nat, q: nat, s: nat)
    requires q == v / Pow2(n)
    requires s == if v % Pow2(n) == 0 then q else Or(q, 1)
    ensures s == Sticky(v, n)
  {
    hide Pow2, Or;
    OrOne(q);
  }

  lemma {:induction false} ShrCompressNone(u1: Word, u2: Word)
    ensures ShrCompress(u1, u2, 0) == (u1, u2) && Sticky(Pair(u1, u2), 0) == Pair(u1, u2)
  {
    assert Pow2(0) == 1;
    hide Pow2, Or, And;
  }

  lemma {:induction false} ShrCompressShort(u1: Word, u2: Word, n: Word)
    requires 0 < n < 128 && n != 64
    ensures var r := ShrCompress(u1, u2, n); Pair(r.0, r.1) == Sticky(Pair(u1, u2), n)
  {
    hide Pow2, ShrPair, Or, And, ShrCompress, Sticky, Pair;
    ShrCompressMiddle(u1, u2, n);
    ShrPairExact(u1, u2, n);
    var r := ShrPair(u1, u2, n);
    var c := ShrCompress(u1, u2, n);
    PairOrOne(r.0, r.1);
    StickyFrom(Pair(u1, u2), n, Pair(r.0, r.1), Pair(c.0, c.1));
  }

  /** The low bit of a pair is that of its low word. */
  lemma {:induction false} PairOrOne(u1: Word, u2: Word)
    ensures Or(u2, 1) < W64 && Pair(u1, Or(u2, 1)) == Or(Pair(u1, u2), 1)
  {
    hide Or;
    OrOne(u2);
    OrOne(Pair(u1, u2));
    PairParity(u1, u2);
  }

  lemma {:induction false} PairParity(u1: Word, u2: Word)
    ensures Pair(u1, u2) % 2 == u2 % 2
  {
    var k := u1 * W63;
    assert Pair(u1, u2) == 2 * k + u2;
  }

  /** `shrcompress` is the sticky shift, for every shift count. */
  lemma {:induction false} ShrCompressIsSticky(u1: Word, u2: Word, n: Word)
    ensures var r := ShrCompress(u1, u2, n); Pair(r.0, r.1) == Sticky(Pair(u1, u2), n)
  {
    hide Pow2, ShrPair, Or, And, ShrCompress, Sticky;
    if n == 0 {
      ShrCompressNone(u1, u2);
    } else if n == 64 {
      ShrCompressWord(u1, u2);
    } else if n >= 128 {
      ShrCompressAll(u1, u2, n);
    } else {
      ShrCompressShort(u1, u2, n);
    }
  }

  lemma {:induction false} QuotientBounds(v: nat, p: nat, lo: nat, hi: nat)
    requires p > 0 && lo * p <= v < hi * p
    ensures lo <= v / p < hi
  {
    var q := v / p;
    DivBounds(v, p);
    MulCancel(q, hi, p);
    MulCancel(lo, q + 1, p);
  }

  lemma {:induction false} StickyBound(v: nat, n: nat, k: nat)
    requires v < Pow2(k + n) && k > 0
    ensures Sticky(v, n) < Pow2(k)
    ensures v >= Pow2(k + n - 1) ==> Sticky(v, n) >= Pow2(k - 1)
  {
    assert Pow2(k) == 2 * Pow2(k - 1);
    hide Pow2;
    Pow2Add(k, n);
    Pow2Add(k - 1, n);
    QuotientBounds(v, Pow2(n), if v >= Pow2(k + n - 1) then Pow2(k - 1) else 0, Pow2(k));
  }

  // ---- what a sticky number says about the exact one ----

  /** m is A/B, or the odd integer within one of it when A/B is not an integer. */
  ghost predicate Approximates(A: nat, B: nat, m: nat) {
    && B > 0
    && (A == m * B || (m % 2 == 1 && (m - 1) * B < A < (m + 1) * B))
  }

  /** Comparing A/B with an even integer is comparing m with it. */
  lemma {:induction false} ApproximateCompare(A: nat, B: nat, m: nat, t: nat)
    requires Approximates(A, B, m) && t % 2 == 0
    ensures A < t * B <==> m < t
    ensures A == t * B <==> m == t
  {
    if m < t {
      if A != m * B {
        MulMonotone(m + 1, t, B);
      } else {
        MulMonotone(m, t, B);
      }
    } else if m > t {
      if A != m * B {
        MulMonotone(t, m - 1, B);
      } else {
        MulMonotone(t, m, B);
      }
    }
  }

  lemma {:induction false} ApproximateScale(A: nat, B: nat, m: nat, c: nat)
    requires Approximates(A, B, m) && c > 0
    ensures Approximates(A * c, B * c, m)
  {
    MulMonotone(1, B, c);
    if A == m * B {
      MulAssociative(m, B, c);
    } else {
      MulAssociative(m - 1, B, c);
      MulAssociative(m + 1, B, c);
      MulCancel((m - 1) * B, A, c);
      MulCancel(A, (m + 1) * B, c);
    }
  }

  lemma {:induction false} StickyDigits(w: nat, n: nat) returns (q: nat, r: nat)
    ensures w == q * Pow2(n) + r && r < Pow2(n)
    ensures Sticky(w, n) == if r != 0 && q % 2 == 0 then q + 1 else q
  {
    hide Pow2;
    q, r := w / Pow2(n), w % Pow2(n);
  }

  /** A sticky shift of an approximation approximates on the coarser scale. */
  lemma {:induction false} StickyApproximates(A: nat, B: nat, w: nat, n: nat)
    requires Approximates(A, B, w)
    ensures B * Pow2(n) > 0 && Approximates(A, B * Pow2(n), Sticky(w, n))
  {
    assert Pow2(0) == 1;
    assert n > 0 ==> Pow2(n) == 2 * Pow2(n - 1);
    hide Pow2, Approximates, Sticky;
    var q, r := StickyDigits(w, n);
    if n > 0 {
      StickyInterval(A, B, w, Pow2(n), q, r);
    }
  }

  lemma {:induction false} InteriorApproximates(A: nat, B: nat, q: nat)
    requires B > 0
    ensures A == q * B ==> Approximates(A, B, q)
    ensures q * B < A < (q + 1) * B ==> Approximates(A, B, if q % 2 == 0 then q + 1 else q)
  {
    if q * B < A < (q + 1) * B {
      if q % 2 == 0 {
        MulMonotone(q + 1, q + 2, B);
      } else {
        MulMonotone(q - 1, q, B);
      }
    }
  }

  lemma {:induction false} StickyInterval(A: nat, B: nat, w: nat, p: nat, q: nat, r: nat)
    requires Approximates(A, B, w) && p % 2 == 0
    requires w == q * p + r && 0 <= r < p
    ensures B * p > 0
    ensures Approximates(A, B * p, if r != 0 && q % 2 == 0 then q + 1 else q)
  {
    var u := q * p;
    var exact := A == w * B;
    if exact {
      ExactInterval(A, B, u, r, p);
    } else {
      OddRemainder(w, q, p, r);
      InexactInterval(A, B, u, r, p);
    }
    hide Approximates;
    assert B * p > 0 by { MulMonotone(1, p, B); }
    Regroup(q, p, B);
    InteriorApproximates(A, B * p, q);
  }

  lemma {:induction false} Regroup(q: nat, p: nat, B: nat)
    ensures (q * p) * B == q * (B * p)
    ensures (q * p + p) * B == (q + 1) * (B * p)
  {}

  lemma {:induction false} ExactInterval(A: nat, B: nat, u: nat, r: nat, p: nat)
    requires B > 0 && A == (u + r) * B && r < p
    ensures r == 0 ==> A == u * B
    ensures r != 0 ==> u * B < A < (u + p) * B
  {
    MulMonotone(u, u + r, B);
    MulMonotone(u + r, u + p, B);
  }

  lemma {:induction false} InexactInterval(A: nat, B: nat, u: nat, r: nat, p: nat)
    requires B > 0 && 0 < r < p && (u + r - 1) * B < A < (u + r + 1) * B
    ensures u * B < A < (u + p) * B
  {
    MulMonotone(u, u + r - 1, B);
    MulMonotone(u + r + 1, u + p, B);
  }

  lemma {:induction false} OddRemainder(w: nat, q: nat, p: nat, r: nat)
    requires w == q * p + r && w % 2 == 1 && p % 2 == 0
    ensures r % 2 == 1
  {
    assert q * p == 2 * (q * (p / 2));
  }

  /** Adding an even integer to both sides, or subtracting from it, keeps the relation. */
  lemma {:induction false} ApproximateSum(A: nat, B: nat, m: nat, p: nat)
    requires Approximates(A, B, m) && p % 2 == 0
    ensures Approximates(p * B + A, B, p + m)
  {
    Distribute(p, m, B);
    Distribute(p, m - 1, B);
    Distribute(p, m + 1, B);
  }

  lemma {:induction false} ApproximateDifference(A: nat, B: nat, m: nat, p: nat)
    requires Approximates(A, B, m) && p % 2 == 0 && m <= p
    ensures A <= p * B && Approximates(p * B - A, B, p - m)
  {
    var k: int := m;
    Distribute(p, -k, B);
    Distribute(p, -k - 1, B);
    Distribute(p, -k + 1, B);
    MulNegate(m, B);
    MulNegate(m + 1, B);
    MulNegate(m - 1, B);
    MulMonotone(m, p, B);
    if m < p {
      MulMonotone(m + 1, p, B);
    }
  }

  /** Shifting up first and dropping more bits afterwards changes nothing. */
  lemma {:induction false} StickyOfShifted(v: nat, k: nat, n: nat)
    requires k <= n
    ensures Sticky(v * Pow2(k), n) == Sticky(v, n - k)
  {
    hide Pow2;
    Pow2Add(n - k, k);
    var p, c := Pow2(n - k), Pow2(k);
    var q, r := v / p, v % p;
    assert v * c == q * (p * c) + r * c;
    MulCancel(r, p, c);
    MulCancel(0, r, c);
    DivModUnique(v * c, p * c, q, r * c);
  }

  lemma {:induction false} StickyOfMultiple(v: nat, n: nat)
    ensures Sticky(v * Pow2(n), n) == v
  {
    hide Pow2;
    DivModUnique(v * Pow2(n), Pow2(n), v, 0);
  }
}
