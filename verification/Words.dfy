/**
 Powers of two, and the unsigned 64-bit machine words of the Go source as natural
 numbers below 2^64. Every operator that can wrap or drop bits says so explicitly:
 a left shift is a multiplication modulo 2^64, a right shift a flooring division, and
 both give 0 when the shift count is 64 or more. The bitwise operators are defined
 bit by bit; the lemmas below turn the uses the source makes of them into arithmetic.
 */
module Words {

  function Pow2(n: nat): (p: nat)
    ensures p > 0
  {
    if n == 0 then 1 else 2 * Pow2(n - 1)
  }

  lemma {:induction false} Pow2Zero()
    ensures Pow2(0) == 1
  {}

  lemma {:induction false} Pow2Add(a: nat, b: nat)
    ensures Pow2(a + b) == Pow2(a) * Pow2(b)
  {
    if a == 0 {
    } else {
      Pow2Add(a - 1, b);
      assert Pow2(a + b) == 2 * (Pow2(a - 1) * Pow2(b));
    }
  }

  lemma {:induction false} Pow2Monotone(a: nat, b: nat)
    requires a <= b
    ensures Pow2(a) <= Pow2(b)
    ensures a < b ==> 2 * Pow2(a) <= Pow2(b)
    decreases b - a
  {
    if a < b {
      Pow2Monotone(a + 1, b);
    }
  }

  // ---- multiplication and division helpers ----

  lemma {:induction false} MulMonotone(a: nat, b: nat, c: nat)
    requires a <= b
    ensures a * c <= b * c
    ensures a < b && c > 0 ==> a * c < b * c && a * c + c <= b * c
  {
    var d := b - a;
    assert b * c == a * c + d * c;
    if a < b && c > 0 {
      assert d * c == (d - 1) * c + c;
      MulNonNegative(d - 1, c);
    }
    MulNonNegative(d, c);
  }

  lemma {:induction false} MulNonNegative(a: nat, b: nat)
    ensures a * b >= 0
  {}

  lemma {:induction false} MulAssociative(a: nat, b: nat, c: nat)
    ensures (a * b) * c == a * (b * c)
  {}

  lemma {:induction false} Distribute(a: int, b: int, c: int)
    ensures (a + b) * c == a * c + b * c
  {}

  lemma {:induction false} MulNegate(a: int, b: int)
    ensures (-a) * b == -(a * b)
  {}

  lemma {:induction false} MulCancel(a: int, b: int, c: nat)
    requires c > 0
    ensures a * c < b * c <==> a < b
    ensures a * c <= b * c <==> a <= b
    ensures a * c == b * c <==> a == b
  {
    if a < b {
      assert b * c == a * c + (b - a) * c;
      assert (b - a) * c >= 1 * c by { MulMonotone(1, b - a, c); }
    } else if b < a {
      assert a * c == b * c + (a - b) * c;
      assert (a - b) * c >= 1 * c by { MulMonotone(1, a - b, c); }
    }
  }

  /** The quotient and remainder of a division are the only ones. */
  lemma {:induction false} DivModUnique(x: int, d: nat, q: int, r: int)
    requires d > 0
    requires x == q * d + r && 0 <= r < d
    ensures x / d == q && x % d == r
  {
    var q', r' := x / d, x % d;
    assert x == q' * d + r';
    assert (q' - q) * d == r - r';
    if q' < q {
      MulCancel(q' - q, -1, d);
    } else if q' > q {
      MulCancel(1, q' - q, d);
    }
  }

  lemma {:induction false} DivBounds(x: nat, d: nat)
    requires d > 0
    ensures (x / d) * d <= x < (x / d) * d + d
    ensures x / d >= 0
  {}

  // ---- words ----

  const W63: nat := 0x8000_0000_0000_0000
  const W64: nat := 0x1_0000_0000_0000_0000

  type Word = x: nat | x < W64

  lemma {:induction false} Pow2Small()
    ensures Pow2(1) == 2 && Pow2(9) == 0x200 && Pow2(10) == 0x400 && Pow2(11) == 0x800
  {
    assert Pow2(4) == 16;
    Pow2Add(4, 4);
  }

  lemma {:induction false} Pow2Is64()
    ensures Pow2(64) == W64
    ensures Pow2(63) == W63
    ensures Pow2(62) == 0x4000_0000_0000_0000
    ensures Pow2(52) == 0x10_0000_0000_0000
    ensures Pow2(53) == 0x20_0000_0000_0000
  {
    hide Pow2;
    Pow2Small();
    Pow2Add(10, 10);
    Pow2Add(20, 20);
    Pow2Add(40, 11);
    Pow2Add(51, 1);
    Pow2Add(52, 1);
    Pow2Add(53, 9);
    Pow2Add(62, 1);
    Pow2Add(63, 1);
  }

  /** Go's `x << n` on uint64. */
  function Shl(x: Word, n: nat): (r: Word) {
    if n >= 64 then 0 else (x * Pow2(n)) % W64
  }

  /** Go's `x >> n` on uint64. */
  function Shr(x: Word, n: nat): (r: Word)
    ensures n < 64 ==> r == x / Pow2(n)
  {
    if n >= 64 then 0 else
      ShrBound(x, n);
      x / Pow2(n)
  }

  lemma {:induction false} ShrBound(x: Word, n: nat)
    ensures 0 <= x / Pow2(n) <= x
  {
    DivBounds(x, Pow2(n));
    MulMonotone(1, Pow2(n), x / Pow2(n));
  }

  /** Go's unsigned subtraction of shift counts: wraps below zero. */
  function USub(a: Word, b: Word): (r: Word) {
    (a - b) % W64
  }

  /** Go's `^x`. */
  function Not(x: Word): (r: Word) { W64 - 1 - x }

  function Add(a: Word, b: Word): (r: Word) { (a + b) % W64 }

  // ---- bitwise operators, bit by bit ----

  function Or(a: nat, b: nat): (r: nat)
    ensures a <= r && b <= r
    decreases a + b
  {
    if a == 0 && b == 0 then 0
    else 2 * Or(a / 2, b / 2) + (if a % 2 == 1 || b % 2 == 1 then 1 else 0)
  }

  function And(a: nat, b: nat): (r: nat)
    ensures r <= a && r <= b
    decreases a + b
  {
    if a == 0 && b == 0 then 0
    else 2 * And(a / 2, b / 2) + (if a % 2 == 1 && b % 2 == 1 then 1 else 0)
  }

  /** Go's `a &^ b`. */
  function AndNot(a: nat, b: nat): (r: nat)
    ensures r <= a
    decreases a + b
  {
    if a == 0 && b == 0 then 0
    else 2 * AndNot(a / 2, b / 2) + (if a % 2 == 1 && b % 2 == 0 then 1 else 0)
  }

  lemma {:induction false} OrZero(a: nat)
    ensures Or(a, 0) == a && Or(0, a) == a
  {
    if a > 0 {
      OrZero(a / 2);
    }
  }

  /** Bits that do not overlap: OR is addition. */
  lemma {:induction false} OrDisjoint(a: nat, n: nat, b: nat)
    requires b < Pow2(n)
    ensures Or(a * Pow2(n), b) == a * Pow2(n) + b
    ensures Or(b, a * Pow2(n)) == a * Pow2(n) + b
  {
    if n == 0 {
      OrZero(a);
      assert a * Pow2(0) == a;
    } else {
      var h := a * Pow2(n - 1);
      assert a * Pow2(n) == 2 * h;
      OrDisjoint(a, n - 1, b / 2);
      assert (2 * h) / 2 == h && (2 * h) % 2 == 0;
    }
  }

  lemma {:induction false} ModHalf(a: nat, p: nat)
    requires p > 0
    ensures a % (2 * p) == 2 * ((a / 2) % p) + a % 2
  {
    var q := (a / 2) / p;
    var r := (a / 2) % p;
    assert a / 2 == q * p + r;
    assert q * (2 * p) == 2 * (q * p);
    DivModUnique(a, 2 * p, q, 2 * r + a % 2);
  }

  /** Masking with 2^n - 1 is the remainder modulo 2^n. */
  lemma {:induction false} AndMask(a: nat, n: nat)
    ensures And(a, Pow2(n) - 1) == a % Pow2(n)
  {
    hide And;
    if n == 0 {
      AndZero(a);
    } else {
      var p := Pow2(n - 1);
      AndMask(a / 2, n - 1);
      AndOdd(a, p);
      ModHalf(a, p);
      assert Pow2(n) == 2 * p;
      hide Pow2;
    }
  }

  lemma {:induction false} AndOdd(a: nat, p: nat)
    requires p > 0
    ensures And(a, 2 * p - 1) == 2 * And(a / 2, p - 1) + a % 2
  {
    assert (2 * p - 1) / 2 == p - 1 && (2 * p - 1) % 2 == 1;
  }

  lemma {:induction false} AndZero(a: nat)
    ensures And(a, 0) == 0
  {}

  /** Clearing the low n bits. */
  lemma {:induction false} AndNotMask(a: nat, n: nat)
    ensures AndNot(a, Pow2(n) - 1) == a - a % Pow2(n)
  {
    if n == 0 {
      AndNotZero(a);
    } else {
      var p := Pow2(n - 1);
      AndNotMask(a / 2, n - 1);
      assert (2 * p - 1) / 2 == p - 1 && (2 * p - 1) % 2 == 1;
      ModHalf(a, p);
    }
  }

  lemma {:induction false} AndNotZero(a: nat)
    ensures AndNot(a, 0) == a
  {
    if a > 0 {
      AndNotZero(a / 2);
    }
  }

  /** OR with a single bit only changes the lowest bit. */
  lemma {:induction false} OrOne(a: nat)
    ensures Or(a, 1) == (if a % 2 == 0 then a + 1 else a)
  {
    OrZero(a / 2);
  }

  lemma {:induction false} OrSame(a: nat)
    ensures Or(a, a) == a
  {
    if a > 0 {
      OrSame(a / 2);
    }
  }

  lemma {:induction false} OrBound(a: nat, b: nat, n: nat)
    requires a < Pow2(n) && b < Pow2(n)
    ensures Or(a, b) < Pow2(n)
  {
    if n > 0 && (a > 0 || b > 0) {
      OrBound(a / 2, b / 2, n - 1);
    }
  }

  /** Go's `a | b` on uint64. */
  function OrWord(a: Word, b: Word): (r: Word)
    ensures r == Or(a, b)
  {
    Pow2Is64();
    OrBound(a, b, 64);
    Or(a, b)
  }

  lemma {:induction false} OrNonzero(a: nat, b: nat)
    ensures Or(a, b) == 0 <==> a == 0 && b == 0
  {}

  /** The number of bits needed to write x. */
  function BitLen(x: nat): (n: nat)
    ensures x > 0 ==> n > 0 && Pow2(n - 1) <= x
    ensures x < Pow2(n)
  {
    if x == 0 then 0 else 1 + BitLen(x / 2)
  }

  lemma {:induction false} BitLenBound(x: nat, n: nat)
    requires x < Pow2(n)
    ensures BitLen(x) <= n
  {
    if n > 0 {
      BitLenBound(x / 2, n - 1);
    }
  }

  /** bits.LeadingZeros64. */
  function LeadingZeros(x: Word): (l: nat)
    ensures l <= 64 && l == 64 - BitLen(x)
  {
    Pow2Is64();
    BitLenBound(x, 64);
    64 - BitLen(x)
  }

  /** A left shift keeps the low 64-n bits, moved up. */
  lemma {:induction false} ShlKeeps(x: Word, n: nat)
    requires n <= 64
    ensures Pow2(n) * Pow2(64 - n) == W64
    ensures n < 64 ==> Shl(x, n) == (x % Pow2(64 - n)) * Pow2(n)
  {
    hide Pow2;
    Pow2Is64();
    Pow2Add(n, 64 - n);
    if n < 64 {
      var p, p' := Pow2(n), Pow2(64 - n);
      MulSplit(x, p', p);
      MulCancel(x % p', p', p);
      DivModUnique(x * p, W64, x / p', (x % p') * p);
    }
  }

  lemma {:induction false} MulSplit(u: nat, p: nat, p': nat)
    requires p > 0 && p * p' == W64
    ensures u * p' == (u / p) * W64 + (u % p) * p'
  {
    DivBounds(u, p);
    Distribute((u / p) * p, u % p, p');
    MulAssociative(u / p, p, p');
  }

  /** A left shift that drops nothing multiplies. */
  lemma {:induction false} ShlExact(x: Word, n: nat)
    requires n < 64 && x * Pow2(n) < W64
    ensures Shl(x, n) == x * Pow2(n)
  {}
}
