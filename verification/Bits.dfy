/**
 The shifts, masks and bitwise OR of C on non-negative integers of any width.  Every
 definition recurses on single bits, so that facts about them hold for every field width and
 position, and the lemmas say how the operations act on the part of a number at and above
 bit k and on the part below it.
 */
module Bits {

  type Byte = x: nat | x < 0x100
  type U64 = x: nat | x < 0x1_0000_0000_0000_0000

  function Pow2(n: nat): (p: nat)
    ensures p >= 1
  {
    if n == 0 then 1 else 2 * Pow2(n - 1)
  }

  /** a << k */
  function Shl(a: int, k: nat): int {
    if k == 0 then a else 2 * Shl(a, k - 1)
  }

  /** a >> k, rounding towards minus infinity: on negative numbers the arithmetic shift */
  function Shr(a: int, k: nat): int
    decreases k, a
  {
    if k == 0 then a else Shr(a / 2, k - 1)
  }

  /** a & (2^k - 1), reading a negative a in two's complement */
  function Low(a: int, k: nat): (r: nat)
    ensures r < Pow2(k)
    decreases k, a
  {
    if k == 0 then 0 else 2 * Low(a / 2, k - 1) + a % 2
  }

  function Or(a: nat, b: nat): (r: nat)
    decreases a + b
  {
    if a == 0 && b == 0 then 0
    else 2 * Or(a / 2, b / 2) + (if a % 2 == 1 || b % 2 == 1 then 1 else 0)
  }

  /** a & ~b */
  function AndNot(a: nat, b: nat): (r: nat)
    ensures r <= a
  {
    if a == 0 then 0
    else 2 * AndNot(a / 2, b / 2) + (if a % 2 == 1 && b % 2 == 0 then 1 else 0)
  }

  /** A number is its part at and above bit k and its part below bit k, in exactly one way. */
  lemma {:induction false} Split(x: int, k: nat)
    ensures x == Shl(Shr(x, k), k) + Low(x, k)
    decreases k
  {
    if k > 0 { Split(x / 2, k - 1); }
  }

  lemma {:induction false} SplitUnique(q: int, r: nat, k: nat)
    requires r < Pow2(k)
    ensures Shr(Shl(q, k) + r, k) == q && Low(Shl(q, k) + r, k) == r
  {
    if k > 0 {
      assert (Shl(q, k) + r) / 2 == Shl(q, k - 1) + r / 2;
      SplitUnique(q, r / 2, k - 1);
    }
  }

  lemma {:induction false} ShlNonNegative(a: nat, k: nat)
    ensures Shl(a, k) >= a
    ensures Shl(0, k) == 0
  {
    if k > 0 { ShlNonNegative(a, k - 1); }
  }

  lemma {:induction false} ShrNonNegative(a: nat, k: nat)
    ensures 0 <= Shr(a, k) <= a
  {
    if k > 0 { ShrNonNegative(a / 2, k - 1); }
  }

  lemma {:induction false} OrZero(a: nat)
    ensures Or(a, 0) == a && Or(0, a) == a
  {
    if a > 0 { OrZero(a / 2); }
  }

  lemma {:induction false} OrCommutes(a: nat, b: nat)
    ensures Or(a, b) == Or(b, a)
    decreases a + b
  {
    if a + b > 0 { OrCommutes(a / 2, b / 2); }
  }

  lemma {:induction false} OrAssociates(a: nat, b: nat, c: nat)
    ensures Or(Or(a, b), c) == Or(a, Or(b, c))
    decreases a + b + c
  {
    if a + b + c > 0 { OrAssociates(a / 2, b / 2, c / 2); }
  }

  lemma {:induction false} OrSplit(a: nat, b: nat, c: nat, d: nat, k: nat)
    requires b < Pow2(k) && d < Pow2(k)
    ensures Shl(a, k) >= 0 && Shl(c, k) >= 0
    ensures Or(Shl(a, k) + b, Shl(c, k) + d) == Shl(Or(a, c), k) + Or(b, d)
    ensures Or(b, d) < Pow2(k)
  {
    ShlNonNegative(a, k);
    ShlNonNegative(c, k);
    if k > 0 {
      OrSplit(a, b / 2, c, d / 2, k - 1);
      assert (Shl(a, k) + b) / 2 == Shl(a, k - 1) + b / 2;
      assert (Shl(c, k) + d) / 2 == Shl(c, k - 1) + d / 2;
    }
  }

  /** A field of an OR is the OR of the fields. */
  lemma OrFields(a: nat, b: nat, k: nat)
    ensures Shr(a, k) >= 0 && Shr(b, k) >= 0
    ensures Shr(Or(a, b), k) == Or(Shr(a, k), Shr(b, k))
    ensures Low(Or(a, b), k) == Or(Low(a, k), Low(b, k))
  {
    ShrNonNegative(a, k);
    ShrNonNegative(b, k);
    Split(a, k);
    Split(b, k);
    OrSplit(Shr(a, k), Low(a, k), Shr(b, k), Low(b, k), k);
    SplitUnique(Or(Shr(a, k), Shr(b, k)), Or(Low(a, k), Low(b, k)), k);
  }

  lemma {:induction false} AndNotStep(a: nat, b: nat)
    ensures AndNot(a, b) / 2 == AndNot(a / 2, b / 2)
    ensures AndNot(a, b) % 2 == if a % 2 == 1 && b % 2 == 0 then 1 else 0
  {
  }

  lemma {:induction false} AndNotShr(a: nat, b: nat, k: nat)
    ensures Shr(a, k) >= 0 && Shr(b, k) >= 0
    ensures Shr(AndNot(a, b), k) == AndNot(Shr(a, k), Shr(b, k))
    decreases k
  {
    hide AndNot;
    ShrNonNegative(a, k);
    ShrNonNegative(b, k);
    if k > 0 {
      AndNotShr(a / 2, b / 2, k - 1);
      AndNotStep(a, b);
    }
  }

  lemma {:induction false} LowStep(x: int, k: nat)
    requires k > 0
    ensures Low(x, k) / 2 == Low(x / 2, k - 1) && Low(x, k) % 2 == x % 2
  {
  }

  lemma {:induction false} AndNotLow(a: nat, b: nat, k: nat)
    ensures Low(AndNot(a, b), k) == AndNot(Low(a, k), Low(b, k))
    decreases k
  {
    if k > 0 {
      hide AndNot;
      hide Low;
      AndNotLow(a / 2, b / 2, k - 1);
      AndNotStep(a, b);
      LowStep(a, k);
      LowStep(b, k);
      LowStep(AndNot(a, b), k);
      AndNotStep(Low(a, k), Low(b, k));
    }
  }

  lemma AndNotFields(a: nat, b: nat, k: nat)
    ensures Shr(a, k) >= 0 && Shr(b, k) >= 0
    ensures Shr(AndNot(a, b), k) == AndNot(Shr(a, k), Shr(b, k))
    ensures Low(AndNot(a, b), k) == AndNot(Low(a, k), Low(b, k))
  {
    AndNotShr(a, b, k);
    AndNotLow(a, b, k);
  }

  lemma {:induction false} AndNotZero(a: nat)
    ensures AndNot(a, 0) == a
  {
    if a > 0 { AndNotZero(a / 2); }
  }

  /** -1 masked to n bits is all ones, and clearing all n bits leaves nothing. */
  lemma {:induction false} AndNotOnes(a: nat, n: nat)
    requires a < Pow2(n)
    ensures AndNot(a, Low(-1, n)) == 0
    decreases n
  {
    if n > 0 {
      AndNotOnes(a / 2, n - 1);
      assert Low(-1, n) == 2 * Low(-1, n - 1) + 1;
    }
  }

  /** OR of a high part and a low part that do not overlap is their sum. */
  lemma OrDisjoint(a: nat, b: nat, k: nat)
    requires b < Pow2(k)
    ensures Shl(a, k) >= 0
    ensures Or(Shl(a, k), b) == Shl(a, k) + b
  {
    OrSplit(a, 0, 0, b, k);
    ShlNonNegative(0, k);
    OrZero(a);
    OrZero(b);
  }

  lemma {:induction false} ShlIsProduct(a: int, k: nat)
    ensures Shl(a, k) == a * Pow2(k)
  {
    if k > 0 { ShlIsProduct(a, k - 1); }
  }

  lemma Pow2Values()
    ensures Pow2(1) == 2 && Pow2(2) == 4 && Pow2(3) == 8 && Pow2(5) == 32 && Pow2(6) == 64
    ensures Pow2(8) == 0x100 && Pow2(10) == 0x400 && Pow2(11) == 0x800 && Pow2(13) == 0x2000
    ensures Pow2(14) == 0x4000 && Pow2(15) == 0x8000 && Pow2(16) == 0x1_0000
    ensures Pow2(21) == 0x20_0000 && Pow2(23) == 0x80_0000 && Pow2(24) == 0x100_0000
    ensures Pow2(26) == 0x400_0000 && Pow2(31) == 0x8000_0000 && Pow2(32) == 0x1_0000_0000
    ensures Pow2(64) == 0x1_0000_0000_0000_0000
  {
    Pow2Sum(8, 8);
    Pow2Sum(16, 5);
    Pow2Sum(21, 5);
    Pow2Sum(16, 16);
    Pow2Sum(32, 32);
    assert Pow2(5) == 8 * Pow2(2);
    assert Pow2(8) == 8 * Pow2(5);
    assert Pow2(11) == 8 * Pow2(8);
    assert Pow2(13) == 4 * Pow2(11);
    assert Pow2(16) == 4 * Pow2(14);
    assert Pow2(23) == 4 * Pow2(21);
    assert Pow2(26) == 4 * Pow2(24);
    assert Pow2(32) == 2 * Pow2(31);
  }

  lemma {:induction false} Pow2Sum(m: nat, n: nat)
    ensures Pow2(m + n) == Pow2(m) * Pow2(n)
  {
    if m > 0 {
      Pow2Sum(m - 1, n);
      assert Pow2(m + n) == 2 * Pow2(m - 1 + n);
    }
  }

  lemma ZeroMultiple(d: int, p: int)
    requires -p < d * p < p
    ensures d == 0
  {
  }

  lemma QuotientUnique(x: int, p: int, q: int, r: int)
    requires x == q * p + r && 0 <= r < p
    ensures q == x / p && r == x % p
  {
    assert (q - x / p) * p == x % p - r;
    ZeroMultiple(q - x / p, p);
  }

  /** Shifting right divides and masking takes the remainder. */
  lemma DivMod(x: int, k: nat)
    ensures Shr(x, k) == x / Pow2(k) && Low(x, k) == x % Pow2(k)
  {
    Split(x, k);
    ShlIsProduct(Shr(x, k), k);
    QuotientUnique(x, Pow2(k), Shr(x, k), Low(x, k));
  }

  /** The same facts for a shift distance whose power of two is known. */
  lemma At(x: int, k: nat, p: nat)
    requires p == Pow2(k)
    ensures Shl(x, k) == x * p && Shr(x, k) == x / p && Low(x, k) == x % p
  {
    ShlIsProduct(x, k);
    DivMod(x, k);
  }

  // ----- shifts of shifts, and bounds -----

  lemma {:induction false} ShrAdd(x: int, j: nat, k: nat)
    ensures Shr(x, j + k) == Shr(Shr(x, j), k)
    decreases j
  {
    if j > 0 { ShrAdd(x / 2, j - 1, k); }
  }

  lemma {:induction false} LowShr(x: int, lo: nat, n: nat)
    ensures Low(Shr(x, lo), n) == Shr(Low(x, lo + n), lo)
    decreases lo
  {
    if lo > 0 { LowShr(x / 2, lo - 1, n); }
  }

  lemma {:induction false} LowShl(x: int, j: nat, n: nat)
    ensures Low(Shl(x, j), j + n) == Shl(Low(x, n), j)
    decreases j
  {
    if j > 0 {
      LowShl(x, j - 1, n);
      assert Shl(x, j) / 2 == Shl(x, j - 1);
    }
  }

  lemma {:induction false} LowOfLow(x: int, m: nat, n: nat)
    requires m <= n
    ensures Low(Low(x, n), m) == Low(x, m)
    decreases m
  {
    if m > 0 { LowOfLow(x / 2, m - 1, n - 1); }
  }

  lemma {:induction false} ShrBound(x: nat, n: nat, k: nat)
    requires x < Pow2(n)
    ensures 0 <= Shr(x, k) && (k <= n ==> Shr(x, k) < Pow2(n - k)) && (n <= k ==> Shr(x, k) == 0)
    decreases k
  {
    if k > 0 && n > 0 {
      ShrBound(x / 2, n - 1, k - 1);
    } else if k > 0 {
      ShrBound(0, 0, k - 1);
    }
  }

  lemma {:induction false} ShlMonotone(x: int, y: int, k: nat)
    ensures x < y ==> Shl(x, k) < Shl(y, k)
    ensures Shl(x - y, k) == Shl(x, k) - Shl(y, k)
  {
    if k > 0 { ShlMonotone(x, y, k - 1); }
  }

  lemma {:induction false} ShlPow2(n: nat, k: nat)
    ensures Shl(Pow2(n), k) == Pow2(n + k)
  {
    if k > 0 { ShlPow2(n, k - 1); }
  }

  lemma {:induction false} OrBound(a: nat, b: nat, n: nat)
    requires a < Pow2(n) && b < Pow2(n)
    ensures Or(a, b) < Pow2(n)
  {
    if n > 0 { OrBound(a / 2, b / 2, n - 1); }
  }

  lemma {:induction false} ShlAdd(x: int, j: nat, k: nat)
    ensures Shl(x, j + k) == Shl(Shl(x, j), k)
  {
    if k > 0 { ShlAdd(x, j, k - 1); }
  }

  lemma {:induction false} ShlBound(x: nat, n: nat, k: nat)
    requires x < Pow2(n)
    ensures 0 <= Shl(x, k) < Pow2(n + k)
  {
    if k > 0 { ShlBound(x, n, k - 1); }
  }

  lemma {:induction false} Pow2Monotone(m: nat, n: nat)
    requires m <= n
    ensures Pow2(m) <= Pow2(n)
  {
    if m < n { Pow2Monotone(m, n - 1); }
  }

  lemma {:induction false} ShlPlus(x: int, y: int, k: nat)
    ensures Shl(x + y, k) == Shl(x, k) + Shl(y, k)
  {
    if k > 0 { ShlPlus(x, y, k - 1); }
  }
}
