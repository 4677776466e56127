/** The C++ bit operators `|`, `&`, `<<` and `>>` on non-negative integers, defined
    bit by bit, with the facts the UTF-16 codec needs about them. */
module Bits {

  function Pow2(k: nat): (p: nat)
    ensures p >= 1
  {
    if k == 0 then 1 else 2 * Pow2(k - 1)
  }

  /** `x << k` for a non-negative `x` that does not overflow: k doublings. */
  function Shl(x: nat, k: nat): nat
  {
    if k == 0 then x else 2 * Shl(x, k - 1)
  }

  /** `x >> k` for a non-negative `x`: k halvings. */
  function Shr(x: nat, k: nat): nat
  {
    if k == 0 then x else Shr(x / 2, k - 1)
  }

  /** `x | y`: bit i of the result is set iff bit i of x or of y is set. */
  function BitOr(x: nat, y: nat): nat
    decreases x + y
  {
    if x == 0 && y == 0 then 0
    else 2 * BitOr(x / 2, y / 2) + (if x % 2 == 1 || y % 2 == 1 then 1 else 0)
  }

  /** `x & y`: bit i of the result is set iff bit i of x and of y is set. */
  function BitAnd(x: nat, y: nat): nat
    decreases x + y
  {
    if x == 0 && y == 0 then 0
    else 2 * BitAnd(x / 2, y / 2) + (if x % 2 == 1 && y % 2 == 1 then 1 else 0)
  }

  lemma Pow2Ten()
    ensures Pow2(6) == 64 && Pow2(10) == 1024
  {
  }

  lemma MulDouble(x: int, p: int)
    ensures x * (2 * p) == 2 * (x * p)
  {
  }

  lemma MulNonNeg(a: int, b: int)
    requires a >= 0 && b >= 0
    ensures a * b >= 0
  {
  }

  /** Euclidean division is determined by any quotient/remainder pair that fits. */
  lemma DivModUnique(x: int, d: int, q: int, t: int)
    requires d > 0 && 0 <= t < d && x == d * q + t
    ensures x / d == q && x % d == t
  {
    var q', t' := x / d, x % d;
    assert x == d * q' + t';
    if q' > q {
      MulNonNeg(d, q' - q - 1);
      assert false;
    } else if q' < q {
      MulNonNeg(d, q - q' - 1);
      assert false;
    }
  }

  lemma DivMod2(x: nat, p: nat)
    requires p >= 1
    ensures x / (2 * p) == (x / 2) / p
  {
    var q := x / 2;
    var t := 2 * (q % p) + x % 2;
    assert q == p * (q / p) + q % p;
    assert x == 2 * q + x % 2;
    assert x == (2 * p) * (q / p) + t;
    DivModUnique(x, 2 * p, q / p, t);
  }

  /** Shifting left by k multiplies by 2^k. */
  lemma {:induction false} ShlMul(x: nat, k: nat)
    ensures Shl(x, k) == x * Pow2(k)
  {
    if k > 0 {
      ShlMul(x, k - 1);
      MulDouble(x, Pow2(k - 1));
    }
  }

  /** Shifting right by k divides by 2^k. */
  lemma {:induction false} ShrDiv(x: nat, k: nat)
    ensures Shr(x, k) == x / Pow2(k)
  {
    if k > 0 {
      ShrDiv(x / 2, k - 1);
      DivMod2(x, Pow2(k - 1));
    }
  }

  lemma {:induction false} BitOrZeroLeft(y: nat)
    ensures BitOr(0, y) == y
    decreases y
  {
    if y != 0 {
      BitOrZeroLeft(y / 2);
    }
  }

  lemma {:induction false} BitOrZeroRight(x: nat)
    ensures BitOr(x, 0) == x
    decreases x
  {
    if x != 0 {
      BitOrZeroRight(x / 2);
    }
  }

  lemma {:induction false} BitAndZeroRight(x: nat)
    ensures BitAnd(x, 0) == 0
    decreases x
  {
    if x != 0 {
      BitAndZeroRight(x / 2);
    }
  }

  /** One step of the bit recursion, also at 0 | 0 and 0 & 0. */
  lemma BitOrUnfold(x: nat, y: nat)
    ensures BitOr(x, y) == 2 * BitOr(x / 2, y / 2) + (if x % 2 == 1 || y % 2 == 1 then 1 else 0)
  {
  }

  lemma BitAndUnfold(x: nat, y: nat)
    ensures BitAnd(x, y) == 2 * BitAnd(x / 2, y / 2) + (if x % 2 == 1 && y % 2 == 1 then 1 else 0)
  {
  }

  /** Or-ing two numbers given by their high parts and low bits. */
  lemma BitOrCons(x: nat, s: nat, y: nat, t: nat)
    requires s < 2 && t < 2
    ensures BitOr(2 * x + s, 2 * y + t) == 2 * BitOr(x, y) + (if s == 1 || t == 1 then 1 else 0)
  {
    BitOrUnfold(2 * x + s, 2 * y + t);
  }

  /** One bit of BitOrSplit, over plain numbers: xs and ys stand for the shifted high parts. */
  lemma SplitStep(xs: nat, u: nat, ys: nat, v: nat, c: nat)
    requires BitOr(xs + u / 2, ys + v / 2) == c + BitOr(u / 2, v / 2)
    ensures BitOr(2 * xs + u, 2 * ys + v) == 2 * c + BitOr(u, v)
  {
    assert 2 * xs + u == 2 * (xs + u / 2) + u % 2;
    assert 2 * ys + v == 2 * (ys + v / 2) + v % 2;
    BitOrCons(xs + u / 2, u % 2, ys + v / 2, v % 2);
    BitOrUnfold(u, v);
  }

  /** `|` works independently above and below bit k. */
  lemma {:induction false} BitOrSplit(x: nat, u: nat, y: nat, v: nat, k: nat)
    requires u < Pow2(k) && v < Pow2(k)
    ensures BitOr(Shl(x, k) + u, Shl(y, k) + v) == Shl(BitOr(x, y), k) + BitOr(u, v)
    decreases k
  {
    if k == 0 {
      assert u == 0 && v == 0;
    } else {
      BitOrSplit(x, u / 2, y, v / 2, k - 1);
      SplitStep(Shl(x, k - 1), u, Shl(y, k - 1), v, Shl(BitOr(x, y), k - 1));
    }
  }

  /** Or-ing a single bit 2^k sets that bit, adding 2^k exactly when it was clear. */
  lemma {:induction false} BitOrPow2(x: nat, k: nat)
    ensures BitOr(x, Pow2(k)) == if Shr(x, k) % 2 == 0 then x + Pow2(k) else x
    decreases k
  {
    BitOrUnfold(x, Pow2(k));
    if k == 0 {
      BitOrZeroRight(x / 2);
    } else {
      BitOrPow2(x / 2, k - 1);
    }
  }

  /** Masking with 2^k - 1 keeps the k low bits: what is left after removing x >> k. */
  lemma {:induction false} BitAndLow(x: nat, k: nat)
    ensures BitAnd(x, Pow2(k) - 1) < Pow2(k)
    ensures x == Shl(Shr(x, k), k) + BitAnd(x, Pow2(k) - 1)
    decreases k
  {
    if k == 0 {
      BitAndZeroRight(x);
    } else {
      BitAndLow(x / 2, k - 1);
      BitAndUnfold(x, Pow2(k) - 1);
    }
  }

  /** Masking with 2^k - 1 is the remainder modulo 2^k. */
  lemma BitAndLowMask(x: nat, k: nat)
    ensures BitAnd(x, Pow2(k) - 1) == x % Pow2(k)
  {
    BitAndLow(x, k);
    ShlMul(Shr(x, k), k);
    DivModUnique(x, Pow2(k), Shr(x, k), BitAnd(x, Pow2(k) - 1));
  }
}
