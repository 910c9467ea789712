/** Facts about products, quotients and sequences that several modules share. */
module Arithmetic {

  lemma MulMonotone(a: nat, b: nat, c: nat)
    requires a <= b
    ensures a * c <= b * c
  {
    assert (b - a) * c >= 0;
  }

  lemma NonzeroMultiple(k: int, d: int)
    requires d > 0 && k != 0
    ensures k * d >= d || k * d <= -d
  {
    if k > 0 {
      assert (k - 1) * d >= 0;
    } else {
      assert (-k - 1) * d >= 0;
    }
  }

  /** A quotient and a remainder in range are the only ones. */
  lemma DivModUnique(x: int, d: int, q: int, r: int)
    requires d > 0 && 0 <= r < d && x == q * d + r
    ensures x / d == q && x % d == r
  {
    assert (x / d - q) * d == x / d * d - q * d;
    if x / d != q {
      NonzeroMultiple(x / d - q, d);
    }
  }

  /** Removing whole multiples of the divisor shifts the quotient and keeps the remainder. */
  lemma DivModShift(x: int, d: int, k: int)
    requires d > 0
    ensures (x - k * d) / d == x / d - k
    ensures (x - k * d) % d == x % d
  {
    assert (x / d - k) * d == x / d * d - k * d;
    DivModUnique(x - k * d, d, x / d - k, x % d);
  }

  /** `k` multiples of `d` fit below `x` exactly when `k` is at most the quotient. */
  lemma MulLeIffLeDiv(k: int, d: int, x: int)
    requires d > 0
    ensures k * d <= x <==> k <= x / d
  {
    if k <= x / d {
      assert (x / d - k) * d >= 0;
    } else {
      assert (k - x / d - 1) * d >= 0;
    }
  }

  /** Rounding down a sum loses at most one unit against the sum of the rounded parts. */
  lemma DivAdd(a: nat, b: nat, d: nat)
    requires d > 0
    ensures a / d + b / d <= (a + b) / d <= a / d + b / d + 1
  {
    var q, r := a / d + b / d, a % d + b % d;
    assert q * d == a / d * d + b / d * d;
    if r < d {
      DivModUnique(a + b, d, q, r);
    } else {
      assert (q + 1) * d == q * d + d;
      DivModUnique(a + b, d, q + 1, r - d);
    }
  }

  /** A positive factor can be cancelled from an inequality. */
  lemma MulLeIffLe(a: int, b: int, c: int)
    requires c > 0
    ensures a * c <= b * c <==> a <= b
  {
    MulLeIffLeDiv(a, c, b * c);
    DivModUnique(b * c, c, b, 0);
  }
}
