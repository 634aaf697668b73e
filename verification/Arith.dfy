/** Elementary facts of multiplication and floor division, one step each. */
module Arith {

  lemma MulAtLeast(m: int, d: int)
    requires m >= 1 && d >= 0
    ensures m * d >= d
  {
  }

  lemma MulNonNegative(a: int, b: int)
    requires a >= 0 && b >= 0
    ensures a * b >= 0
  {
  }

  lemma Distribute(a: int, b: int, d: int)
    ensures (a + b) * d == a * d + b * d
    ensures (a - b) * d == a * d - b * d
  {
  }

  lemma Reassociate(a: int, b: int, c: int)
    ensures (a * b) * c == a * (b * c) == (a * c) * b
  {
  }

  lemma Commute(a: int, b: int)
    ensures a * b == b * a
  {
  }

  lemma SmallMultiple(m: int, d: int)
    requires d > 0 && -d < m * d < d
    ensures m == 0
  {
    if m >= 1 {
      MulAtLeast(m, d);
    } else if m <= -1 {
      MulAtLeast(-m, d);
    }
  }

  lemma DivMod(x: int, d: int)
    requires d > 0
    ensures x == (x / d) * d + x % d && 0 <= x % d < d
  {
  }

  /** Division with remainder is the one representation of that form. */
  lemma DivisionIsUnique(x: int, d: int, q: int, r: int)
    requires d > 0 && x == q * d + r && 0 <= r < d
    ensures x / d == q && x % d == r
  {
    DivMod(x, d);
    Distribute(x / d, q, d);
    SmallMultiple(x / d - q, d);
  }

  /** Adding a multiple of the divisor adds to the quotient. */
  lemma DivShifts(x: int, d: int, m: int)
    requires d > 0
    ensures (x + m * d) / d == x / d + m && (x + m * d) % d == x % d
  {
    DivMod(x, d);
    Distribute(x / d, m, d);
    DivisionIsUnique(x + m * d, d, x / d + m, x % d);
  }

  /** A reduction inside a sum is absorbed by the reduction outside. */
  lemma ModAbsorbs(a: int, b: int, n: int)
    requires n > 0
    ensures (a + b % n) % n == (a + b) % n
  {
    DivMod(b, n);
    DivShifts(a + b % n, n, b / n);
  }

  /** Going down by n = p * q lowers the quotient by p by q. */
  lemma DivOfNegative(x: int, p: int, q: int, n: int)
    requires p > 0 && p * q == n
    ensures (x - n) / p == x / p - q
  {
    Distribute(0, q, p);
    DivShifts(x, p, -q);
  }

  /** A common factor cancels. */
  lemma DivCancels(x: int, a: int, b: int, ab: int)
    requires a > 0 && b > 0 && ab == a * b
    ensures ab > 0
    ensures (x * a) / ab == x / b && (x * a) % ab == (x % b) * a
  {
    var q, r := x / b, x % b;
    DivMod(x, b);
    MulAtLeast(a, b);
    Distribute(q * b, r, a);
    Reassociate(q, b, a);
    Distribute(b, r, a);
    MulAtLeast(b - r, a);
    MulNonNegative(r, a);
    DivisionIsUnique(x * a, ab, q, r * a);
  }

  /** The quotient by one factor of n of a number below n is below the other factor. */
  lemma QuotientFits(x: int, p: int, q: int, n: int)
    requires 0 <= x < n && p > 0 && q > 0 && p * q == n
    ensures 0 <= x / p < q
  {
    DivMod(x, p);
    if x / p >= q {
      Distribute(x / p, q, p);
      MulNonNegative(x / p - q, p);
    }
  }

  /** The digit in base 2 above h, read from the remainder by 2h. */
  lemma TopOfLowPart(x: int, h: int)
    requires h > 0
    ensures (x / h) % 2 == 1 <==> x % (2 * h) >= h
  {
    var d := 2 * h;
    var q, r := x / d, x % d;
    DivMod(x, d);
    Reassociate(q, 2, h);
    if r >= h {
      Distribute(q * 2, 1, h);
      DivisionIsUnique(x, h, 2 * q + 1, r - h);
    } else {
      DivisionIsUnique(x, h, 2 * q, r);
    }
  }

  /** The word written twice, divided by p: a rotation, as the two parts side by side. */
  lemma RotationParts(x: int, p: int, q: int, n: int)
    requires p > 0 && q > 0 && p * q == n
    ensures (x * (n + 1)) / p == x / p + x * q
  {
    Commute(p, q);
    Reassociate(x, q, p);
    Commute(x, n + 1);
    Distribute(n, 1, x);
    Commute(n, x);
    assert x * (n + 1) == x + (x * q) * p;
    DivShifts(x, p, x * q);
  }

  /** The rotation stays below n, and its top bit is the last bit rotated out. */
  lemma RotationTop(x: int, h: int, q: int, n: int)
    requires h > 0 && q > 0 && 2 * h * q == n && 0 <= x < n
    ensures n > 0 && 0 <= x / (2 * h) + (x * q) % n < n
    ensures x / (2 * h) + (x * q) % n >= h * q <==> (x / h) % 2 == 1
  {
    var p := 2 * h;
    var low := x % p;
    DivCancels(x, q, p, n);
    QuotientFits(x, p, q, n);
    DivMod(x, p);
    TopOfLowPart(x, h);
    MulNonNegative(low, q);
    Distribute(p, low, q);
    MulAtLeast(p - low, q);
    Distribute(low, h, q);
    if low >= h {
      MulNonNegative(low - h, q);
    } else {
      Distribute(h, low, q);
      MulAtLeast(h - low, q);
    }
  }
}
