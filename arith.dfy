/** Small facts about integer multiplication, division and remainder that the
    solver does not find unaided. */
module Arith {

  /** A count that stops at zero: `range(x)` has `NonNeg(x)` elements. */
  function NonNeg(x: int): nat {
    if x > 0 then x else 0
  }

  lemma {:induction false} MulAtLeast(a: int, t: int)
    requires a > 0 && t >= 1
    ensures a * t >= a
    decreases t
  {
    if t > 1 {
      MulAtLeast(a, t - 1);
      assert a * t == a * (t - 1) + a;
    }
  }

  lemma MulNonNegative(a: int, t: int)
    requires a >= 0 && t >= 0
    ensures a * t >= 0
  {
    if a > 0 && t > 0 {
      MulAtLeast(a, t);
    }
  }

  /** Euclidean division is determined by quotient and remainder. */
  lemma DivModUnique(n: int, a: int, q: int, r: int)
    requires a > 0 && 0 <= r < a && n == a * q + r
    ensures n / a == q && n % a == r
  {
    var q0, r0 := n / a, n % a;
    assert n == a * q0 + r0;
    var t := q - q0;
    assert a * t == r0 - r by {
      assert a * q - a * q0 == a * (q - q0);
    }
    if t >= 1 {
      MulAtLeast(a, t);
    } else if t <= -1 {
      MulAtLeast(a, -t);
    }
  }

  lemma MulMod(a: int, k: int)
    requires a > 0
    ensures (a * k) % a == 0 && (a * k) / a == k
  {
    DivModUnique(a * k, a, k, 0);
  }

  lemma DivisorWitness(n: int, a: int)
    requires a > 0 && n % a == 0
    ensures n == a * (n / a)
  {
  }

  /** Multiplying by a non-negative factor keeps the order. */
  lemma MulMonotone(a: int, b: int, n: int)
    requires a <= b && n >= 0
    ensures a * n <= b * n
  {
    MulNonNegative(b - a, n);
    assert (b - a) * n == b * n - a * n;
  }

  /** Euclidean division by a positive divisor keeps the order. */
  lemma DivMonotone(x: int, y: int, d: int)
    requires x <= y && d > 0
    ensures x / d <= y / d
  {
    var qx, qy := x / d, y / d;
    if qx > qy {
      MulMonotone(qy + 1, qx, d);
      assert false;
    }
  }

  /** `(k * n) / d` stays within `n` while `k` stays within `d`, and reaches
      `n` at `k == d`. */
  lemma ScaledQuotientBound(k: int, n: int, d: int)
    requires 0 <= k <= d && n >= 0 && d > 0
    ensures 0 <= (k * n) / d <= n
    ensures k == d ==> (k * n) / d == n
  {
    MulNonNegative(k, n);
    MulMonotone(k, d, n);
    MulMod(d, n);
    assert d * n == n * d;
    DivMonotone(k * n, d * n, d);
    DivMonotone(0, k * n, d);
  }

  /** Dividing twice is dividing by the product. */
  lemma DivDiv(n: int, a: int, b: int)
    requires n >= 0 && a > 0 && b > 0
    ensures (n / a) / b == n / (a * b)
  {
    var q1, r1 := n / a, n % a;
    var q2, r2 := q1 / b, q1 % b;
    assert n == a * (b * q2 + r2) + r1;
    assert a * (b * q2 + r2) == (a * b) * q2 + a * r2;
    MulMonotone(r2, b - 1, a);
    assert (b - 1) * a == a * b - a;
    MulNonNegative(r2, a);
    assert r2 * a == a * r2;
    DivModUnique(n, a * b, q2, a * r2 + r1);
  }

  /** A whole quotient is also the quotient of the values as reals. */
  lemma RealQuotient(a: int, b: int, q: int)
    requires b != 0 && q * b == a
    ensures a as real / b as real == q as real
  {
    assert a as real == q as real * b as real;
  }

  /** Dividing a product by one of its factors gives the other. */
  lemma QuotientOfProduct(x: int, d: int)
    requires d > 0
    ensures (x * d) / d == x
  {
    MulMod(d, x);
    assert x * d == d * x;
  }
}
