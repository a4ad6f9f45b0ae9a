/** Facts about integer division and multiplication that the solver does not find alone. */
module Arith {

  lemma MulAtLeast(c: int, d: int)
    requires c >= 1 && d > 0
    ensures c * d >= d
  {
  }

  lemma MulAtMost(c: int, d: int)
    requires c <= -1 && d > 0
    ensures c * d <= -d
  {
  }

  /** Quotient and remainder are determined by x == q * d + r with 0 <= r < d. */
  lemma DivModUnique(x: int, d: int, q: int, r: int)
    requires d > 0 && 0 <= r < d && x == q * d + r
    ensures x / d == q && x % d == r
  {
    var q0, r0 := x / d, x % d;
    assert (q - q0) * d == r0 - r;
    if q > q0 {
      MulAtLeast(q - q0, d);
    } else if q < q0 {
      MulAtMost(q - q0, d);
    }
  }

  /** A multiple of `g` leaves no remainder. */
  lemma MultipleMod(g: int, w: int)
    requires g > 0
    ensures (w * g) % g == 0
  {
    DivModUnique(w * g, g, w, 0);
  }

  lemma MulNonneg(x: int, y: int)
    requires x >= 0 && y >= 0
    ensures x * y >= 0
  {
  }

  /** (n / a) / b == n / (a * b). */
  lemma DivDiv(n: int, a: nat, b: nat)
    requires a > 0 && b > 0
    ensures n / a / b == n / (a * b)
  {
    var q1, r1 := n / a, n % a;
    var q2, r2 := q1 / b, q1 % b;
    assert q1 * a == q2 * (a * b) + r2 * a by {
      assert q1 == q2 * b + r2;
      assert (q2 * b + r2) * a == q2 * b * a + r2 * a;
      assert q2 * b * a == q2 * (a * b);
    }
    assert r2 * a <= a * b - a by {
      MulNonneg(b - 1 - r2, a);
      assert (b - 1 - r2) * a == a * b - a - r2 * a;
    }
    DivModUnique(n, a * b, q2, r2 * a + r1);
  }

  /** Reducing a factor first does not change the product's remainder. */
  lemma ReduceFactorMod(x: int, y: int, m: int)
    requires m > 0
    ensures ((x % m) * y) % m == (x * y) % m
  {
    var q, r := x / m, x % m;
    var q2, r2 := (r * y) / m, (r * y) % m;
    assert x * y == (q * y) * m + r * y by {
      assert x == q * m + r;
      assert (q * m + r) * y == q * m * y + r * y;
      assert q * m * y == (q * y) * m;
    }
    assert x * y == (q * y + q2) * m + r2 by {
      assert r * y == q2 * m + r2;
      assert (q * y) * m + q2 * m == (q * y + q2) * m;
    }
    DivModUnique(x * y, m, q * y + q2, r2);
  }
}
