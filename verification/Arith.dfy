/** Facts about products, quotients and remainders that the solver does not find unaided. */
module Arith {

  lemma MulAtLeast(n: int, k: int)
    requires n >= 0 && k >= 1
    ensures n * k >= n
  {
    assert n * k == n + n * (k - 1);
    MulNonNegative(n, k - 1);
  }

  lemma MulNonNegative(a: int, b: int)
    requires a >= 0 && b >= 0
    ensures a * b >= 0
  {
  }

  lemma MulMonotone(n: int, a: int, b: int)
    requires n >= 0 && a <= b
    ensures n * a <= n * b
  {
    MulNonNegative(n, b - a);
    assert n * b == n * a + n * (b - a);
  }

  lemma Distribute(a: int, b: int, n: int)
    ensures (a + b) * n == a * n + b * n
  {
  }

  /** Quotient and remainder are unique. */
  lemma DivModUnique(a: int, n: int, q: int, r: int)
    requires n > 0 && a == n * q + r && 0 <= r < n
    ensures a % n == r && a / n == q
  {
    DivModIdentity(a, n);
    var p, s := a / n, a % n;
    Distribute(q - p, p, n);
    if q > p {
      MulAtLeast(n, q - p);
    } else if p > q {
      Distribute(p - q, q, n);
      MulAtLeast(n, p - q);
    }
  }

  lemma DivModIdentity(a: int, n: int)
    requires n > 0
    ensures a == n * (a / n) + a % n && 0 <= a % n < n
  {
  }

  lemma ModPlusMultiple(a: int, k: int, n: int)
    requires n > 0
    ensures (a + n * k) % n == a % n
    ensures (a + n * k) / n == a / n + k
  {
    DivModIdentity(a, n);
    Distribute(a / n, k, n);
    DivModUnique(a + n * k, n, a / n + k, a % n);
  }

  lemma ModCompose(v: int, b: int, n: int)
    requires n > 0
    ensures (v % n + b) % n == (v + b) % n
  {
    DivModIdentity(v, n);
    ModPlusMultiple(v % n + b, v / n, n);
  }
}
