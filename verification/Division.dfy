/**
 Facts about minima, quotients and products.
 */
module Division {

  function Min(a: nat, b: nat): nat {
    if a < b then a else b
  }

  lemma Times(a: int, b: int, c: int)
    requires c >= 0
    ensures a <= b ==> a * c <= b * c
    ensures a < b ==> a * c + c <= b * c
  {
    if a < b {
      AtLeastOnce(b - a, c);
      assert (b - a) * c == b * c - a * c;
    }
  }

  lemma AtLeastOnce(e: int, n: int)
    requires n >= 0
    ensures e >= 1 ==> e * n >= n
    ensures e <= -1 ==> e * n <= -n
  {
  }

  lemma Distribute(a: int, b: int, c: int)
    ensures (a + b) * c == a * c + b * c
  {
  }

  lemma Regroup(a: int, b: int, c: int)
    ensures (a * b) * c == a * (b * c) && (a * b) * c == (a * c) * b
  {
  }

  /** A quotient and a remainder below the divisor determine each other. */
  lemma DivisionUnique(x: int, n: int, q: int, r: int)
    requires n > 0 && 0 <= r < n && x == q * n + r
    ensures x / n == q && x % n == r
  {
    var k, m := x / n, x % n;
    assert x == k * n + m;
    Times(q, k, n);
    Times(k, q, n);
  }

  lemma QuotientNotNegative(x: nat, n: nat)
    requires n > 0
    ensures x / n >= 0
  {
    var q := x / n;
    assert x == q * n + x % n;
    AtLeastOnce(q, n);
  }

  lemma QuotientAtMost(n: nat, e: nat, k: nat)
    requires e > 0 && n < k * e
    ensures n / e < k
  {
    var q := n / e;
    assert n == q * e + n % e;
    Times(k, q, e);
  }

  lemma QuotientAtLeast(n: nat, e: nat, k: nat)
    requires e > 0 && e * k <= n
    ensures k <= n / e
  {
    var q := n / e;
    assert n == q * e + n % e;
    Times(q, k, e);
  }

  lemma QuotientShrinks(n: nat, d: nat, e: nat)
    requires 0 < e <= d
    ensures n / d <= n / e
  {
    var q := n / d;
    assert n == d * q + n % d;
    Times(e, d, q);
    QuotientAtLeast(n, e, q);
  }

  /** A quotient of a quotient is a quotient by a product. */
  lemma DivDiv(a: nat, b: nat, c: nat)
    requires b > 0 && c > 0
    ensures b * c > 0 && (a / b) / c == a / (b * c)
  {
    var x := a / b;
    var q, r1, r2 := x / c, a % b, x % c;
    assert a == x * b + r1 && x == q * c + r2;
    Distribute(q * c, r2, b);
    Regroup(q, c, b);
    assert c * b == b * c;
    Times(r2, c, b);
    AtLeastOnce(b, c);
    DivisionUnique(a, b * c, q, r2 * b + r1);
  }

  lemma CancelDiv(a: nat, k: nat, m: nat)
    requires k > 0 && m > 0
    ensures k * m > 0 && (a * k) / (k * m) == a / m
  {
    var q, r := a / m, a % m;
    assert a == q * m + r;
    Distribute(q * m, r, k);
    Regroup(q, m, k);
    assert m * k == k * m;
    Times(r, m, k);
    AtLeastOnce(k, m);
    AtLeastOnce(r, k);
    DivisionUnique(a * k, k * m, q, r * k);
  }
}
