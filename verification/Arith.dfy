// Facts about products, quotients and remainders.

module Arith {

  lemma MulMono(p: nat, a: nat, b: nat)
    requires a <= b
    ensures p * a <= p * b
  {
    assert p * b == p * a + p * (b - a);
  }

  lemma DivUnique(p: nat, g: nat, i: nat)
    requires i < p
    ensures (p * g + i) / p == g && (p * g + i) % p == i
  {
    var n := p * g + i;
    var q, r := n / p, n % p;
    assert p * q + r == n;
    MulMono(p, g + 1, if q > g then q else g + 1);
    MulMono(p, q + 1, if q < g then g else q + 1);
  }

  // Dividing twice is dividing by the product.
  lemma DivTwice(x: nat, a: nat, b: nat)
    requires a > 0 && b > 0
    ensures x / (a * b) == x / a / b
  {
    var q, r := x / a, x % a;
    var u, w := q / b, q % b;
    assert x == a * q + r && q == b * u + w;
    Digits(a, b, u, w, r);
    DivUnique(a * b, u, a * w + r);
  }

  lemma Digits(a: nat, b: nat, u: nat, w: nat, r: nat)
    requires w < b && r < a
    ensures a * (b * u + w) + r == (a * b) * u + (a * w + r)
    ensures 0 <= a * w + r < a * b
  {
    MulMono(a, 0, w);
    MulMono(a, w + 1, b);
    assert a * (w + 1) == a * w + a;
    assert a * (b * u + w) == a * (b * u) + a * w;
    assert a * (b * u) == (a * b) * u;
  }

  lemma DivMod(x: nat, n: nat) returns (q: nat, r: nat)
    requires n > 0
    ensures x == n * q + r && r < n && q == x / n && r == x % n
  {
    q, r := x / n, x % n;
  }

  // A larger quotient makes a larger value.
  lemma QuotientOrder(n: nat, a: nat, x: nat, b: nat, y: nat)
    requires x < n && n * a + x <= n * b + y && y < n
    ensures a <= b && (a == b ==> x <= y)
  {
    MulMono(n, b + 1, if a > b then a else b + 1);
    assert n * (b + 1) == n * b + n;
  }
}
