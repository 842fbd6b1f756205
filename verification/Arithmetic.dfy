/** Facts about products and quotients of natural numbers. */
module Arithmetic {

  lemma {:induction false} AtLeastOnce(k: int, d: nat)
    requires k >= 1
    ensures k * d >= d
  {
    if k > 1 {
      AtLeastOnce(k - 1, d);
      assert k * d == (k - 1) * d + d;
    }
  }

  lemma {:induction false} QuotientIsUnique(x: nat, d: nat, q: nat, r: nat)
    requires d > 0 && x == q * d + r && r < d
    ensures x / d == q && x % d == r
  {
    var k := q - x / d;
    assert x == x / d * d + x % d;
    assert k * d == q * d - x / d * d;
    assert (-k) * d == -(k * d);
    if k >= 1 { AtLeastOnce(k, d); }
    if k <= -1 { AtLeastOnce(-k, d); }
  }

  /** k whole pieces fit below n of them, with one to spare. */
  lemma {:induction false} PiecesFit(k: nat, n: nat, size: nat)
    requires k < n
    ensures k * size + size <= n * size == size * n
  {
    AtLeastOnce(n - k, size);
    assert (n - k) * size == n * size - k * size;
  }

  lemma {:induction false} QuotientIsSmaller(n: nat, d: nat)
    requires d > 0
    ensures n / d <= n
  {
    assert n == n / d * d + n % d;
    if n / d >= 1 {
      AtLeastOnce(d, n / d);
      assert d * (n / d) == n / d * d;
    }
  }

  lemma {:induction false} QuotientGrows(m: nat, n: nat, d: nat)
    requires d > 0 && m <= n
    ensures m / d <= n / d
  {
    var q := m / d - n / d;
    assert m == m / d * d + m % d && n == n / d * d + n % d;
    assert q * d == m / d * d - n / d * d;
    if q >= 1 { AtLeastOnce(q, d); }
  }

  lemma {:induction false} DividedTwice(n: nat, c: nat, d: nat)
    requires c > 0 && d > 0
    ensures c * d > 0 && n / c / d == n / (c * d)
  {
    var q, r := n / c, n % c;
    var q', r' := q / d, q % d;
    assert n == q * c + r && q == q' * d + r';
    assert q * c == (q' * d) * c + r' * c;
    assert (q' * d) * c == q' * (c * d);
    assert r' * c + r < c * d by {
      PiecesFit(r', d, c);
      assert d * c == c * d;
    }
    AtLeastOnce(c, d);
    QuotientIsUnique(n, c * d, q', r' * c + r);
  }
}
