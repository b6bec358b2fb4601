/** The few facts about products and quotients that the solver does not find unaided. */
module Arithmetic {
  lemma MulMonotone(a: nat, c: nat, b: nat)
    requires a <= c
    ensures a * b <= c * b
  {
  }

  /** Quotient and remainder are determined by the equation they satisfy. */
  lemma DivMod(k: nat, r: nat, m: nat)
    requires m < r
    ensures (k * r + m) / r == k && (k * r + m) % r == m
  {
    var x := k * r + m;
    var q := x / r;
    assert x == r * q + x % r;
    if q > k {
      MulMonotone(k + 1, q, r);
    } else if q < k {
      MulMonotone(q + 1, k, r);
    }
  }

  lemma QuotientEquation(m: nat, k: nat)
    requires k > 0
    ensures m == m / k * k + m % k
  {
  }

  /** Counting on by one, modulo k. */
  lemma NextModulo(q: nat, r: nat, k: nat)
    requires r < k
    ensures (r + 1) % k == (q * k + r + 1) % k
  {
    if r + 1 < k {
      DivMod(q, k, r + 1);
      DivMod(0, k, r + 1);
    } else {
      DivMod(q + 1, k, 0);
      DivMod(1, k, 0);
      assert (q + 1) * k == q * k + k;
    }
  }

  /** Dividing twice is dividing by the product. */
  lemma QuotientTwice(x: nat, a: nat, b: nat)
    requires a > 0 && b > 0
    ensures x / a / b == x / (a * b)
  {
    var y, q := x / a, x / a / b;
    var s, t := x % a, y % b;
    QuotientEquation(x, a);
    QuotientEquation(y, b);
    assert x == (q * b + t) * a + s;
    assert (q * b + t) * a == q * (a * b) + t * a;
    MulMonotone(t + 1, b, a);
    assert (t + 1) * a == t * a + a && b * a == a * b;
    DivMod(q, a * b, t * a + s);
  }

  lemma QuotientBelow(c: nat, r: nat, n: nat)
    requires r > 0 && c < r * n
    ensures c / r < n
  {
    var q := c / r;
    assert c == q * r + c % r;
    if n <= q {
      MulMonotone(n, q, r);
    }
  }
}
