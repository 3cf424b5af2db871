/** Powers of two and division. */
module Powers {

  function Pow2(n: nat): (r: int)
    ensures r > 0
  {
    if n == 0 then 1 else 2 * Pow2(n - 1)
  }

  lemma {:induction false} PowSplit(a: nat, b: nat)
    ensures Pow2(a + b) == Pow2(a) * Pow2(b)
  {
    if a > 0 {
      PowSplit(a - 1, b);
      assert 2 * (Pow2(a - 1) * Pow2(b)) == (2 * Pow2(a - 1)) * Pow2(b);
    }
  }

  lemma {:induction false} PowMonotone(a: nat, b: nat)
    requires a <= b
    ensures Pow2(a) <= Pow2(b)
  {
    if a < b { PowMonotone(a, b - 1); }
  }

  lemma Halves(a: int, x: int)
    requires a > 0 && 0 <= x < 2 * a
    ensures x < a ==> x / a == 0 && x % a == x
    ensures x >= a ==> x / a == 1 && x % a == x - a
  {
    if x >= a {
      assert x / a == 1 + (x - a) / a;
    }
  }

  lemma Product(a: int, b: int, p: int)
    requires a < b && 0 < p
    ensures a * p < b * p
  {
  }

  lemma QuotientIs(x: int, q: int, r: int, p: int)
    requires p > 0 && 0 <= r < p && x == q * p + r
    ensures x / p == q
  {
    if x / p > q {
      Product(q, x / p, p);
      assert (x / p - q) * p == x / p * p - q * p;
      Product(0, x / p - q, p);
      Whole(x / p - q, p);
    } else if x / p < q {
      assert (q - x / p) * p == q * p - x / p * p;
      Whole(q - x / p, p);
    }
  }

  lemma Whole(a: int, p: int)
    requires a >= 1 && p > 0
    ensures a * p >= p
  {
  }

  lemma Associate(q: int, p: int)
    ensures (2 * q) * p == 2 * (q * p)
  {
  }

  /** Dividing by twice `p` is dividing by `p` and halving. */
  lemma DivideTwice(x: int, p: int)
    requires p > 0
    ensures x / p == 2 * (x / (2 * p)) + x / p % 2
  {
    var q, c := x / p / 2, x / p % 2;
    assert x == (x / p) * p + x % p;
    assert (2 * q + c) * p == q * (2 * p) + c * p;
    assert 0 <= c * p <= p;
    QuotientIs(x, q, c * p + x % p, 2 * p);
  }
}
