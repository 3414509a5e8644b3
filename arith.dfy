/** Integer facts about multiplication and Euclidean division that the grid
    arithmetic relies on. Dafny's `/` and `%` on `int` are Euclidean; for the
    positive divisors used here they agree with Python's floor division. */
module Arith {

  lemma MulMonotone(a: int, b: int, s: int)
    requires a <= b && s >= 0
    ensures a * s <= b * s
  {
    assert b * s - a * s == (b - a) * s;
  }

  lemma MulStrict(a: int, b: int, s: int)
    requires a < b && s > 0
    ensures a * s + s <= b * s
  {
    MulMonotone(a + 1, b, s);
  }

  /** If a lies in [q*s, q*s + s) then q is the quotient and a - q*s the remainder. */
  lemma DivModUnique(a: int, s: int, q: int)
    requires s > 0 && q * s <= a < q * s + s
    ensures a / s == q && a % s == a - q * s
  {
    var q' := a / s;
    assert q' * s <= a < q' * s + s;
    if q' < q {
      MulStrict(q', q, s);
    } else if q < q' {
      MulStrict(q, q', s);
    }
  }

  lemma DivMulExact(d: int, s: int)
    requires s > 0
    ensures (d * s) / s == d && (d * s) % s == 0
  {
    DivModUnique(d * s, s, d);
  }

  /** Division by a positive number recovers the index of the block holding a. */
  lemma DivBelow(a: int, s: int, n: int)
    requires s > 0 && 0 <= a < n * s
    ensures 0 <= a / s < n
  {
    var q := a / s;
    assert q * s <= a;
    if q >= n {
      MulMonotone(n, q, s);
    }
    if q < 0 {
      MulStrict(q, 0, s);
    }
  }

  /** Quotient then remainder order the non-negative integers lexicographically. */
  lemma DivOrder(k: int, k': int, n: int)
    requires n > 0 && 0 <= k < k'
    ensures k / n < k' / n || (k / n == k' / n && k % n < k' % n)
  {
    DivModUnique(k, n, k / n);
    DivModUnique(k', n, k' / n);
    if k' / n < k / n {
      MulStrict(k' / n, k / n, n);
    }
  }

  lemma CastMul(a: int, b: int)
    ensures (a as real) * (b as real) == (a * b) as real
  {
  }
}
