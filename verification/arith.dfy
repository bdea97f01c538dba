/** Facts about integer multiplication and Euclidean division used by the other modules. */
module Arith {

  lemma MulLeq(a: int, b: int, c: int)
    requires a <= b && 0 <= c
    ensures a * c <= b * c
  {
    assert b * c - a * c == (b - a) * c;
  }

  /** For a positive divisor c and y >= 0, k * c <= y exactly when k <= y / c. */
  lemma FloorDiv(y: int, c: int, k: int)
    requires 0 < c && 0 <= y
    ensures k * c <= y <==> k <= y / c
  {
    var q := y / c;
    assert y == q * c + y % c;
    if k <= q {
      MulLeq(k, q, c);
    } else {
      MulLeq(q + 1, k, c);
      assert (q + 1) * c == q * c + c;
    }
  }

  /** Quotient and remainder are determined by the bounds on the remainder. */
  lemma DivModUnique(y: int, c: int, q: int, r: int)
    requires 0 < c && 0 <= y && y == q * c + r && 0 <= r < c
    ensures y / c == q && y % c == r
  {
    FloorDiv(y, c, q);
    FloorDiv(y, c, q + 1);
    assert (q + 1) * c == q * c + c;
  }

  /** Taking away p * p does not change the remainder modulo p. */
  lemma ModShift(j: int, p: int)
    requires 0 < p && p * p <= j
    ensures (j - p * p) % p == j % p
  {
    var a := j - p * p;
    assert j == (a / p + p) * p + a % p;
    DivModUnique(j, p, a / p + p, a % p);
  }

  /** Taking one p away from a positive multiple-candidate d keeps the remainder; below p the remainder is d itself. */
  lemma ModStep(d: int, p: int)
    requires 0 < p && 0 <= d
    ensures p <= d ==> (d - p) % p == d % p
    ensures d < p ==> d % p == d
  {
    if p <= d {
      DivModUnique(d, p, (d - p) / p + 1, (d - p) % p);
    } else {
      DivModUnique(d, p, 0, d);
    }
  }
}
