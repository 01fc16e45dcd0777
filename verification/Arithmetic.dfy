/** Products, quotients and remainders. */
module Arithmetic {
  lemma MulMono(a: int, b: int, n: int)
    requires a <= b && n >= 0
    ensures a * n <= b * n
  {
  }

  /** A quotient and a remainder below the divisor are the quotient and the remainder. */
  lemma ModUnique(x: nat, q: nat, r: nat, n: nat)
    requires r < n && x == q * n + r
    ensures x / n == q && x % n == r
  {
    var d := x / n;
    assert x == d * n + x % n;
    assert (q + 1) * n == q * n + n && (d + 1) * n == d * n + n;
    if d > q {
      MulMono(q + 1, d, n);
    } else if d < q {
      MulMono(d + 1, q, n);
    }
  }

  lemma OneMore(a: nat, n: nat)
    requires a >= n > 0
    ensures a / n == (a - n) / n + 1
  {
    var q, r := (a - n) / n, (a - n) % n;
    assert a - n == q * n + r;
    ModUnique(a, q + 1, r, n);
  }

  lemma QuotientsAdd(a: nat, b: nat, n: nat)
    requires n > 0
    ensures a / n + b / n <= (a + b) / n
  {
    SumDivided(a + b, a / n, b / n, a % n, b % n, n);
  }

  lemma SumDivided(x: nat, q1: nat, q2: nat, r1: nat, r2: nat, n: nat)
    requires x == q1 * n + r1 + (q2 * n + r2) && r1 < n && r2 < n
    ensures q1 + q2 <= x / n <= q1 + q2 + 1
  {
    assert x == (q1 + q2) * n + (r1 + r2);
    if r1 + r2 < n {
      ModUnique(x, q1 + q2, r1 + r2, n);
    } else {
      ModUnique(x, q1 + q2 + 1, r1 + r2 - n, n);
    }
  }

  lemma QuotientMono(a: nat, b: nat, n: nat)
    requires n > 0 && a <= b
    ensures a / n <= b / n
  {
    QuotientsAdd(a, b - a, n);
  }

  lemma SumAtMost(a: nat, b: nat, n: nat)
    requires n > 0
    ensures (a + b) / n <= a / n + b / n + 1
  {
    SumDivided(a + b, a / n, b / n, a % n, b % n, n);
  }
}
