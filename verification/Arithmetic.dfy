/** Facts about products and quotients that the layouts rely on. */
module Arithmetic {

  lemma Scale(a: nat, b: nat, d: nat)
    requires a <= b
    ensures a * d <= b * d
  {
  }

  lemma QuotientBound(p: nat, q: nat, r: nat, s: nat, d: nat)
    requires p * d + r == q * d + s && r < d && s < d
    ensures p <= q
  {
    if p >= q + 1 {
      Scale(q + 1, p, d);
    }
  }

  /** A number has one quotient and one remainder. */
  lemma PairUnique(p: nat, r: nat, q: nat, s: nat, d: nat)
    requires p * d + r == q * d + s && r < d && s < d
    ensures p == q && r == s
  {
    QuotientBound(p, q, r, s, d);
    QuotientBound(q, p, s, r, d);
  }

  lemma EuclideanUnique(q: nat, r: nat, d: nat)
    requires r < d
    ensures (q * d + r) / d == q && (q * d + r) % d == r
  {
    var x := q * d + r;
    PairUnique(x / d, x % d, q, r, d);
  }

  /** Every cell of an `m` by `n` grid has a row and a column. */
  lemma CellOf(p: nat, m: nat, n: nat)
    requires p < m * n
    ensures n > 0 && p / n < m && p % n < n && p / n * n + p % n == p
  {
    if n > 0 && p / n >= m {
      Scale(m, p / n, n);
    }
  }

  /** Row `a` and column `b` of an `m` by `n` grid give a cell of the grid. */
  lemma PairInside(a: nat, b: nat, m: nat, n: nat)
    requires a < m && b < n
    ensures a * n + b < m * n
  {
    Scale(a + 1, m, n);
  }
}
