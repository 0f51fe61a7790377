/** Facts about products that the solver is better told than left to find. */
module Arithmetic {
  lemma MulMonotone(a: int, b: int, s: nat)
    requires a <= b
    ensures a * s <= b * s
  {
  }

  lemma NextMultiple(a: int, b: int)
    ensures (a + 1) * b == a * b + b
  {
  }

  /** Rows of length n do not overlap. */
  lemma RowsApart(a: int, b: int, n: nat)
    requires a < b
    ensures a * n + n <= b * n
  {
    NextMultiple(a, n);
    MulMonotone(a + 1, b, n);
  }

  lemma SquareMonotone(n: nat, m: nat)
    requires n <= m
    ensures n * n <= m * m
  {
  }
}
