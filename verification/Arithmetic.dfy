/** Products and quotients. */
module Arithmetic {
  lemma Times(a: int, b: int, c: int)
    requires a <= b && c >= 0
    ensures a * c <= b * c
  {
  }

  /** Quotient and remainder are the only ones there are. */
  lemma Place(p: int, q: int, r: int, n: int)
    requires 0 < n && p == n * q + r && 0 <= r < n
    ensures p / n == q && p % n == r
  {
    if p / n < q { Times(p / n + 1, q, n); }
    if p / n > q { Times(q + 1, p / n, n); }
  }

  lemma Multiple(q: int, n: int)
    requires n > 0
    ensures q * n % n == 0 && q * n / n == q
  {
    Place(q * n, q, 0, n);
  }

  lemma DivideMonotone(a: int, b: int, n: int)
    requires n > 0 && a <= b
    ensures a / n <= b / n
  {
    if a / n > b / n { Times(b / n + 1, a / n, n); }
  }

  /** A multiple is the product with its quotient. */
  lemma Exact(a: int, n: int)
    requires n > 0 && a % n == 0
    ensures a == a / n * n
  {
  }

  /** Two to the power of i. */
  function Power(i: nat): (r: nat)
    ensures r > 0
  {
    if i == 0 then 1 else 2 * Power(i - 1)
  }
}
