/** The few facts about products that the other modules need. */
module Arithmetic {

  lemma Distribute(a: int, b: int, c: int)
    ensures (a + b) * c == a * c + b * c
    ensures c * (a + b) == c * a + c * b
  {
  }

  /** One factor more. */
  lemma OneMore(n: int, k: int)
    ensures (n + 1) * k == n * k + k
    ensures k * (n + 1) == k * n + k
  {
  }

  lemma MulMonotone(a: int, b: int, n: nat)
    requires a <= b
    ensures a * n <= b * n
    ensures n * a <= n * b
  {
    assert (b - a) * n >= 0;
  }
}
