/** The machine word, and facts about products and remainders that the solver does not find by itself. */
module Arithmetic {

  /** The number of values of a 64-bit word. */
  const WORD: int := 0x1_0000_0000_0000_0000

  lemma {:induction false} ScaleIsMonotone(n: nat, x: int, y: int)
    ensures x < y ==> n * x + n <= n * y
    decreases y - x
  {
    if x + 1 < y {
      ScaleIsMonotone(n, x, y - 1);
    }
    assert n * y == n * (y - 1) + n;
  }

  lemma QuotientAndRemainder(n: nat, q: nat, r: nat)
    requires r < n
    ensures (n * q + r) / n == q && (n * q + r) % n == r
  {
    var x := n * q + r;
    assert x == n * (x / n) + x % n;
    ScaleIsMonotone(n, x / n, q);
    ScaleIsMonotone(n, q, x / n);
  }
}
