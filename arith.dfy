/** Facts about multiplication and Euclidean division shared by the ring and block modules. */
module Arith {
  lemma MulBound(k: int, n: int)
    requires n > 0 && -n < k * n < n
    ensures k == 0
  {
  }

  /** Euclidean division has one quotient and one remainder. */
  lemma DivUnique(x: int, n: int, q: int, r: int)
    requires n > 0 && 0 <= r < n && x == q * n + r
    ensures x / n == q && x % n == r
  {
    var q', r' := x / n, x % n;
    assert (q - q') * n == r' - r;
    MulBound(q - q', n);
  }

  /** Residues of two positions less than n apart differ. */
  lemma ModDistinct(a: nat, b: nat, n: nat)
    requires n > 0 && a < b < a + n
    ensures a % n != b % n
  {
    var q, r := a / n, a % n;
    var d := b - a;
    if r + d < n {
      DivUnique(b, n, q, r + d);
    } else {
      assert b == (q + 1) * n + (r + d - n);
      DivUnique(b, n, q + 1, r + d - n);
    }
  }

  /** A whole number of blocks: k * n divided by n is k, remainder 0. */
  lemma MulDivExact(k: nat, n: nat)
    requires n > 0
    ensures (k * n) / n == k && (k * n) % n == 0
  {
    DivUnique(k * n, n, k, 0);
  }

  /** Block i ends no later than block j begins when i < j. */
  lemma {:induction false} SlotsOrdered(i: nat, j: nat, bs: nat)
    requires i < j
    ensures i * bs + bs <= j * bs
  {
    if j == i + 1 {
      assert j * bs == i * bs + bs;
    } else {
      SlotsOrdered(i, j - 1, bs);
      assert j * bs == (j - 1) * bs + bs;
    }
  }
}
