/** The few nonlinear facts the rate and budget proofs need. */
module Arithmetic {

  lemma MulMonotone(a: int, b: int, n: nat)
    requires a <= b
    ensures a * n <= b * n
  {
    assert (b - a) * n >= 0;
  }

  lemma QuotientBounds(a: int, n: nat)
    requires n > 0
    ensures (a / n) * n <= a < (a / n) * n + n
  {
    assert a == n * (a / n) + a % n;
  }

  /** The quotient is the greatest multiple count that fits. */
  lemma QuotientIsGreatest(k: int, a: int, n: nat)
    requires n > 0 && k * n <= a
    ensures k <= a / n
  {
    QuotientBounds(a, n);
    var q := a / n;
    assert (q + 1) * n == q * n + n;
    if k > q { MulMonotone(q + 1, k, n); }
  }
}
