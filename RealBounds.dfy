/**
 * Bounds on sums and means of reals, shared by the baseline, anomaly and
 * merge stages.
 */
module RealBounds {

  /** `n` copies of `a` added up: keeps the bound proofs in linear arithmetic. */
  function Scale(a: real, n: nat): real {
    if n == 0 then 0.0 else Scale(a, n - 1) + a
  }

  lemma {:induction false} ScaleIsProduct(a: real, n: nat)
    ensures Scale(a, n) == a * n as real
  {
    if n > 0 {
      ScaleIsProduct(a, n - 1);
    }
  }

  /** A quotient by a positive count stays within the bounds its dividend was scaled by. */
  lemma DivWithin(s: real, c: real, lo: real, hi: real)
    requires c > 0.0 && lo * c <= s <= hi * c
    ensures lo <= s / c <= hi
  {
    assert s / c * c == s;
  }

  /** A mean of `n` values lies within any bounds every value lies within. */
  lemma MeanWithin(total: real, n: nat, lo: real, hi: real)
    requires n >= 1 && Scale(lo, n) <= total <= Scale(hi, n)
    ensures lo <= total / n as real <= hi
  {
    ScaleIsProduct(lo, n);
    ScaleIsProduct(hi, n);
    DivWithin(total, n as real, lo, hi);
  }
}
