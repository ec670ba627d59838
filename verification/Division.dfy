/** Quotients and remainders by any divisor. */
module Division {
  lemma MulMonotone(k: int, a: int, b: int)
    requires k > 0
    ensures a <= b ==> k * a <= k * b
  {
  }

  lemma QuotientUnique(x: int, k: int, q: int, r: int)
    requires k > 0 && x == k * q + r && 0 <= r < k
    ensures x / k == q && x % k == r
  {
    assert x == k * (x / k) + x % k;
    MulMonotone(k, q + 1, x / k);
    MulMonotone(k, x / k + 1, q);
  }
}
