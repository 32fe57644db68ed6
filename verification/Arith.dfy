/** The few non-linear facts the other modules use, each proved once. */
module Arith {
  lemma Distribute(k: int, a: int, b: int)
    ensures k * (a + b) == k * a + k * b
  {
  }

  lemma MultiplyMonotone(k: nat, x: int, y: int)
    ensures x <= y ==> k * x <= k * y
  {
  }

  /** A non-zero multiple of `k` is at least `k` away from zero. */
  lemma MultipleIsFar(d: int, k: nat)
    ensures d >= 1 ==> k * d >= k
    ensures d <= -1 ==> k * d + k <= 0
  {
    MultiplyMonotone(k, 1, d);
    MultiplyMonotone(k, d, -1);
  }

  /** Division with remainder is unique. */
  lemma DivModUnique(m: int, k: nat, q: int, r: nat)
    requires r < k && m == k * q + r
    ensures m / k == q && m % k == r
  {
    assert m == k * (m / k) + m % k;
    Distribute(k, m / k, -q);
    assert k * (m / k - q) == r - m % k;
    MultipleIsFar(m / k - q, k);
  }

  /** How a remainder moves on. */
  lemma NextRemainder(k: nat, n: nat)
    requires n > 0
    ensures (k + 1) % n == if k % n + 1 == n then 0 else k % n + 1
  {
    var q := k / n;
    assert k == n * q + k % n;
    if k % n + 1 == n {
      Distribute(n, q, 1);
      DivModUnique(k + 1, n, q + 1, 0);
    } else {
      DivModUnique(k + 1, n, q, k % n + 1);
    }
  }
}
