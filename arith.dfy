/** Facts about Euclidean division that the grid and rotation proofs rest on. */
module Arith {

  lemma {:induction false} MulAtLeast(m: int, k: int)
    requires m >= 1 && k > 0
    ensures m * k >= k
    decreases m
  {
    if m > 1 {
      MulAtLeast(m - 1, k);
      assert m * k == (m - 1) * k + k;
    }
  }

  /** Quotient and remainder are the only pair with `a == q * k + r` and `0 <= r < k`. */
  lemma DivModUnique(a: int, k: int, q: int, r: int)
    requires k > 0 && 0 <= r < k && a == q * k + r
    ensures a / k == q && a % k == r
  {
    var q', r' := a / k, a % k;
    assert a == q' * k + r';
    assert (q - q') * k == q * k - q' * k;
    if q' < q {
      MulAtLeast(q - q', k);
    } else if q < q' {
      MulAtLeast(q' - q, k);
    }
  }

  lemma ModShift(n: int, k: int)
    requires k > 0 && n >= k
    ensures (n - k) % k == n % k
  {
    assert n == (n / k) * k + n % k;
    DivModUnique(n - k, k, n / k - 1, n % k);
  }
}
