/** Facts about Euclidean division needed to count a round-robin share. */
module Arith {

  lemma MulDistrib(m: int, x: int, y: int)
    ensures m * x - m * y == m * (x - y)
  {
  }

  lemma MulAtLeast(m: nat, k: int)
    requires k >= 1
    ensures m * k >= m
  {
  }

  /** Quotient and remainder are determined by `a == m * q + r` with `0 <= r < m`. */
  lemma DivModUnique(a: int, m: int, q: int, r: int)
    requires m > 0 && 0 <= r < m && a == m * q + r
    ensures a / m == q && a % m == r
  {
    var q', r' := a / m, a % m;
    assert a == m * q' + r' && 0 <= r' < m;
    if q' < q {
      MulDistrib(m, q, q');
      MulAtLeast(m, q - q');
      assert false;
    } else if q' > q {
      MulDistrib(m, q', q);
      MulAtLeast(m, q' - q);
      assert false;
    }
  }

  /** How quotient and remainder move when the dividend grows by one. */
  lemma DivModSucc(n: nat, m: nat)
    requires m > 0
    ensures n % m < m - 1 ==> (n + 1) % m == n % m + 1 && (n + 1) / m == n / m
    ensures n % m == m - 1 ==> (n + 1) % m == 0 && (n + 1) / m == n / m + 1
  {
    var q, r := n / m, n % m;
    assert n == m * q + r;
    if r < m - 1 {
      DivModUnique(n + 1, m, q, r + 1);
    } else {
      assert n + 1 == m * (q + 1) + 0;
      DivModUnique(n + 1, m, q + 1, 0);
    }
  }
}
