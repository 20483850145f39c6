/** Facts about Euclidean division shared by the counters and the clock. */
module Arith {

  /** A number written as q * m + r with 0 <= r < m has quotient q and remainder r. */
  lemma DivModUnique(a: int, m: int, q: int, r: int)
    requires m > 0 && 0 <= r < m && a == q * m + r
    ensures a / m == q && a % m == r
  {
    var q', r' := a / m, a % m;
    assert (q' - q) * m == r - r';
    SmallMultiple(q' - q, m);
  }

  /** The only multiple of m strictly between -m and m is 0. */
  lemma SmallMultiple(k: int, m: int)
    requires m > 0 && -m < k * m < m
    ensures k == 0
  {
    if k > 0 {
      MulAtLeast(k, m);
      assert false;
    } else if k < 0 {
      MulAtLeast(-k, m);
      assert false;
    }
  }

  lemma MulAtLeast(k: int, m: int)
    requires k >= 1 && m > 0
    ensures k * m >= m && (-k) * m <= -m
  {
  }
}
