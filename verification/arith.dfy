/** Facts about Euclidean division that the verifier does not find unaided;
    the ciphers use them to reason about `modulo` and grid coordinates. */
module Arith {

  lemma MulAtLeast(d: int, m: int)
    requires d >= 1 && m > 0
    ensures d * m >= m
  {
  }

  /** Quotient and remainder are determined by `a == q * m + r, 0 <= r < m`. */
  lemma DivModUnique(a: int, m: int, q: int, r: int)
    requires m > 0 && 0 <= r < m && a == q * m + r
    ensures a % m == r && a / m == q
  {
    var q0, r0 := a / m, a % m;
    assert a == q0 * m + r0;
    assert (q - q0) * m == r0 - r;
    if q > q0 {
      MulAtLeast(q - q0, m);
    } else if q < q0 {
      MulAtLeast(q0 - q, m);
    }
  }

  lemma ModAddMultiple(a: int, t: int, m: int)
    requires m > 0
    ensures (a + t * m) % m == a % m
  {
    var q := a / m;
    assert a + t * m == (q + t) * m + a % m;
    DivModUnique(a + t * m, m, q + t, a % m);
  }

  /** Cell `r*k + j` of a `rows × k` grid stored row by row lies inside it. */
  lemma CellInGrid(r: int, j: int, rows: int, k: int)
    requires 0 <= r < rows && 0 <= j < k
    ensures 0 <= r * k + j < rows * k
  {
    MulAtLeast(rows - r, k);
    assert rows * k == r * k + (rows - r) * k;
  }

  /** A position below `q * k` splits into row `t / k` and column `t % k`. */
  lemma SplitIndex(t: int, q: int, k: int)
    requires k > 0 && 0 <= t < q * k
    ensures t == (t / k) * k + t % k
    ensures 0 <= t / k < q && 0 <= t % k < k
  {
    if t / k >= q {
      MulAtLeast(t / k - q + 1, k);
    }
  }

  /** Row and column of a grid cell are determined by its position. */
  lemma CellUnique(a: int, b: int, c: int, d: int, k: int)
    requires k > 0 && 0 <= b < k && 0 <= d < k && a * k + b == c * k + d
    ensures a == c && b == d
  {
    DivModUnique(a * k + b, k, a, b);
    DivModUnique(c * k + d, k, c, d);
  }

  /** One more block of `n`. */
  lemma MulNext(i: nat, n: nat)
    ensures (i + 1) * n == i * n + n && i * n >= 0
  {
  }
}
