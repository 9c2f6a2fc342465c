/** Division facts the ring and region arithmetic needs; the solver does not find them alone. */
module Arith {

  lemma MulCancelLt(a: int, b: int, n: int)
    requires 0 < n && a * n < b * n
    ensures a < b
  {
  }

  /** `x / n` is `q` whenever `x` lies in the `q`-th block of `n`. */
  lemma DivIs(x: int, n: int, q: int)
    requires 0 < n && q * n <= x < q * n + n
    ensures x / n == q && x % n == x - q * n
  {
    var d, r := x / n, x % n;
    assert x == d * n + r;
    MulCancelLt(q, d + 1, n);
    MulCancelLt(d, q + 1, n);
  }

  /** Inside a block of size `n`, a multiple of 4 stays a multiple of 4 when `n` is one. */
  lemma OffsetInBlockAligned(p: int, n: int)
    requires 0 <= p && p % 4 == 0 && 0 < n && n % 4 == 0
    ensures (p % n) % 4 == 0 && p % n + 4 <= n
  {
    var q, r := p / n, p % n;
    var k := n / 4;
    assert n == 4 * k;
    assert q * n == 4 * (q * k);
    assert r == 4 * (p / 4 - q * k);
  }

  /** Two multiples of 4: the smaller is at least 4 below the larger. */
  lemma AlignedBelow(p: int, m: int)
    requires p < m && p % 4 == 0 && m % 4 == 0
    ensures p + 4 <= m
  {
    assert p == 4 * (p / 4) && m == 4 * (m / 4);
  }

  lemma TripleAligned(n: int)
    requires n % 4 == 0
    ensures (3 * n) % 4 == 0
  {
    assert 3 * n == 4 * (3 * (n / 4));
  }

  lemma MulMonotone(a: int, b: int, n: int)
    requires a <= b && 0 <= n
    ensures a * n <= b * n
  {
    assert b * n == a * n + (b - a) * n;
  }

  /** A row-major index splits back into its row and column. */
  lemma RowMajor(row: int, col: int, stride: int)
    ensures 0 <= col < stride ==>
      (row * stride + col) / stride == row && (row * stride + col) % stride == col
  {
    if 0 <= col < stride {
      DivIs(row * stride + col, stride, row);
    }
  }

  /** Cell (i, m) of an h-by-w row-major block lies inside the block. */
  lemma RowIndexBelow(i: int, m: int, w: int, h: int)
    requires 0 <= i < h && 0 <= m < w
    ensures 0 <= i * w + m < h * w
  {
    assert i * w + w == (i + 1) * w;
    MulMonotone(i + 1, h, w);
    MulMonotone(0, i, w);
  }

  /** Below k blocks of size n means a block index below k. */
  lemma DivBelow(x: int, n: int, k: int)
    requires 0 < n
    ensures 0 <= x < k * n ==> 0 <= x / n < k
  {
    var q := x / n;
    assert x == q * n + x % n;
    if 0 <= x < k * n && q >= k {
      MulMonotone(k, q, n);
      assert false;
    }
  }
}
