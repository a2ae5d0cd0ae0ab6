/**
 * Pixel grids shared by the feature extractors: a grid is a row-major
 * sequence of rows, `g[r][c]` being the pixel at row `r` and column `c`.
 * This module defines the sums and counts that the extractors' loops
 * accumulate, the contiguous row/column range copy that the quadrant and
 * window slicing amounts to, and the facts about them that the extractors'
 * proofs share.
 */
module Grids {

  datatype Option<T> = None | Some(value: T)

  type Grid = seq<seq<int>>

  /** Number of columns; a grid without rows has none. */
  function Width(g: Grid): nat
  {
    if |g| == 0 then 0 else |g[0]|
  }

  /** Every row has the same length (a two-dimensional array). */
  predicate IsGrid(g: Grid)
  {
    forall r | 0 <= r < |g| :: |g[r]| == Width(g)
  }

  /** Every pixel is 0 or 1. */
  predicate IsBinary(g: Grid)
  {
    forall r, c | 0 <= r < |g| && 0 <= c < |g[r]| :: g[r][c] == 0 || g[r][c] == 1
  }

  predicate IsNonNegative(g: Grid)
  {
    forall r, c | 0 <= r < |g| && 0 <= c < |g[r]| :: g[r][c] >= 0
  }

  function Abs(x: int): nat
  {
    if x < 0 then -x else x
  }

  /** Sum of `row[lo..hi]`, accumulated from the left. */
  function RowSum(row: seq<int>, lo: int, hi: int): int
    requires 0 <= lo <= hi <= |row|
    decreases hi - lo
  {
    if lo == hi then 0 else RowSum(row, lo, hi - 1) + row[hi - 1]
  }

  /** Number of entries of `row[lo..hi]` equal to 1. */
  function RowCount(row: seq<int>, lo: int, hi: int): nat
    requires 0 <= lo <= hi <= |row|
    decreases hi - lo
  {
    if lo == hi then 0 else RowCount(row, lo, hi - 1) + (if row[hi - 1] == 1 then 1 else 0)
  }

  /** Sum of column `c` over rows `[r0, r1)`. */
  function ColSum(g: Grid, c: int, r0: int, r1: int): int
    requires IsGrid(g) && 0 <= c < Width(g) && 0 <= r0 <= r1 <= |g|
    decreases r1 - r0
  {
    if r0 == r1 then 0 else ColSum(g, c, r0, r1 - 1) + g[r1 - 1][c]
  }

  /** Number of pixels equal to 1 in column `c` over rows `[r0, r1)`. */
  function ColCount(g: Grid, c: int, r0: int, r1: int): nat
    requires IsGrid(g) && 0 <= c < Width(g) && 0 <= r0 <= r1 <= |g|
    decreases r1 - r0
  {
    if r0 == r1 then 0 else ColCount(g, c, r0, r1 - 1) + (if g[r1 - 1][c] == 1 then 1 else 0)
  }

  predicate InBox(g: Grid, r0: int, r1: int, c0: int, c1: int)
  {
    0 <= r0 <= r1 <= |g| && 0 <= c0 <= c1 <= Width(g)
  }

  /** Sum of the pixels in rows `[r0, r1)` and columns `[c0, c1)`, row by row. */
  function BoxSum(g: Grid, r0: int, r1: int, c0: int, c1: int): int
    requires IsGrid(g) && InBox(g, r0, r1, c0, c1)
    decreases r1 - r0
  {
    if r0 == r1 then 0 else BoxSum(g, r0, r1 - 1, c0, c1) + RowSum(g[r1 - 1], c0, c1)
  }

  /** Number of pixels equal to 1 in rows `[r0, r1)` and columns `[c0, c1)`. */
  function BoxCount(g: Grid, r0: int, r1: int, c0: int, c1: int): nat
    requires IsGrid(g) && InBox(g, r0, r1, c0, c1)
    decreases r1 - r0
  {
    if r0 == r1 then 0 else BoxCount(g, r0, r1 - 1, c0, c1) + RowCount(g[r1 - 1], c0, c1)
  }

  /** Copy of rows `[r0, r1)` and columns `[c0, c1)`: what indexing a
      two-dimensional array with two contiguous index lists yields. */
  function SubGrid(g: Grid, r0: int, r1: int, c0: int, c1: int): (s: Grid)
    requires IsGrid(g) && InBox(g, r0, r1, c0, c1)
    ensures IsGrid(s) && |s| == r1 - r0
    ensures r0 < r1 ==> Width(s) == c1 - c0
    decreases r1 - r0
  {
    if r0 == r1 then [] else SubGrid(g, r0, r1 - 1, c0, c1) + [g[r1 - 1][c0..c1]]
  }

  /** The copy holds the pixels of the box, in their order. */
  lemma {:induction false} SubGridPixels(g: Grid, r0: int, r1: int, c0: int, c1: int)
    requires IsGrid(g) && InBox(g, r0, r1, c0, c1)
    ensures forall r, c | 0 <= r < r1 - r0 && 0 <= c < c1 - c0 ::
      SubGrid(g, r0, r1, c0, c1)[r][c] == g[r0 + r][c0 + c]
    decreases r1 - r0
  {
    if r0 < r1 {
      SubGridPixels(g, r0, r1 - 1, c0, c1);
    }
  }

  /** A row sum can also be peeled off from the left. */
  lemma {:induction false} RowSumFront(row: seq<int>, lo: int, hi: int)
    requires 0 <= lo < hi <= |row|
    ensures RowSum(row, lo, hi) == row[lo] + RowSum(row, lo + 1, hi)
    decreases hi - lo
  {
    if lo + 1 < hi {
      RowSumFront(row, lo, hi - 1);
    }
  }

  /** A box without columns holds nothing. */
  lemma {:induction false} BoxSumNoColumns(g: Grid, r0: int, r1: int, c: int)
    requires IsGrid(g) && InBox(g, r0, r1, c, c)
    ensures BoxSum(g, r0, r1, c, c) == 0
    decreases r1 - r0
  {
    if r0 < r1 {
      BoxSumNoColumns(g, r0, r1 - 1, c);
    }
  }

  /** Adding one column to a box adds that column's sum. */
  lemma {:induction false} BoxSumAddColumn(g: Grid, r0: int, r1: int, c0: int, c1: int)
    requires IsGrid(g) && InBox(g, r0, r1, c0, c1) && c1 < Width(g)
    ensures BoxSum(g, r0, r1, c0, c1 + 1) == BoxSum(g, r0, r1, c0, c1) + ColSum(g, c1, r0, r1)
    decreases r1 - r0
  {
    if r0 < r1 {
      BoxSumAddColumn(g, r0, r1 - 1, c0, c1);
    }
  }

  /** On a grid of 0/1 pixels a row range holds between 0 and its length. */
  lemma {:induction false} RowSumBinaryBounds(row: seq<int>, lo: int, hi: int)
    requires 0 <= lo <= hi <= |row|
    requires forall c | lo <= c < hi :: row[c] == 0 || row[c] == 1
    ensures 0 <= RowSum(row, lo, hi) <= hi - lo
    ensures RowSum(row, lo, hi) == RowCount(row, lo, hi)
    decreases hi - lo
  {
    if lo < hi {
      RowSumBinaryBounds(row, lo, hi - 1);
    }
  }

  /** On a grid of 0/1 pixels a box holds between 0 and its area. */
  lemma {:induction false} BoxSumBinaryBounds(g: Grid, r0: int, r1: int, c0: int, c1: int)
    requires IsGrid(g) && IsBinary(g) && InBox(g, r0, r1, c0, c1)
    ensures 0 <= BoxSum(g, r0, r1, c0, c1) <= (r1 - r0) * (c1 - c0)
    decreases r1 - r0
  {
    if r0 < r1 {
      BoxSumBinaryBounds(g, r0, r1 - 1, c0, c1);
      RowSumBinaryBounds(g[r1 - 1], c0, c1);
      assert (r1 - r0) * (c1 - c0) == (r1 - 1 - r0) * (c1 - c0) + (c1 - c0);
    }
  }

  lemma {:induction false} ColSumNonNegative(g: Grid, c: int, r0: int, r1: int)
    requires IsGrid(g) && IsNonNegative(g) && 0 <= c < Width(g) && 0 <= r0 <= r1 <= |g|
    ensures ColSum(g, c, r0, r1) >= 0
    decreases r1 - r0
  {
    if r0 < r1 {
      ColSumNonNegative(g, c, r0, r1 - 1);
    }
  }

  lemma {:induction false} RowSumNonNegative(row: seq<int>, lo: int, hi: int)
    requires 0 <= lo <= hi <= |row|
    requires forall c | lo <= c < hi :: row[c] >= 0
    ensures RowSum(row, lo, hi) >= 0
    decreases hi - lo
  {
    if lo < hi {
      RowSumNonNegative(row, lo, hi - 1);
    }
  }

  /** With non-negative pixels, a box grows with its last row bound. */
  lemma {:induction false} BoxSumMonotoneRows(g: Grid, r0: int, r1: int, r2: int, c0: int, c1: int)
    requires IsGrid(g) && IsNonNegative(g) && InBox(g, r0, r2, c0, c1) && r0 <= r1 <= r2
    ensures BoxSum(g, r0, r1, c0, c1) <= BoxSum(g, r0, r2, c0, c1)
    decreases r2 - r1
  {
    if r1 < r2 {
      BoxSumMonotoneRows(g, r0, r1, r2 - 1, c0, c1);
      RowSumNonNegative(g[r2 - 1], c0, c1);
    }
  }

  /** With non-negative pixels, a box grows with its last column bound. */
  lemma {:induction false} BoxSumMonotoneColumns(g: Grid, r0: int, r1: int, c0: int, c1: int, c2: int)
    requires IsGrid(g) && IsNonNegative(g) && InBox(g, r0, r1, c0, c2) && c0 <= c1 <= c2
    ensures BoxSum(g, r0, r1, c0, c1) <= BoxSum(g, r0, r1, c0, c2)
    decreases c2 - c1
  {
    if c1 < c2 {
      BoxSumMonotoneColumns(g, r0, r1, c0, c1, c2 - 1);
      BoxSumAddColumn(g, r0, r1, c0, c2 - 1);
      ColSumNonNegative(g, c2 - 1, r0, r1);
    }
  }

  /** Facts about Euclidean division by a positive divisor. */
  lemma DivBounds(n: int, z: int)
    requires n >= 0 && z > 0
    ensures (n / z) * z <= n < (n / z + 1) * z
  {
  }

  /** Dividing a multiple of `p` by `p` gives the factor back. */
  lemma MulDiv(x: int, p: int)
    requires x >= 0 && p > 0
    ensures (x * p) / p == x
  {
    var q := (x * p) / p;
    DivBounds(x * p, p);
    if q < x {
      MulMonotone(x, q + 1, p);
    } else if q > x {
      MulMonotone(q, x + 1, p);
    }
  }

  lemma DivMonotone(a: int, b: int, p: int)
    requires 0 <= a <= b && p > 0
    ensures a / p <= b / p
  {
    DivBounds(a, p);
    DivBounds(b, p);
    if b / p + 1 <= a / p {
      MulMonotone(a / p, b / p + 1, p);
    }
  }

  /** Entry `(i, j)` of an `n` by `m` table laid out row after row sits at
      `i * m + j`, inside the first `n - 1` rows unless `i` is the last row. */
  lemma RowMajorIndex(i: int, j: int, n: int, m: int)
    requires 0 <= i < n && 0 <= j < m
    ensures 0 <= i * m + j < n * m
    ensures i < n - 1 ==> i * m + j < (n - 1) * m
    ensures i == n - 1 ==> i * m + j == (n - 1) * m + j
  {
    MulMonotone(i, 0, m);
    assert (i + 1) * m == i * m + m;
    MulMonotone(n, i + 1, m);
    if i < n - 1 {
      MulMonotone(n - 1, i + 1, m);
    }
  }

  /** Appending one more row of `m` entries to `n - 1` rows leaves the
      earlier entries where they were and puts the new row's entries last. */
  lemma RowMajorAppend<T>(prev: seq<T>, last: seq<T>, n: int, m: int, i: int, j: int)
    requires |prev| == (n - 1) * m && |last| == m && 0 <= i < n && 0 <= j < m
    ensures 0 <= i * m + j < |prev + last|
    ensures i < n - 1 ==> i * m + j < |prev| && (prev + last)[i * m + j] == prev[i * m + j]
    ensures i == n - 1 ==> i * m + j == |prev| + j && (prev + last)[i * m + j] == last[j]
  {
    RowMajorIndex(i, j, n, m);
  }

  lemma MulMonotone(x: int, y: int, p: int)
    requires x >= y && p >= 0
    ensures x * p >= y * p
  {
    assert x * p - y * p == (x - y) * p;
  }
}
