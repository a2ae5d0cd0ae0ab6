/**
 * The projections extractor: for `k = 1, ..., P` it records the pixel sum
 * of the first `b_k` rows and the pixel sum of the first `b_k` columns,
 * `b_k` being `k / P` of the height rounded down. Both counters start from
 * zero for every `k`, so the pairs are cumulative.
 */
module Projections {
  import opened Grids
  import opened Tables

  /** `int(k * height / P)`: for the non-negative operands the extractor
      uses, truncating the quotient is rounding it down. */
  function Boundary(k: int, height: nat, P: int): (b: int)
    requires P > 0 && 0 <= k <= P
    ensures 0 <= b <= height
  {
    MulMonotone(P, k, height);
    DivMonotone(k * height, P * height, P);
    MulDiv(height, P);
    assert height * P == P * height;
    k * height / P
  }

  /** Reading `image[y, i]` for `y < width` and `i < b_k` is in range for
      every `k` exactly when there are no projections, no columns, or as
      many rows as columns. */
  predicate Indexable(g: Grid, P: int)
  {
    IsGrid(g) && (P <= 0 || Width(g) == 0 || |g| == Width(g))
  }

  /** The horizontal counter: the pixels of rows `[0, b)`, row by row. */
  function Horizontal(g: Grid, b: int): int
    requires IsGrid(g) && 0 <= b <= |g|
  {
    BoxSum(g, 0, b, 0, Width(g))
  }

  /** The vertical counter: `image[y][i]` summed over `y < width` for each
      column `i < b` in turn; with no columns the inner loop never runs. */
  function Vertical(g: Grid, b: int): int
    requires IsGrid(g) && Width(g) <= |g| && 0 <= b && (Width(g) == 0 || b <= Width(g))
    decreases b
  {
    if Width(g) == 0 || b == 0 then 0 else Vertical(g, b - 1) + ColSum(g, b - 1, 0, Width(g))
  }

  /** On a grid with columns, the vertical counter is the pixel sum of the
      first `b` columns. */
  lemma {:induction false} VerticalIsColumnBlock(g: Grid, b: int)
    requires IsGrid(g) && 0 < Width(g) <= |g| && 0 <= b <= Width(g)
    ensures Vertical(g, b) == BoxSum(g, 0, Width(g), 0, b)
    decreases b
  {
    if b > 0 {
      VerticalIsColumnBlock(g, b - 1);
      BoxSumAddColumn(g, 0, Width(g), 0, b - 1);
    } else {
      BoxSumNoColumns(g, 0, Width(g), 0);
    }
  }

  /** Pair `a` of the feature vector, counting from 0: entry `(a, 0)` is the
      horizontal counter of projection `a + 1` and entry `(a, 1)` its
      vertical counter. */
  function Projection(g: Grid, P: int): (int, int) -> int
    requires Indexable(g, P) && P > 0
  {
    (a, c) =>
      if 0 <= a < P then
        var b := Boundary(a + 1, |g|, P);
        if c == 0 then Horizontal(g, b) else Vertical(g, b)
      else 0
  }

  /** The feature vector of one grid: the pairs of projections `1, ..., P`
      in order, none when `P` is not positive. */
  function ProjectionFeatures(g: Grid, P: int): (f: seq<int>)
    requires Indexable(g, P)
    ensures |f| == if P > 0 then 2 * P else 0
  {
    if P <= 0 then [] else Table(Projection(g, P), P, 2)
  }

  /** Entries `2(k - 1)` and `2(k - 1) + 1` hold the horizontal and the
      vertical counter of projection `k`. */
  lemma ProjectionFeaturesAt(g: Grid, P: int, k: int)
    requires Indexable(g, P) && 1 <= k <= P
    ensures var f, b := ProjectionFeatures(g, P), Boundary(k, |g|, P);
      0 <= 2 * (k - 1) && 2 * (k - 1) + 1 < |f| &&
      f[2 * (k - 1)] == Horizontal(g, b) && f[2 * (k - 1) + 1] == Vertical(g, b)
  {
    TableAt(Projection(g, P), P, 2, k - 1, 0);
    TableAt(Projection(g, P), P, 2, k - 1, 1);
  }

  /** The boundaries do not decrease with `k`. */
  lemma BoundaryMonotone(k1: int, k2: int, height: nat, P: int)
    requires P > 0 && 0 <= k1 <= k2 <= P
    ensures Boundary(k1, height, P) <= Boundary(k2, height, P)
  {
    MulMonotone(k2, k1, height);
    DivMonotone(k1 * height, k2 * height, P);
  }

  /** The last boundary is the height. */
  lemma BoundaryLast(height: nat, P: int)
    requires P > 0
    ensures Boundary(P, height, P) == height
  {
    MulDiv(height, P);
    assert height * P == P * height;
  }

  /** With non-negative pixels, later projections count at least as much as
      earlier ones, on both axes. */
  lemma ProjectionsMonotone(g: Grid, P: int, k1: int, k2: int)
    requires Indexable(g, P) && IsNonNegative(g) && 1 <= k1 <= k2 <= P
    ensures var f := ProjectionFeatures(g, P);
      0 <= 2 * (k1 - 1) && 2 * (k2 - 1) + 1 < |f| &&
      f[2 * (k1 - 1)] <= f[2 * (k2 - 1)] && f[2 * (k1 - 1) + 1] <= f[2 * (k2 - 1) + 1]
  {
    ProjectionFeaturesAt(g, P, k1);
    ProjectionFeaturesAt(g, P, k2);
    var b1, b2 := Boundary(k1, |g|, P), Boundary(k2, |g|, P);
    BoundaryMonotone(k1, k2, |g|, P);
    BoxSumMonotoneRows(g, 0, b1, b2, 0, Width(g));
    if Width(g) > 0 {
      VerticalIsColumnBlock(g, b1);
      VerticalIsColumnBlock(g, b2);
      BoxSumMonotoneColumns(g, 0, Width(g), 0, b1, b2);
    }
  }

  /** The last pair are both the pixel sum of the whole grid. */
  lemma LastPairIsTotal(g: Grid, P: int)
    requires Indexable(g, P) && P >= 1
    ensures var f := ProjectionFeatures(g, P);
      f[2 * P - 2] == BoxSum(g, 0, |g|, 0, Width(g)) && f[2 * P - 1] == BoxSum(g, 0, |g|, 0, Width(g))
  {
    ProjectionFeaturesAt(g, P, P);
    BoundaryLast(|g|, P);
    if Width(g) > 0 {
      VerticalIsColumnBlock(g, |g|);
    } else {
      BoxSumNoColumns(g, 0, |g|, 0);
    }
  }

  /** A single projection records the total pixel sum twice. */
  lemma SingleProjection(g: Grid)
    requires Indexable(g, 1)
    ensures ProjectionFeatures(g, 1) == [BoxSum(g, 0, |g|, 0, Width(g)), BoxSum(g, 0, |g|, 0, Width(g))]
  {
    LastPairIsTotal(g, 1);
    var f, total := ProjectionFeatures(g, 1), BoxSum(g, 0, |g|, 0, Width(g));
    assert |f| == 2 && f[0] == total && f[1] == total;
    assert f == [total, total];
  }

  /** On a 0/1 grid projection `k` counts at most `b_k` pixels per row on
      each axis. */
  lemma ProjectionBinaryBounds(g: Grid, P: int, k: int)
    requires Indexable(g, P) && IsBinary(g) && 1 <= k <= P
    ensures var f, b := ProjectionFeatures(g, P), Boundary(k, |g|, P);
      0 <= 2 * (k - 1) && 2 * (k - 1) + 1 < |f| &&
      0 <= f[2 * (k - 1)] <= b * Width(g) && 0 <= f[2 * (k - 1) + 1] <= b * Width(g)
  {
    ProjectionFeaturesAt(g, P, k);
    var b, w := Boundary(k, |g|, P), Width(g);
    BoxSumBinaryBounds(g, 0, b, 0, w);
    assert (b - 0) * (w - 0) == b * w;
    if w > 0 {
      VerticalIsColumnBlock(g, b);
      BoxSumBinaryBounds(g, 0, w, 0, b);
      assert (w - 0) * (b - 0) == b * w;
    }
  }

  class ProjectionsExtractor {
    const projections: int

    constructor(projections: int)
      ensures this.projections == projections
    {
      this.projections := projections;
    }

    /** Both counters of projection `k`, reset and accumulated afresh. */
    method ProjectionPair(image: Grid, k: int) returns (horizontalPixels: int, verticalPixels: int)
      requires Indexable(image, projections) && 1 <= k <= projections
      ensures horizontalPixels == Horizontal(image, Boundary(k, |image|, projections))
      ensures verticalPixels == Vertical(image, Boundary(k, |image|, projections))
    {
      horizontalPixels := 0;
      verticalPixels := 0;
      var height := |image|;
      var width := Width(image);
      var bound := k * height / projections;
      assert bound == Boundary(k, height, projections);
      for i := 0 to bound
        invariant horizontalPixels == BoxSum(image, 0, i, 0, width)
        invariant verticalPixels == Vertical(image, i)
      {
        ghost var left := verticalPixels;
        ghost var above := horizontalPixels;
        for y := 0 to width
          invariant horizontalPixels == above + RowSum(image[i], 0, y)
          invariant verticalPixels == left + (if y == 0 then 0 else ColSum(image, i, 0, y))
        {
          horizontalPixels := horizontalPixels + image[i][y];
          verticalPixels := verticalPixels + image[y][i];
        }
      }
    }

    /** The feature vector of one grid, pair after pair. */
    method ImageFeatures(image: Grid) returns (imgFeatures: seq<int>)
      requires Indexable(image, projections)
      ensures imgFeatures == ProjectionFeatures(image, projections)
    {
      imgFeatures := [];
      var k := 1;
      while k < projections + 1
        invariant projections > 0 ==> 1 <= k <= projections + 1 && imgFeatures == Table(Projection(image, projections), k - 1, 2)
        invariant projections <= 0 ==> k == 1 && imgFeatures == []
      {
        var horizontalPixels, verticalPixels := ProjectionPair(image, k);
        ghost var f := Projection(image, projections);
        TableOfPairs(f, k, horizontalPixels, verticalPixels);
        imgFeatures := imgFeatures + [horizontalPixels, verticalPixels];
        k := k + 1;
      }
    }

    /** One feature vector per grid, in input order. */
    method Transform(x: seq<Grid>) returns (xTransformed: seq<seq<int>>)
      requires forall k | 0 <= k < |x| :: Indexable(x[k], projections)
      ensures |xTransformed| == |x|
      ensures forall k | 0 <= k < |x| :: xTransformed[k] == ProjectionFeatures(x[k], projections)
    {
      xTransformed := [];
      for k := 0 to |x|
        invariant |xTransformed| == k
        invariant forall t | 0 <= t < k :: xTransformed[t] == ProjectionFeatures(x[t], projections)
      {
        var imgFeatures := ImageFeatures(x[k]);
        xTransformed := xTransformed + [imgFeatures];
      }
    }
  }
}
