/**
 * The zones extractors. The plain one cuts the grid into whole `z` by `z`
 * cells, row-major, and records each cell's pixel sum, optionally adding a
 * weight for every set pixel in a band of top rows. The adaptive one tries
 * every shift of each cell in `[-R, R]` on both axes, undoing the shift on
 * an axis where the shifted range `[from, to)` would have `from < 0` or
 * `to > n - 1` (so a shifted window never reaches the last row or column),
 * and records the largest window sum.
 */
module Zones {
  import opened Grids
  import opened Tables

  /** A cell edge length; the extractors divide by it. */
  type ZoneSize = z: int | z != 0 witness 1

  /** Number of whole cells along an edge of `n` pixels: the loops over
      cells run `range(0, int(n / z))`, which for a negative `z` is empty.
      For a positive `z` the quotient is counted by repeated subtraction. */
  function CellsAlong(n: nat, z: ZoneSize): (m: nat)
    ensures z < 0 || n < z ==> m == 0
    decreases n
  {
    if z < 0 || n < z then 0 else 1 + CellsAlong(n - z, z)
  }

  /** The whole cells cover all of the edge but less than one cell. */
  lemma {:induction false} CellsCoverEdge(n: nat, z: ZoneSize)
    requires z > 0
    ensures CellsAlong(n, z) * z <= n < (CellsAlong(n, z) + 1) * z
    decreases n
  {
    if n >= z {
      CellsCoverEdge(n - z, z);
      var k := CellsAlong(n - z, z);
      assert (k + 1) * z == k * z + z && (k + 2) * z == (k + 1) * z + z;
    }
  }

  /** Cell `i` along an edge of `n` pixels lies inside the edge. */
  lemma CellFits(n: nat, z: ZoneSize, i: int)
    requires 0 <= i < CellsAlong(n, z)
    ensures z > 0 && 0 <= i * z && (i + 1) * z <= n
  {
    CellsCoverEdge(n, z);
    MulMonotone(i, 0, z);
    MulMonotone(CellsAlong(n, z), i + 1, z);
  }

  /** Cell `(i, j)` is one of the grid's whole cells. */
  predicate CellInGrid(g: Grid, z: ZoneSize, i: int, j: int)
  {
    IsGrid(g) && 0 <= i < CellsAlong(|g|, z) && 0 <= j < CellsAlong(Width(g), z)
  }

  // ---------------------------------------------------------------------
  // Zones

  /** Rows above this index get the extra weight. */
  function TopBand(height: nat, z: ZoneSize): int
    requires z > 0
  {
    height / z / 4
  }

  /** What one pixel adds on top of its own value. */
  function PixelWeight(p: int, inBand: bool, weighted: bool, weight: real): real
  {
    if weighted && inBand && p == 1 then weight else 0.0
  }

  /** What the inner loop accumulates over `row[c0..c1]`. */
  function RowValue(row: seq<int>, c0: int, c1: int, inBand: bool, weighted: bool, weight: real): real
    requires 0 <= c0 <= c1 <= |row|
    decreases c1 - c0
  {
    if c0 == c1 then 0.0
    else RowValue(row, c0, c1 - 1, inBand, weighted, weight) + row[c1 - 1] as real
         + PixelWeight(row[c1 - 1], inBand, weighted, weight)
  }

  /** What the two inner loops accumulate over a box, a row being weighted
      when it lies above `band`. */
  function BoxValue(g: Grid, r0: int, r1: int, c0: int, c1: int, band: int, weighted: bool, weight: real): real
    requires IsGrid(g) && InBox(g, r0, r1, c0, c1)
    decreases r1 - r0
  {
    if r0 == r1 then 0.0
    else BoxValue(g, r0, r1 - 1, c0, c1, band, weighted, weight)
         + RowValue(g[r1 - 1], c0, c1, r1 - 1 < band, weighted, weight)
  }

  function Clamp(x: int, lo: int, hi: int): int
  {
    if x < lo then lo else if x > hi then hi else x
  }

  /** A row's value is its sum, plus the weight for each set pixel when the
      row is weighted. */
  lemma {:induction false} RowValueSplit(row: seq<int>, c0: int, c1: int, inBand: bool, weighted: bool, weight: real)
    requires 0 <= c0 <= c1 <= |row|
    ensures RowValue(row, c0, c1, inBand, weighted, weight) ==
      RowSum(row, c0, c1) as real + Bonus(weighted && inBand, weight, RowCount(row, c0, c1))
    decreases c1 - c0
  {
    if c0 < c1 {
      RowValueSplit(row, c0, c1 - 1, inBand, weighted, weight);
      var p, k := row[c1 - 1], RowCount(row, c0, c1 - 1);
      BonusAdd(weighted && inBand, weight, k, if p == 1 then 1 else 0);
      assert PixelWeight(p, inBand, weighted, weight) == Bonus(weighted && inBand, weight, if p == 1 then 1 else 0);
      assert RowSum(row, c0, c1) as real == RowSum(row, c0, c1 - 1) as real + p as real;
    }
  }

  /** What the weighting adds for `k` set pixels. */
  function Bonus(weighted: bool, weight: real, k: int): real
  {
    if weighted then weight * k as real else 0.0
  }

  lemma BonusAdd(weighted: bool, weight: real, a: int, b: int)
    ensures Bonus(weighted, weight, a + b) == Bonus(weighted, weight, a) + Bonus(weighted, weight, b)
  {
  }

  /** A box's value is its pixel sum plus `weight` times the number of its
      set pixels in the rows above `band`. */
  lemma {:induction false} BoxValueSplit(g: Grid, r0: int, r1: int, c0: int, c1: int, band: int, weighted: bool, weight: real)
    requires IsGrid(g) && InBox(g, r0, r1, c0, c1)
    ensures BoxValue(g, r0, r1, c0, c1, band, weighted, weight) ==
      BoxSum(g, r0, r1, c0, c1) as real + Bonus(weighted, weight, BoxCount(g, r0, Clamp(band, r0, r1), c0, c1))
    decreases r1 - r0
  {
    if r0 < r1 {
      BoxValueSplit(g, r0, r1 - 1, c0, c1, band, weighted, weight);
      RowValueSplit(g[r1 - 1], c0, c1, r1 - 1 < band, weighted, weight);
      var before, after := Clamp(band, r0, r1 - 1), Clamp(band, r0, r1);
      var k, c := BoxCount(g, r0, before, c0, c1), RowCount(g[r1 - 1], c0, c1);
      var s, t := BoxSum(g, r0, r1 - 1, c0, c1), RowSum(g[r1 - 1], c0, c1);
      assert BoxSum(g, r0, r1, c0, c1) as real == s as real + t as real;
      if r1 - 1 < band {
        assert before == r1 - 1 && after == r1;
        assert BoxCount(g, r0, after, c0, c1) == k + c;
        BonusAdd(weighted, weight, k, c);
        assert BoxValue(g, r0, r1, c0, c1, band, weighted, weight) ==
          (s as real + Bonus(weighted, weight, k)) + (t as real + Bonus(weighted, weight, c));
      } else {
        assert before == after;
        assert BoxValue(g, r0, r1, c0, c1, band, weighted, weight) ==
          (s as real + Bonus(weighted, weight, k)) + t as real;
      }
    }
  }

  /** The feature of cell `(i, j)`. */
  function ZoneValue(g: Grid, z: ZoneSize, i: int, j: int, weighted: bool, weight: real): real
    requires IsGrid(g) && 0 <= i < CellsAlong(|g|, z) && 0 <= j < CellsAlong(Width(g), z)
  {
    CellFits(|g|, z, i);
    CellFits(Width(g), z, j);
    BoxValue(g, i * z, (i + 1) * z, j * z, (j + 1) * z, TopBand(|g|, z), weighted, weight)
  }

  /** Without weighting, a feature is the pixel sum of its cell. */
  lemma UnweightedZoneValue(g: Grid, z: ZoneSize, i: int, j: int, weight: real)
    requires IsGrid(g) && 0 <= i < CellsAlong(|g|, z) && 0 <= j < CellsAlong(Width(g), z)
    ensures z > 0 && (i + 1) * z <= |g| && (j + 1) * z <= Width(g)
    ensures ZoneValue(g, z, i, j, false, weight) == BoxSum(g, i * z, (i + 1) * z, j * z, (j + 1) * z) as real
  {
    CellFits(|g|, z, i);
    CellFits(Width(g), z, j);
    BoxValueSplit(g, i * z, (i + 1) * z, j * z, (j + 1) * z, TopBand(|g|, z), false, weight);
  }

  /** With weighting, a feature is its cell's pixel sum plus `weight` times
      the number of the cell's set pixels in rows above the top band. */
  lemma WeightedZoneValue(g: Grid, z: ZoneSize, i: int, j: int, weight: real)
    requires IsGrid(g) && 0 <= i < CellsAlong(|g|, z) && 0 <= j < CellsAlong(Width(g), z)
    ensures z > 0 && (i + 1) * z <= |g| && (j + 1) * z <= Width(g)
    ensures ZoneValue(g, z, i, j, true, weight) ==
      BoxSum(g, i * z, (i + 1) * z, j * z, (j + 1) * z) as real +
      weight * BoxCount(g, i * z, Clamp(TopBand(|g|, z), i * z, (i + 1) * z), j * z, (j + 1) * z) as real
  {
    CellFits(|g|, z, i);
    CellFits(Width(g), z, j);
    BoxValueSplit(g, i * z, (i + 1) * z, j * z, (j + 1) * z, TopBand(|g|, z), true, weight);
  }

  /** A cell starting at or below the top band is not affected by the
      weighting. */
  lemma WeightSparesLowerCells(g: Grid, z: ZoneSize, i: int, j: int, weight: real)
    requires IsGrid(g) && 0 <= i < CellsAlong(|g|, z) && 0 <= j < CellsAlong(Width(g), z)
    requires z > 0 && i * z >= TopBand(|g|, z)
    ensures ZoneValue(g, z, i, j, true, weight) == ZoneValue(g, z, i, j, false, weight)
  {
    WeightedZoneValue(g, z, i, j, weight);
    UnweightedZoneValue(g, z, i, j, weight);
  }

  /** On a 0/1 grid an unweighted feature lies between 0 and the cell area. */
  lemma ZoneValueBinaryBounds(g: Grid, z: ZoneSize, i: int, j: int, weight: real)
    requires IsGrid(g) && IsBinary(g) && 0 <= i < CellsAlong(|g|, z) && 0 <= j < CellsAlong(Width(g), z)
    ensures 0.0 <= ZoneValue(g, z, i, j, false, weight) <= (z * z) as real
  {
    UnweightedZoneValue(g, z, i, j, weight);
    CellFits(|g|, z, i);
    CellFits(Width(g), z, j);
    var r0, r1, c0, c1 := i * z, (i + 1) * z, j * z, (j + 1) * z;
    assert r1 - r0 == z && c1 - c0 == z;
    BoxSumBinaryBounds(g, r0, r1, c0, c1);
  }

  /** The features of all cells, by cell coordinates. */
  function ZoneCells(g: Grid, z: ZoneSize, weighted: bool, weight: real): (int, int) -> real
    requires IsGrid(g)
  {
    (i, j) => if CellInGrid(g, z, i, j) then ZoneValue(g, z, i, j, weighted, weight) else 0.0
  }

  /** The feature vector of one grid: cell rows outer, cells inner. */
  function ZoneFeatures(g: Grid, z: ZoneSize, weighted: bool, weight: real): seq<real>
    requires IsGrid(g)
  {
    Table(ZoneCells(g, z, weighted, weight), CellsAlong(|g|, z), CellsAlong(Width(g), z))
  }

  /** The feature vector holds one value per whole cell, row-major: cell
      `(i, j)` is entry `i * m + j`, `m` being the number of cell columns. */
  lemma ZoneFeaturesAt(g: Grid, z: ZoneSize, weighted: bool, weight: real, i: int, j: int)
    requires IsGrid(g) && 0 <= i < CellsAlong(|g|, z) && 0 <= j < CellsAlong(Width(g), z)
    ensures |ZoneFeatures(g, z, weighted, weight)| == CellsAlong(|g|, z) * CellsAlong(Width(g), z)
    ensures var m := CellsAlong(Width(g), z);
      0 <= i * m + j < |ZoneFeatures(g, z, weighted, weight)| &&
      ZoneFeatures(g, z, weighted, weight)[i * m + j] == ZoneValue(g, z, i, j, weighted, weight)
  {
    TableAt(ZoneCells(g, z, weighted, weight), CellsAlong(|g|, z), CellsAlong(Width(g), z), i, j);
  }

  /** A grid smaller than one cell along either edge has no features. */
  lemma SmallGridHasNoZones(g: Grid, z: ZoneSize, weighted: bool, weight: real)
    requires IsGrid(g) && (|g| < z || Width(g) < z)
    ensures ZoneFeatures(g, z, weighted, weight) == []
  {
  }

  /** A 4 by 4 grid of ones in cells of 2 by 2 gives four features of 4,
      whatever the (unused) weight. */
  lemma FullGridZones(weight: real)
    ensures var g := [[1, 1, 1, 1], [1, 1, 1, 1], [1, 1, 1, 1], [1, 1, 1, 1]];
      IsGrid(g) && ZoneFeatures(g, 2, false, weight) == [4.0, 4.0, 4.0, 4.0]
  {
    var g := [[1, 1, 1, 1], [1, 1, 1, 1], [1, 1, 1, 1], [1, 1, 1, 1]];
    assert CellsAlong(0, 2) == 0 && CellsAlong(2, 2) == 1 && CellsAlong(4, 2) == 2;
    FullCell(g, weight, 0, 0);
    FullCell(g, weight, 0, 1);
    FullCell(g, weight, 1, 0);
    FullCell(g, weight, 1, 1);
    var f := ZoneFeatures(g, 2, false, weight);
    assert |f| == 4 && f[0] == 4.0 && f[1] == 4.0 && f[2] == 4.0 && f[3] == 4.0;
  }

  /** On a 4 by 4 grid of ones every 2 by 2 cell's feature is 4. */
  lemma FullCell(g: Grid, weight: real, i: int, j: int)
    requires IsGrid(g) && |g| == 4 && Width(g) == 4
    requires forall r, c | 0 <= r < 4 && 0 <= c < 4 :: g[r][c] == 1
    requires 0 <= i < 2 && 0 <= j < 2
    ensures |ZoneFeatures(g, 2, false, weight)| == 4
    ensures ZoneFeatures(g, 2, false, weight)[i * 2 + j] == 4.0
  {
    assert CellsAlong(0, 2) == 0 && CellsAlong(2, 2) == 1 && CellsAlong(4, 2) == 2;
    ZoneFeaturesAt(g, 2, false, weight, i, j);
    UnweightedZoneValue(g, 2, i, j, weight);
    OnesBlock(g, i * 2, j * 2);
  }

  /** A 2 by 2 block of ones sums to 4. */
  lemma OnesBlock(g: Grid, r: int, c: int)
    requires IsGrid(g) && 0 <= r <= |g| - 2 && 0 <= c <= Width(g) - 2
    requires g[r][c] == 1 && g[r][c + 1] == 1 && g[r + 1][c] == 1 && g[r + 1][c + 1] == 1
    ensures BoxSum(g, r, r + 2, c, c + 2) == 4
  {
    OnesPair(g[r], c);
    OnesPair(g[r + 1], c);
    assert BoxSum(g, r, r + 1, c, c + 2) == 2;
  }

  lemma OnesPair(row: seq<int>, c: int)
    requires 0 <= c <= |row| - 2 && row[c] == 1 && row[c + 1] == 1
    ensures RowSum(row, c, c + 2) == 2
  {
    assert RowSum(row, c, c + 1) == 1;
  }

  class ZonesExtractor {
    const zones: ZoneSize
    const isWeighted: bool
    const weight: real

    constructor(zones: ZoneSize, isWeighted: bool := false, weight: real := 1.25)
      ensures this.zones == zones && this.isWeighted == isWeighted && this.weight == weight
    {
      this.zones := zones;
      this.isWeighted := isWeighted;
      this.weight := weight;
    }

    /** The pixel density loop of cell `(i, j)`. */
    method CellPixels(image: Grid, i: int, j: int) returns (pixels: real)
      requires IsGrid(image) && 0 <= i < CellsAlong(|image|, zones) && 0 <= j < CellsAlong(Width(image), zones)
      ensures pixels == ZoneValue(image, zones, i, j, isWeighted, weight)
    {
      CellFits(|image|, zones, i);
      CellFits(Width(image), zones, j);
      var height := |image|;
      var band := TopBand(height, zones);
      pixels := 0.0;
      for xi := i * zones to (i + 1) * zones
        invariant pixels == BoxValue(image, i * zones, xi, j * zones, (j + 1) * zones, band, isWeighted, weight)
      {
        ghost var above := pixels;
        for yj := j * zones to (j + 1) * zones
          invariant pixels == above + RowValue(image[xi], j * zones, yj, xi < band, isWeighted, weight)
        {
          pixels := pixels + image[xi][yj] as real;
          if isWeighted {
            if xi < height / zones / 4 {
              if image[xi][yj] == 1 {
                pixels := pixels + weight;
              }
            }
          }
        }
      }
    }

    /** The features of cell row `i`: one pass of the loop over cells. */
    method RowFeatures(image: Grid, i: int) returns (row: seq<real>)
      requires IsGrid(image) && 0 <= i < CellsAlong(|image|, zones)
      ensures row == Row(RowOf(ZoneCells(image, zones, isWeighted, weight), i), CellsAlong(Width(image), zones))
    {
      ghost var cells := RowOf(ZoneCells(image, zones, isWeighted, weight), i);
      var width := Width(image);
      row := [];
      var j := 0;
      while j < CellsAlong(width, zones)
        invariant 0 <= j <= CellsAlong(width, zones)
        invariant row == Row(cells, j)
      {
        var pixels := CellPixels(image, i, j);
        assert cells(j) == pixels;
        row := row + [pixels];
        j := j + 1;
      }
    }

    /** The features of one grid, cell row after cell row. */
    method ImageFeatures(image: Grid) returns (imgFeatures: seq<real>)
      requires IsGrid(image)
      ensures imgFeatures == ZoneFeatures(image, zones, isWeighted, weight)
    {
      ghost var cells := ZoneCells(image, zones, isWeighted, weight);
      var height := |image|;
      imgFeatures := [];
      var i := 0;
      while i < CellsAlong(height, zones)
        invariant 0 <= i <= CellsAlong(height, zones)
        invariant imgFeatures == Table(cells, i, CellsAlong(Width(image), zones))
      {
        var row := RowFeatures(image, i);
        assert Table(cells, i + 1, CellsAlong(Width(image), zones)) == imgFeatures + row;
        imgFeatures := imgFeatures + row;
        i := i + 1;
      }
    }

    /** One feature vector per grid, in input order. */
    method Transform(x: seq<Grid>) returns (xTransformed: seq<seq<real>>)
      requires forall k | 0 <= k < |x| :: IsGrid(x[k])
      ensures |xTransformed| == |x|
      ensures forall k | 0 <= k < |x| :: xTransformed[k] == ZoneFeatures(x[k], zones, isWeighted, weight)
    {
      xTransformed := [];
      for k := 0 to |x|
        invariant |xTransformed| == k
        invariant forall t | 0 <= t < k :: xTransformed[t] == ZoneFeatures(x[t], zones, isWeighted, weight)
      {
        var imgFeatures := ImageFeatures(x[k]);
        xTransformed := xTransformed + [imgFeatures];
      }
    }
  }

  // ---------------------------------------------------------------------
  // Adaptive zones

  /** The range `[from, to)` of one candidate window along one axis: cell
      `k`'s range shifted by `offset`, or unshifted when the shifted range
      would start before 0 or end past `n - 1`. It always spans `z` and,
      when the cell lies inside `[0, n)`, so does the window. */
  function AxisWindow(k: int, z: int, offset: int, n: int): (w: (int, int))
    ensures w.1 - w.0 == z
    ensures 0 <= k * z && (k + 1) * z <= n ==> 0 <= w.0 && w.1 <= n
  {
    assert (k + 1) * z == k * z + z;
    var from, to := k * z + offset, (k + 1) * z + offset;
    if from < 0 || to > n - 1 then (from - offset, to - offset) else (from, to)
  }

  /** A non-zero shift is kept exactly when the shifted range starts at 0 or
      later and ends at `n - 1` or earlier; otherwise the cell's own range is
      used. */
  lemma AxisShiftRule(k: int, z: int, offset: int, n: int)
    ensures var w := AxisWindow(k, z, offset, n);
      (offset != 0 ==> (w.0 == k * z + offset <==> 0 <= k * z + offset && (k + 1) * z + offset <= n - 1)) &&
      (w.0 == k * z || w.0 == k * z + offset)
  {
    assert (k + 1) * z == k * z + z;
  }

  /** Number of offsets per axis: `range(-R, R + 1)`. */
  function Span(R: int): nat
  {
    if R >= 0 then 2 * R + 1 else 0
  }

  /** The pixel sum of the window for cell `(i, j)` and offsets `(xo, yo)`. */
  function CandidateSum(g: Grid, z: ZoneSize, i: int, j: int, xo: int, yo: int): int
    requires CellInGrid(g, z, i, j)
  {
    CellFits(|g|, z, i);
    CellFits(Width(g), z, j);
    var rows, cols := AxisWindow(i, z, xo, |g|), AxisWindow(j, z, yo, Width(g));
    BoxSum(g, rows.0, rows.1, cols.0, cols.1)
  }

  /** On a 0/1 grid every window sum lies between 0 and the cell area. */
  lemma CandidateSumBinaryBounds(g: Grid, z: ZoneSize, i: int, j: int, xo: int, yo: int)
    requires CellInGrid(g, z, i, j) && IsBinary(g)
    ensures 0 <= CandidateSum(g, z, i, j, xo, yo) <= z * z
  {
    CellFits(|g|, z, i);
    CellFits(Width(g), z, j);
    var rows, cols := AxisWindow(i, z, xo, |g|), AxisWindow(j, z, yo, Width(g));
    BoxSumBinaryBounds(g, rows.0, rows.1, cols.0, cols.1);
  }

  /** The cell itself, offset `(0, 0)`, is one of the windows. */
  lemma CandidateSumUnshifted(g: Grid, z: ZoneSize, i: int, j: int)
    requires CellInGrid(g, z, i, j)
    ensures z > 0 && (i + 1) * z <= |g| && (j + 1) * z <= Width(g)
    ensures CandidateSum(g, z, i, j, 0, 0) == BoxSum(g, i * z, (i + 1) * z, j * z, (j + 1) * z)
  {
    CellFits(|g|, z, i);
    CellFits(Width(g), z, j);
  }

  /** The window sums of cell `(i, j)` by offset index: `(a, b)` stands for
      the offsets `(a - R, b - R)`. */
  function Windows(g: Grid, z: ZoneSize, R: int, i: int, j: int): (int, int) -> int
    requires CellInGrid(g, z, i, j)
  {
    (a, b) => CandidateSum(g, z, i, j, a - R, b - R)
  }

  /** The candidate list of cell `(i, j)`: row offset outer, column offset
      inner, each running over `[-R, R]`; duplicates are kept. */
  function Candidates(g: Grid, z: ZoneSize, R: int, i: int, j: int): seq<int>
    requires CellInGrid(g, z, i, j)
  {
    Table(Windows(g, z, R, i, j), Span(R), Span(R))
  }

  /** There are `(2R + 1)^2` candidates, none when `R` is negative, and the
      window for offsets `(xo, yo)` is entry `(xo + R) * (2R + 1) + yo + R`. */
  lemma CandidatesLayout(g: Grid, z: ZoneSize, R: int, i: int, j: int, xo: int, yo: int)
    requires CellInGrid(g, z, i, j) && -R <= xo <= R && -R <= yo <= R
    ensures |Candidates(g, z, R, i, j)| == (2 * R + 1) * (2 * R + 1)
    ensures 0 <= (xo + R) * (2 * R + 1) + yo + R < |Candidates(g, z, R, i, j)|
    ensures Candidates(g, z, R, i, j)[(xo + R) * (2 * R + 1) + yo + R] == CandidateSum(g, z, i, j, xo, yo)
  {
    TableAt(Windows(g, z, R, i, j), Span(R), Span(R), xo + R, yo + R);
  }

  lemma CandidatesEmpty(g: Grid, z: ZoneSize, R: int, i: int, j: int)
    requires CellInGrid(g, z, i, j)
    ensures |Candidates(g, z, R, i, j)| == 0 <==> R < 0
  {
    if R >= 0 {
      MulMonotone(Span(R), 1, Span(R));
    }
  }

  /** The adaptive feature of cell `(i, j)`: its largest window sum. */
  function AdaptiveValue(g: Grid, z: ZoneSize, R: int, i: int, j: int): int
    requires CellInGrid(g, z, i, j) && R >= 0
  {
    TableMax(Windows(g, z, R, i, j), Span(R), Span(R))
  }

  /** The adaptive feature is one of the window sums of its cell, and no
      window sum is larger: the maximum over every shift in `[-R, R]` on
      both axes. */
  lemma AdaptiveValueIsMaximum(g: Grid, z: ZoneSize, R: int, i: int, j: int)
    requires CellInGrid(g, z, i, j) && R >= 0
    ensures exists xo, yo | -R <= xo <= R && -R <= yo <= R :: CandidateSum(g, z, i, j, xo, yo) == AdaptiveValue(g, z, R, i, j)
    ensures forall xo, yo | -R <= xo <= R && -R <= yo <= R :: CandidateSum(g, z, i, j, xo, yo) <= AdaptiveValue(g, z, R, i, j)
  {
    var f := Windows(g, z, R, i, j);
    TableMaxIsMaximum(f, Span(R), Span(R));
    var a, b :| 0 <= a < Span(R) && 0 <= b < Span(R) && f(a, b) == TableMax(f, Span(R), Span(R));
    assert CandidateSum(g, z, i, j, a - R, b - R) == AdaptiveValue(g, z, R, i, j);
    forall xo, yo | -R <= xo <= R && -R <= yo <= R
      ensures CandidateSum(g, z, i, j, xo, yo) <= AdaptiveValue(g, z, R, i, j)
    {
      assert f(xo + R, yo + R) == CandidateSum(g, z, i, j, xo, yo);
    }
  }

  /** Taking `max` of the candidate list yields the adaptive feature. */
  lemma MaxOfCandidates(g: Grid, z: ZoneSize, R: int, i: int, j: int)
    requires CellInGrid(g, z, i, j) && R >= 0
    ensures |Candidates(g, z, R, i, j)| > 0
    ensures MaxOf(Candidates(g, z, R, i, j)) == AdaptiveValue(g, z, R, i, j)
  {
    MaxOfTable(Windows(g, z, R, i, j), Span(R), Span(R));
  }

  /** Each adaptive feature is at least the unshifted cell sum. */
  lemma AdaptiveAtLeastCell(g: Grid, z: ZoneSize, R: int, i: int, j: int)
    requires CellInGrid(g, z, i, j) && R >= 0
    ensures z > 0 && (i + 1) * z <= |g| && (j + 1) * z <= Width(g)
    ensures AdaptiveValue(g, z, R, i, j) >= BoxSum(g, i * z, (i + 1) * z, j * z, (j + 1) * z)
  {
    AdaptiveValueIsMaximum(g, z, R, i, j);
    CandidateSumUnshifted(g, z, i, j);
  }

  /** On a 0/1 grid each adaptive feature lies between 0 and the cell area. */
  lemma AdaptiveBinaryBounds(g: Grid, z: ZoneSize, R: int, i: int, j: int)
    requires CellInGrid(g, z, i, j) && R >= 0 && IsBinary(g)
    ensures 0 <= AdaptiveValue(g, z, R, i, j) <= z * z
  {
    AdaptiveValueIsMaximum(g, z, R, i, j);
    var xo, yo :| -R <= xo <= R && -R <= yo <= R && CandidateSum(g, z, i, j, xo, yo) == AdaptiveValue(g, z, R, i, j);
    CandidateSumBinaryBounds(g, z, i, j, xo, yo);
  }

  /** With no adjustment range, the adaptive feature is the plain cell sum. */
  lemma AdaptiveWithoutRange(g: Grid, z: ZoneSize, i: int, j: int)
    requires CellInGrid(g, z, i, j)
    ensures z > 0 && (i + 1) * z <= |g| && (j + 1) * z <= Width(g)
    ensures AdaptiveValue(g, z, 0, i, j) == BoxSum(g, i * z, (i + 1) * z, j * z, (j + 1) * z)
  {
    CandidateSumUnshifted(g, z, i, j);
  }

  /** The adaptive features of all cells, by cell coordinates. */
  function AdaptiveCells(g: Grid, z: ZoneSize, R: int): (int, int) -> int
    requires IsGrid(g) && R >= 0
  {
    (i, j) => if CellInGrid(g, z, i, j) then AdaptiveValue(g, z, R, i, j) else 0
  }

  /** The adaptive feature vector of one grid; `None` when the adjustment
      range is negative and there is a cell, since the maximum of no
      candidates is an error. */
  function AdaptiveFeatures(g: Grid, z: ZoneSize, R: int): Option<seq<int>>
    requires IsGrid(g)
  {
    if R < 0 then
      if CellsAlong(|g|, z) * CellsAlong(Width(g), z) == 0 then Some([]) else None
    else Some(Table(AdaptiveCells(g, z, R), CellsAlong(|g|, z), CellsAlong(Width(g), z)))
  }

  /** A negative adjustment range is rejected exactly when the grid has a
      cell. */
  lemma AdaptiveFeaturesRejects(g: Grid, z: ZoneSize, R: int)
    requires IsGrid(g)
    ensures AdaptiveFeatures(g, z, R).None? <==> R < 0 && CellsAlong(|g|, z) > 0 && CellsAlong(Width(g), z) > 0
  {
    var n, m := CellsAlong(|g|, z), CellsAlong(Width(g), z);
    if R < 0 && n > 0 && m > 0 {
      MulMonotone(n, 1, m);
    }
  }

  /** With `R >= 0` there is one feature per whole cell, row-major. */
  lemma AdaptiveFeaturesAt(g: Grid, z: ZoneSize, R: int, i: int, j: int)
    requires IsGrid(g) && R >= 0 && 0 <= i < CellsAlong(|g|, z) && 0 <= j < CellsAlong(Width(g), z)
    ensures AdaptiveFeatures(g, z, R).Some?
    ensures var f, m := AdaptiveFeatures(g, z, R).value, CellsAlong(Width(g), z);
      |f| == CellsAlong(|g|, z) * m && 0 <= i * m + j < |f| && f[i * m + j] == AdaptiveValue(g, z, R, i, j)
  {
    TableAt(AdaptiveCells(g, z, R), CellsAlong(|g|, z), CellsAlong(Width(g), z), i, j);
  }

  /** With no adjustment range, the adaptive extractor gives the plain
      extractor's unweighted feature of every cell. */
  lemma AdaptiveCellsWithoutRange(g: Grid, z: ZoneSize, weight: real)
    requires IsGrid(g)
    ensures forall a, b | 0 <= a < CellsAlong(|g|, z) && 0 <= b < CellsAlong(Width(g), z) ::
      AdaptiveCells(g, z, 0)(a, b) as real == ZoneCells(g, z, false, weight)(a, b)
  {
    forall a, b | 0 <= a < CellsAlong(|g|, z) && 0 <= b < CellsAlong(Width(g), z)
      ensures AdaptiveCells(g, z, 0)(a, b) as real == ZoneCells(g, z, false, weight)(a, b)
    {
      AdaptiveWithoutRange(g, z, a, b);
      UnweightedZoneValue(g, z, a, b, weight);
    }
  }

  /** With no adjustment range, the adaptive extractor gives the plain
      extractor's unweighted features. */
  lemma AdaptiveFeaturesWithoutRange(g: Grid, z: ZoneSize, weight: real)
    requires IsGrid(g)
    ensures AdaptiveFeatures(g, z, 0).Some?
    ensures SameValues(AdaptiveFeatures(g, z, 0).value, ZoneFeatures(g, z, false, weight))
  {
    AdaptiveCellsWithoutRange(g, z, weight);
    TableAsReals(AdaptiveCells(g, z, 0), ZoneCells(g, z, false, weight), CellsAlong(|g|, z), CellsAlong(Width(g), z));
  }

  class AdaptiveZonesExtractor {
    const zones: ZoneSize
    const adjRange: int

    constructor(zones: ZoneSize, adjRange: int := 2)
      ensures this.zones == zones && this.adjRange == adjRange
    {
      this.zones := zones;
      this.adjRange := adjRange;
    }

    /** The pixel sum of rows `[fromXi, toXi)` and columns `[fromYi, toYi)`. */
    static method WindowPixels(image: Grid, fromXi: int, toXi: int, fromYi: int, toYi: int) returns (pixels: int)
      requires IsGrid(image) && InBox(image, fromXi, toXi, fromYi, toYi)
      ensures pixels == BoxSum(image, fromXi, toXi, fromYi, toYi)
    {
      pixels := 0;
      for xi := fromXi to toXi
        invariant pixels == BoxSum(image, fromXi, xi, fromYi, toYi)
      {
        ghost var above := pixels;
        for yi := fromYi to toYi
          invariant pixels == above + RowSum(image[xi], fromYi, yi)
        {
          pixels := pixels + image[xi][yi];
        }
      }
    }

    /** The window sum of cell `(i, y)` shifted by `(xo, yo)`, the shift
        undone on an axis where the shifted range would have `from < 0` or
        `to > n - 1`. */
    method CandidatePixels(image: Grid, i: int, y: int, xo: int, yo: int) returns (pixels: int)
      requires CellInGrid(image, zones, i, y)
      ensures pixels == CandidateSum(image, zones, i, y, xo, yo)
    {
      CellFits(|image|, zones, i);
      CellFits(Width(image), zones, y);
      var height, width := |image|, Width(image);
      var fromXi := (i * zones) + xo;
      var toXi := ((i + 1) * zones) + xo;
      var fromYi := (y * zones) + yo;
      var toYi := ((y + 1) * zones) + yo;
      if fromXi < 0 || toXi > height - 1 {
        fromXi := fromXi - xo;
        toXi := toXi - xo;
      }
      if fromYi < 0 || toYi > width - 1 {
        fromYi := fromYi - yo;
        toYi := toYi - yo;
      }
      assert (fromXi, toXi) == AxisWindow(i, zones, xo, height);
      assert (fromYi, toYi) == AxisWindow(y, zones, yo, width);
      pixels := WindowPixels(image, fromXi, toXi, fromYi, toYi);
    }

    /** The candidate sums of cell `(i, y)` for row offset `xo`, column
        offsets in `[-R, R]`: one pass of the inner offset loop. */
    method OffsetRow(image: Grid, i: int, y: int, xo: int) returns (row: seq<int>)
      requires CellInGrid(image, zones, i, y) && adjRange >= 0
      ensures row == Row(RowOf(Windows(image, zones, adjRange, i, y), xo + adjRange), Span(adjRange))
    {
      ghost var w := RowOf(Windows(image, zones, adjRange, i, y), xo + adjRange);
      row := [];
      var yo := -adjRange;
      while yo < adjRange + 1
        invariant -adjRange <= yo <= adjRange + 1
        invariant row == Row(w, yo + adjRange)
      {
        var pixels := CandidatePixels(image, i, y, xo, yo);
        assert w(yo + adjRange) == pixels;
        row := row + [pixels];
        yo := yo + 1;
      }
    }

    /** The candidate sums of cell `(i, y)`, offsets `xo` outer, `yo` inner. */
    method CellCandidates(image: Grid, i: int, y: int) returns (zonesPixels: seq<int>)
      requires CellInGrid(image, zones, i, y)
      ensures zonesPixels == Candidates(image, zones, adjRange, i, y)
    {
      ghost var w, span := Windows(image, zones, adjRange, i, y), Span(adjRange);
      zonesPixels := [];
      var xo := -adjRange;
      while xo < adjRange + 1
        invariant adjRange >= 0 ==> -adjRange <= xo <= adjRange + 1
        invariant adjRange < 0 ==> xo == -adjRange
        invariant zonesPixels == Table(w, if adjRange >= 0 then xo + adjRange else 0, span)
      {
        var row := OffsetRow(image, i, y, xo);
        assert Table(w, xo + adjRange + 1, span) == zonesPixels + row;
        zonesPixels := zonesPixels + row;
        xo := xo + 1;
      }
    }

    /** The features of cell row `i`, one pass of the loop over `y`, or
        `None` where taking the maximum of no candidates fails. */
    method RowFeatures(image: Grid, i: int) returns (row: Option<seq<int>>)
      requires IsGrid(image) && 0 <= i < CellsAlong(|image|, zones)
      ensures adjRange >= 0 ==> row == Some(Row(RowOf(AdaptiveCells(image, zones, adjRange), i), CellsAlong(Width(image), zones)))
      ensures adjRange < 0 ==> (row.None? <==> CellsAlong(Width(image), zones) > 0) && (row.Some? ==> row.value == [])
    {
      var width := Width(image);
      var features := [];
      var y := 0;
      while y < CellsAlong(width, zones)
        invariant 0 <= y <= CellsAlong(width, zones)
        invariant adjRange >= 0 ==> features == Row(RowOf(AdaptiveCells(image, zones, adjRange), i), y)
        invariant adjRange < 0 ==> features == [] && y == 0
      {
        var zonesPixels := CellCandidates(image, i, y);
        CandidatesEmpty(image, zones, adjRange, i, y);
        if |zonesPixels| == 0 {
          return None;
        }
        MaxOfCandidates(image, zones, adjRange, i, y);
        assert RowOf(AdaptiveCells(image, zones, adjRange), i)(y) == MaxOf(zonesPixels);
        features := features + [MaxOf(zonesPixels)];
        y := y + 1;
      }
      row := Some(features);
    }

    /** The features of one grid, or `None` where taking the maximum of no
        candidates fails. */
    method ImageFeatures(image: Grid) returns (result: Option<seq<int>>)
      requires IsGrid(image)
      ensures result == AdaptiveFeatures(image, zones, adjRange)
    {
      var height := |image|;
      var imgFeatures := [];
      var i := 0;
      while i < CellsAlong(height, zones)
        invariant 0 <= i <= CellsAlong(height, zones)
        invariant adjRange >= 0 ==> imgFeatures == Table(AdaptiveCells(image, zones, adjRange), i, CellsAlong(Width(image), zones))
        invariant adjRange < 0 ==> imgFeatures == [] && (i > 0 ==> CellsAlong(Width(image), zones) == 0)
      {
        var row := RowFeatures(image, i);
        if row.None? {
          MulMonotone(CellsAlong(height, zones), 1, CellsAlong(Width(image), zones));
          return None;
        }
        imgFeatures := imgFeatures + row.value;
        i := i + 1;
      }
      result := Some(imgFeatures);
    }

    /** One feature vector per grid, in input order; `None` as soon as one
        grid is rejected. */
    method Transform(x: seq<Grid>) returns (result: Option<seq<seq<int>>>)
      requires forall k | 0 <= k < |x| :: IsGrid(x[k])
      ensures result.None? <==> exists k | 0 <= k < |x| :: AdaptiveFeatures(x[k], zones, adjRange).None?
      ensures result.Some? ==> |result.value| == |x|
      ensures result.Some? ==> forall k | 0 <= k < |x| :: Some(result.value[k]) == AdaptiveFeatures(x[k], zones, adjRange)
    {
      var xTransformed := [];
      for k := 0 to |x|
        invariant |xTransformed| == k
        invariant forall t | 0 <= t < k :: Some(xTransformed[t]) == AdaptiveFeatures(x[t], zones, adjRange)
      {
        var imgFeatures := ImageFeatures(x[k]);
        if imgFeatures.None? {
          return None;
        }
        xTransformed := xTransformed + [imgFeatures.value];
      }
      result := Some(xTransformed);
    }
  }
}
