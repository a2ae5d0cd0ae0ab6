# mlchr feature extractors in Dafny

This project models the three hand-written feature extractors of mlchr, a
handwritten-character recognition toolkit. Each extractor turns a binary
image (a rectangular grid of 0/1 pixels) into a feature vector:

- **Subdivisions** (`mlchr/feature_extraction/subdivisions.py`) splits the
  image recursively into four quadrants. The split is at the point that
  balances the pixel mass column-wise and row-wise, found at doubled
  resolution. It records each leaf's split coordinates. A subtree whose
  image is too small to split records one `(0, 0)` pair for each of its
  `4^g` leaves, `g` being the granularity left at that subtree.
- **Zones** (`mlchr/feature_extraction/zones.py`, `ZonesExtractor`) cuts the
  image into whole `z` by `z` cells, row-major, and records each cell's
  pixel sum. Optionally it adds a weight for every set pixel in a band of
  top rows.
- **Adaptive zones** (same file, `AdaptiveZonesExtractor`) tries every
  shift of each cell in `[-R, R]` on both axes. On an axis where the shifted
  range `[from, to)` would start before 0 or have `to > n - 1`, it undoes
  the shift, so a shifted window never reaches the last row or column. It
  records the largest window sum.
- **Projections** (`mlchr/feature_extraction/projections.py`) records, for
  `k = 1, ..., P`, the pixel sum of the first `floor(k * height / P)` rows
  and of as many columns.

## Layout

- `grids.dfy`, module `Grids`: the grid type and the row, column and box
  sums and counts that the loops accumulate. It also holds the contiguous
  sub-grid copy that the `np.ix_` slicing amounts to, and the arithmetic
  facts the proofs share.
- `tables.dfy`, module `Tables`: lists built by one or two nested loops that
  append one value per index (`Row`, `Table`), with their row-major layout.
  It also defines Python's `max` over such a list as its left-to-right scan
  (`MaxOf`), and a row-by-row reference maximum (`TableMax`) that `MaxOf`
  is proved equal to (`MaxOfTable`).
- `subdivisions.dfy`, `zones.dfy` and `projections.dfy`: one module per
  extractor.

Every extractor is written twice in its module:

- as pure functions that say what the extractor computes, with lemmas for
  the properties it promises;
- as a class holding the extractor's configuration, whose methods keep the
  original loops and in-place appends.

Each method is proved to return exactly what the functions describe.

Pixel values are unbounded integers and zone features are exact reals. The
extractors' `transform` methods take a sequence of grids and return one
feature vector per grid, in input order.

## Model

| member | source | states |
|---|---|---|
| `Subdivisions.BalanceIndex` | mlchr/feature_extraction/subdivisions.py:42-51 | defined on a non-empty vector, as the search reads `v[0]`; -1 exactly when the vector has 1 or 2 entries, otherwise an interior index in `[1, n - 2]` |
| `Subdivisions.ScanMinIsEarliestMinimum` | mlchr/feature_extraction/subdivisions.py:45-49 | the left-to-right scan with a strict `<` keeps an index of least gap, and no earlier index has a gap that small |
| `Subdivisions.BalanceIndexIsBalancePoint` | mlchr/feature_extraction/subdivisions.py:42-51 | for `n >= 3` the search returns the earliest interior index minimising the difference between prefix and suffix sum |
| `Subdivisions.BalancePointUnique` | mlchr/feature_extraction/subdivisions.py:45-49 | the balance point is unique, so the search result is determined by its defining property |
| `Subdivisions.BalanceOfFlatVector` | mlchr/feature_extraction/subdivisions.py:22-51 | the search on `[1, 1, 1, 1, 1]` returns 2 |
| `Subdivisions.BalanceOfHeavyHead` | mlchr/feature_extraction/subdivisions.py:22-51 | the search on `[5, 1, 1, 1, 1]` returns 1 |
| `Subdivisions.ColumnCounts` | mlchr/feature_extraction/subdivisions.py:61-65 | one entry per column, each the number of pixels equal to 1 in that column |
| `Subdivisions.RowCounts` | mlchr/feature_extraction/subdivisions.py:84-88 | one entry per row, each the number of pixels equal to 1 in that row |
| `Subdivisions.Upsample` | mlchr/feature_extraction/subdivisions.py:67-69 | twice the length, 0 at every even index `2k` and the count `v0[k]` at odd index `2k + 1` |
| `Subdivisions.UpsampleIsInterleaving` | mlchr/feature_extraction/subdivisions.py:67-69 | the comprehension `0 if x % 2 == 0 else v0[x / 2]` over `[0, 2n)` yields the upsampled vector |
| `Subdivisions.UpsampleRoundTrip` | mlchr/feature_extraction/subdivisions.py:67-69 | taking the odd entries of the upsampled vector gives the counts back |
| `Subdivisions.UpsampleMass` | mlchr/feature_extraction/subdivisions.py:67-72 | upsampling preserves the mass of every prefix of whole pixels |
| `Subdivisions.VerticalPoint` | mlchr/feature_extraction/subdivisions.py:53-73 | defined on a grid with at least one column; with at least 2 columns, `xq` lies in `[2, 2 * width - 1]` and `xq / 2` in `[1, width - 1]`; with one column it is 0 |
| `Subdivisions.HorizontalPoint` | mlchr/feature_extraction/subdivisions.py:75-97 | defined on a grid with at least one row; with at least 2 rows, `yq` lies in `[2, 2 * height - 1]` and `yq / 2` in `[1, height - 1]`; with one row it is 0 |
| `Subdivisions.VerticalPointIsBalancePoint` | mlchr/feature_extraction/subdivisions.py:53-73 | with at least 2 columns, `xq - 1` is the balance point of the upsampled column counts |
| `Subdivisions.HorizontalPointIsBalancePoint` | mlchr/feature_extraction/subdivisions.py:75-97 | with at least 2 rows, `yq - 1` is the balance point of the upsampled row counts |
| `Subdivisions.FarStart` | mlchr/feature_extraction/subdivisions.py:130-153 | the far quadrants start at `x0 - 1` for an even split point and at `x0` for an odd one, which is `(q - 1) / 2` in both cases: the pixel holding position `q - 1` at double resolution |
| `Grids.SubGrid` | mlchr/feature_extraction/subdivisions.py:125-153 | the `np.ix_` copy of rows `[r0, r1)` and columns `[c0, c1)` is a rectangular grid of `r1 - r0` rows, each `c1 - c0` wide |
| `Subdivisions.SplitAt` | mlchr/feature_extraction/subdivisions.py:123-153 | all four quadrants are non-empty sub-grids whose row and column ranges lie inside the image |
| `Subdivisions.Split` | mlchr/feature_extraction/subdivisions.py:117-153 | the quadrants at the image's own split points lie inside the image |
| `Subdivisions.QuadrantSizes` | mlchr/feature_extraction/subdivisions.py:124-153 | the near and far quadrants' rows add up to the height, plus 1 when `yq` is even; their columns add up to the width, plus 1 when `xq` is even |
| `Subdivisions.SubDiv` | mlchr/feature_extraction/subdivisions.py:99-162 | the features of a grid (zeros below size 3, the quadrants' features above the last level, the split point at it) have length `2 * 4^granularity` |
| `Subdivisions.SubDivQuadrants` | mlchr/feature_extraction/subdivisions.py:155-159 | the four quadrants' features together have length `8 * 4^granularity` |
| `Subdivisions.SubDivOfLeaf` | mlchr/feature_extraction/subdivisions.py:117-162 | at the last level a splittable grid's features are one pair with `x0` in `[1, width - 1]` and `y0` in `[1, height - 1]`, where `x0 = (k + 1) / 2` for the balance point `k` of the upsampled column counts and `y0` likewise for the rows |
| `Subdivisions.SubDivPairsOk` | mlchr/feature_extraction/subdivisions.py:106-162 | every feature pair is `(0, 0)` or has `x0` in `[1, width - 1]` and `y0` in `[1, height - 1]` |
| `Subdivisions.SmallGridGivesZeros` | mlchr/feature_extraction/subdivisions.py:111-115 | a grid with fewer than 3 rows or columns contributes only zeros |
| `Subdivisions.QuadrantOrder` | mlchr/feature_extraction/subdivisions.py:155-159 | the subtrees' blocks follow in the order left-up, right-up, left-down, right-down, each `2 * 4^(granularity - 1)` long |
| `Subdivisions.FeatureList.Append` | mlchr/feature_extraction/subdivisions.py:113-114 | appending one value leaves the earlier entries unchanged |
| `Subdivisions.SubdivisionsExtractor.constructor` | mlchr/feature_extraction/subdivisions.py:14-19 | stores the granularity, which has no default in the source |
| `Subdivisions.SubdivisionsExtractor.PrefixSums` | mlchr/feature_extraction/subdivisions.py:30-34 | the prefix-sum loop gives `v[0] + ... + v[i]` at every `i` |
| `Subdivisions.SubdivisionsExtractor.SuffixSums` | mlchr/feature_extraction/subdivisions.py:36-40 | the backward loop gives `v[i] + ... + v[n - 1]` at every `i` |
| `Subdivisions.SubdivisionsExtractor.FindIndex` | mlchr/feature_extraction/subdivisions.py:22-51 | returns -1 for fewer than 3 entries and otherwise the balance point |
| `Subdivisions.SubdivisionsExtractor.FindVerticalPoint` | mlchr/feature_extraction/subdivisions.py:53-73 | the counting loops, the upsampling and the search give the vertical split point |
| `Subdivisions.SubdivisionsExtractor.FindHorizontalPoint` | mlchr/feature_extraction/subdivisions.py:75-97 | the counting loops, the upsampling and the search give the horizontal split point |
| `Subdivisions.SubdivisionsExtractor.AppendZeroPairs` | mlchr/feature_extraction/subdivisions.py:111-115 | appends exactly `4^granularity` pairs `(0, 0)` after the existing entries |
| `Subdivisions.SubdivisionsExtractor.RecSubDiv` | mlchr/feature_extraction/subdivisions.py:99-162 | only appends, and what it appends is the grid's features |
| `Subdivisions.SubdivisionsExtractor.SplitImage` | mlchr/feature_extraction/subdivisions.py:117-153 | computes `x0 = xq / 2`, `y0 = yq / 2` and the four quadrants |
| `Subdivisions.SubdivisionsExtractor.RecSplit` | mlchr/feature_extraction/subdivisions.py:155-159 | above the last level, appends the features of the four quadrants |
| `Subdivisions.SubdivisionsExtractor.AppendSplitPoint` | mlchr/feature_extraction/subdivisions.py:160-162 | at the last level, appends `x0` then `y0` |
| `Subdivisions.SubdivisionsExtractor.RecQuadrants` | mlchr/feature_extraction/subdivisions.py:155-159 | the four recursive calls append the quadrants' features in order |
| `Subdivisions.SubdivisionsExtractor.Transform` | mlchr/feature_extraction/subdivisions.py:164-178 | one vector per image, in input order, each the image's features, each of length `2 * 4^granularity` |
| `Zones.CellsAlong` | mlchr/feature_extraction/zones.py:34-35 | no cells for a negative zone size or an edge shorter than one cell |
| `Zones.CellsCoverEdge` | mlchr/feature_extraction/zones.py:34-35 | for a positive zone size the cell count is `floor(n / z)`: the cells cover the edge up to less than one cell |
| `Zones.CellFits` | mlchr/feature_extraction/zones.py:34-39 | every cell's pixel range lies inside the edge |
| `Zones.RowValueSplit` | mlchr/feature_extraction/zones.py:39-44 | the inner loop's value over a row range is its pixel sum plus the weight for each set pixel when the row is weighted |
| `Zones.BoxValueSplit` | mlchr/feature_extraction/zones.py:38-44 | the two inner loops' value over a box is its pixel sum plus `weight` times its set pixels in rows above the band |
| `Zones.ZoneValue` | mlchr/feature_extraction/zones.py:37-44 | no contract of its own: the feature of cell `(i, j)`; `UnweightedZoneValue` and `WeightedZoneValue` give its value as a pixel sum |
| `Zones.ZoneFeatures` | mlchr/feature_extraction/zones.py:30-45 | no contract of its own: the feature vector of one image; `ZoneFeaturesAt` gives its length and layout |
| `Zones.UnweightedZoneValue` | mlchr/feature_extraction/zones.py:37-40 | unweighted, a feature is the pixel sum of `[iZ, (i+1)Z) x [jZ, (j+1)Z)` |
| `Zones.WeightedZoneValue` | mlchr/feature_extraction/zones.py:37-44 | weighted, a feature is that sum plus `weight` times the cell's pixels equal to 1 in rows above `floor(h / Z / 4)` |
| `Zones.WeightSparesLowerCells` | mlchr/feature_extraction/zones.py:41-44 | a cell starting at or below the band row has the same weighted and unweighted value |
| `Zones.ZoneValueBinaryBounds` | mlchr/feature_extraction/zones.py:37-40 | on a 0/1 grid an unweighted feature lies in `[0, Z^2]` |
| `Zones.ZoneFeaturesAt` | mlchr/feature_extraction/zones.py:30-45 | the vector has `floor(h/Z) * floor(w/Z)` entries and cell `(i, j)` is entry `i * m + j` |
| `Zones.SmallGridHasNoZones` | mlchr/feature_extraction/zones.py:34-35 | a grid shorter or narrower than one cell gives the empty vector |
| `Zones.FullGridZones` | mlchr/feature_extraction/zones.py:30-45 | a 4 by 4 grid of ones in unweighted 2 by 2 cells gives `[4, 4, 4, 4]` |
| `Zones.ZonesExtractor.constructor` | mlchr/feature_extraction/zones.py:9-18 | stores the zone size, the weighting flag and the weight; the flag defaults to unweighted and the weight to 1.25 |
| `Zones.ZonesExtractor.CellPixels` | mlchr/feature_extraction/zones.py:36-44 | the pixel-density loops of cell `(i, j)` compute its feature |
| `Zones.ZonesExtractor.RowFeatures` | mlchr/feature_extraction/zones.py:35-45 | the loop over the cells of cell row `i` gives their features in order |
| `Zones.ZonesExtractor.ImageFeatures` | mlchr/feature_extraction/zones.py:30-45 | the per-image loops give the image's feature vector |
| `Zones.ZonesExtractor.Transform` | mlchr/feature_extraction/zones.py:26-49 | one vector per image, in input order |
| `Zones.AxisWindow` | mlchr/feature_extraction/zones.py:87-96 | every window spans exactly `Z` along its axis and, for a cell inside the grid, lies inside the grid |
| `Zones.AxisShiftRule` | mlchr/feature_extraction/zones.py:91-96 | a non-zero shift is kept exactly when the shifted range starts at 0 or later and ends at `n - 1` or earlier; otherwise the cell's own range is used |
| `Zones.CandidateSum` | mlchr/feature_extraction/zones.py:86-99 | no contract of its own: the window sum for offsets `(xo, yo)`; `AxisWindow` bounds its window and `CandidateSumUnshifted` and `CandidateSumBinaryBounds` characterise it |
| `Zones.Candidates` | mlchr/feature_extraction/zones.py:83-100 | no contract of its own: the candidate list of one cell; `CandidatesLayout` and `CandidatesEmpty` give its length and layout |
| `Zones.AdaptiveValue` | mlchr/feature_extraction/zones.py:102 | no contract of its own: the largest window sum; `AdaptiveValueIsMaximum` and `MaxOfCandidates` characterise it |
| `Zones.AdaptiveFeatures` | mlchr/feature_extraction/zones.py:76-104 | no contract of its own: the adaptive vector of one image, or the failure; `AdaptiveFeaturesRejects` and `AdaptiveFeaturesAt` characterise it |
| `Zones.CandidateSumBinaryBounds` | mlchr/feature_extraction/zones.py:97-99 | on a 0/1 grid every window sum lies in `[0, Z^2]` |
| `Zones.CandidateSumUnshifted` | mlchr/feature_extraction/zones.py:86-99 | the window for offsets `(0, 0)` is the cell itself |
| `Zones.CandidatesLayout` | mlchr/feature_extraction/zones.py:83-100 | there are `(2R+1)^2` candidates, duplicates kept, and the window for `(xo, yo)` is entry `(xo+R)(2R+1) + yo+R` |
| `Zones.CandidatesEmpty` | mlchr/feature_extraction/zones.py:84-85 | the candidate list is empty exactly when `R < 0` |
| `Zones.AdaptiveValueIsMaximum` | mlchr/feature_extraction/zones.py:83-102 | the adaptive feature is one of the window sums over shifts in `[-R, R]^2`, and none is larger |
| `Zones.MaxOfCandidates` | mlchr/feature_extraction/zones.py:102 | `max` of the candidate list is the adaptive feature |
| `Zones.AdaptiveAtLeastCell` | mlchr/feature_extraction/zones.py:83-102 | each adaptive feature is at least the unshifted cell sum |
| `Zones.AdaptiveBinaryBounds` | mlchr/feature_extraction/zones.py:83-102 | on a 0/1 grid each adaptive feature lies in `[0, Z^2]` |
| `Zones.AdaptiveWithoutRange` | mlchr/feature_extraction/zones.py:84-102 | with `R = 0` the adaptive feature is the cell's pixel sum |
| `Zones.AdaptiveFeaturesRejects` | mlchr/feature_extraction/zones.py:84-102 | the extractor fails exactly when `R < 0` and the grid has at least one cell |
| `Zones.AdaptiveFeaturesAt` | mlchr/feature_extraction/zones.py:76-102 | with `R >= 0`, one feature per whole cell, cell `(i, j)` at entry `i * m + j` |
| `Zones.AdaptiveCellsWithoutRange` | mlchr/feature_extraction/zones.py:84-102 | with `R = 0` every adaptive cell feature equals the unweighted zones feature |
| `Zones.AdaptiveFeaturesWithoutRange` | mlchr/feature_extraction/zones.py:76-104 | with `R = 0` the adaptive vector equals the unweighted `ZonesExtractor` vector entry by entry |
| `Zones.AdaptiveZonesExtractor.constructor` | mlchr/feature_extraction/zones.py:57-64 | stores the zone size and the adjustment range, which defaults to 2 |
| `Zones.AdaptiveZonesExtractor.WindowPixels` | mlchr/feature_extraction/zones.py:97-99 | the window loops compute the box sum of the window |
| `Zones.AdaptiveZonesExtractor.CandidatePixels` | mlchr/feature_extraction/zones.py:86-99 | one candidate: the bounds, the shift undo and the window loops give the window sum for `(xo, yo)` |
| `Zones.AdaptiveZonesExtractor.OffsetRow` | mlchr/feature_extraction/zones.py:85-100 | the `yo` loop appends the window sums for row offset `xo` in order |
| `Zones.AdaptiveZonesExtractor.CellCandidates` | mlchr/feature_extraction/zones.py:83-100 | the offset loops build the candidate list of cell `(i, y)` |
| `Zones.AdaptiveZonesExtractor.RowFeatures` | mlchr/feature_extraction/zones.py:81-102 | the loop over `y` gives the adaptive features of cell row `i`, or fails on the first cell when `R < 0` |
| `Zones.AdaptiveZonesExtractor.ImageFeatures` | mlchr/feature_extraction/zones.py:76-104 | the per-image loops give the adaptive feature vector, or the failure |
| `Zones.AdaptiveZonesExtractor.Transform` | mlchr/feature_extraction/zones.py:72-106 | one vector per image in input order, or failure exactly when some image fails |
| `Projections.Boundary` | mlchr/feature_extraction/projections.py:33 | `b_k = floor(k * height / P)` lies in `[0, height]` for `0 <= k <= P` |
| `Projections.Horizontal` | mlchr/feature_extraction/projections.py:33-35 | no contract of its own: the pixel sum of rows `[0, b)`; `ProjectionFeaturesAt` places it in the vector |
| `Projections.Vertical` | mlchr/feature_extraction/projections.py:33-36 | no contract of its own: the `image[y, i]` counter over columns `i < b`; `VerticalIsColumnBlock` gives it as a column-block sum |
| `Projections.VerticalIsColumnBlock` | mlchr/feature_extraction/projections.py:33-36 | the vertical counter is the pixel sum of the first `b` columns |
| `Projections.ProjectionFeatures` | mlchr/feature_extraction/projections.py:26-38 | the vector has `2P` entries, none when `P <= 0` |
| `Projections.ProjectionFeaturesAt` | mlchr/feature_extraction/projections.py:27-38 | entries `2(k-1)` and `2(k-1)+1` are the horizontal and vertical counters of projection `k` |
| `Projections.BoundaryMonotone` | mlchr/feature_extraction/projections.py:33 | the boundaries do not decrease with `k` |
| `Projections.BoundaryLast` | mlchr/feature_extraction/projections.py:33 | `b_P = height` |
| `Projections.ProjectionsMonotone` | mlchr/feature_extraction/projections.py:28-38 | with non-negative pixels, both counters do not decrease with `k` |
| `Projections.LastPairIsTotal` | mlchr/feature_extraction/projections.py:33-38 | the last pair are both the total pixel sum |
| `Projections.SingleProjection` | mlchr/feature_extraction/projections.py:28-38 | with `P = 1` the vector is `[total, total]` |
| `Projections.ProjectionBinaryBounds` | mlchr/feature_extraction/projections.py:33-36 | on a 0/1 grid both counters of projection `k` lie in `[0, b_k * width]` |
| `Projections.ProjectionsExtractor.constructor` | mlchr/feature_extraction/projections.py:9-14 | stores the number of projections |
| `Projections.ProjectionsExtractor.ProjectionPair` | mlchr/feature_extraction/projections.py:29-36 | the counters, reset for projection `k`, end as its horizontal and vertical sums |
| `Projections.ProjectionsExtractor.ImageFeatures` | mlchr/feature_extraction/projections.py:26-38 | the loop over `k` appends the pairs in order and gives the feature vector |
| `Projections.ProjectionsExtractor.Transform` | mlchr/feature_extraction/projections.py:22-42 | one vector per image, in input order |
| `Tables.TableAt` | mlchr/feature_extraction/zones.py:83-100 | two nested appending loops put the value for `(a, b)` at entry `a * m + b` |
| `Tables.MaxOfIsMaximum` | mlchr/feature_extraction/zones.py:102 | `max` of a non-empty list is one of its entries and no entry is larger |
| `Tables.MaxOfTable` | mlchr/feature_extraction/zones.py:83-102 | `max` of the list two nested loops build is the largest value over both ranges |

## Left out

- Reading images, the `np.array` wrapping of results, and the
  normalisation that produces the images are not part of this model. A
  grid is a rectangular `seq<seq<int>>`, and `np.ix_` indexing is a
  contiguous range copy.
- `mlchr/feature_extraction/base.py` defines no logic: `fit` does nothing
  and `fit_transform` has an empty body. The classifiers and utilities are
  not part of this model.
- Floating point: `weight` (default 1.25) is an exact `real`, without IEEE
  rounding.
- `int(height / zones)`, `int(height / zones / 4)` and
  `int(k * height / P)` are integer division. For non-negative operands
  this equals the float quotient truncated; float rounding of very large
  operands is not modelled.
- Numeric width: pixel sums are unbounded integers. NumPy's fixed-width
  accumulation is not modelled.
- A zone size of 0: the source accepts it at construction and on an empty
  image list, and raises `ZeroDivisionError` only when it transforms an
  image (`zones.py` lines 34 and 80). The `ZoneSize` type excludes 0
  already at construction, so neither extractor can be built with it. A
  negative zone size is modelled: it gives no cells.
- `projections.py` indexes `image[y, i]` with `y < width` and
  `i < b_k`. That is in range for every `k` only on a square grid, a grid
  without columns, or when `P <= 0`. `Indexable` requires this instead of
  modelling the `IndexError`.
- `find_index` reads `v[0]`, so it fails on an empty vector. `BalanceIndex`
  and `FindIndex` require a non-empty vector, and `VerticalPoint`,
  `HorizontalPoint`, `FindVerticalPoint` and `FindHorizontalPoint` require
  at least one column or row. The recursion calls them only on grids of at
  least 3 by 3.
- A negative granularity is not modelled: the granularity is a `nat`. In
  the source, on a grid below 3 by 3 `range(0, 4**g)` raises because
  `4**g` is then a float. On a grid of at least 3 by 3 the test
  `granularity > 0` fails, so the grid's split point `[x0, y0]` is returned,
  as at granularity 0.
- The `sys.maxsize` starting minimum of `find_index` is modelled as "the
  first candidate wins". This differs only for gaps of `sys.maxsize` or
  more.
- The failure of `max` on an empty candidate list (adjustment range below
  0) is the `None` of an `Option` result. `Transform` fails exactly when
  some image does. Python raises instead.
- Some inner loops are separate methods, with the same iteration order and
  the same values:
  - `Zones.ZonesExtractor.RowFeatures`;
  - `Zones.AdaptiveZonesExtractor.CandidatePixels`, `OffsetRow`,
    `CellCandidates` and `RowFeatures`;
  - `Projections.ProjectionsExtractor.ProjectionPair`;
  - `rec_sub_div` is `Subdivisions.SubdivisionsExtractor.RecSubDiv` plus a
    method per branch: `AppendZeroPairs`, `RecSplit` (which calls
    `SplitImage`, then `RecQuadrants` for the four recursive calls) and
    `AppendSplitPoint` (which calls `SplitImage`);
  - `Subdivisions.SubdivisionsExtractor.PrefixSums` and `SuffixSums`.
- `CellsAlong` counts whole cells by repeated subtraction.
  `Zones.CellsCoverEdge` shows the count is the rounded-down quotient.
- The docstring's requirement that `weight` be greater than 1 is not
  enforced by the source, and nothing here depends on it.
