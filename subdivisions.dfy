/**
 * The subdivisions extractor: a quad-tree recursion that splits a grid at
 * the point balancing its pixel mass, column-wise and row-wise, and records
 * the split coordinates of the leaves.
 *
 * The pure functions below say what the extractor computes; the class
 * SubdivisionsExtractor holds the loops and the in-place appends of the
 * original, each method proved to agree with those functions.
 */
module Subdivisions {
  import opened Grids

  function Pow4(n: nat): (p: nat)
    ensures p >= 1
  {
    if n == 0 then 1 else 4 * Pow4(n - 1)
  }

  function Zeros(n: nat): (z: seq<int>)
    ensures |z| == n
  {
    seq(n, _ => 0)
  }

  // ---------------------------------------------------------------------
  // Balance-point search

  /** `v[0] + ... + v[i]` */
  function Prefix(v: seq<int>, i: int): int
    requires 0 <= i < |v|
  {
    RowSum(v, 0, i + 1)
  }

  /** `v[i] + ... + v[|v| - 1]` */
  function Suffix(v: seq<int>, i: int): int
    requires 0 <= i < |v|
  {
    RowSum(v, i, |v|)
  }

  /** How badly index `i` balances the mass on its two sides. */
  function Gap(v: seq<int>, i: int): nat
    requires 0 <= i < |v|
  {
    Abs(Prefix(v, i) - Suffix(v, i))
  }

  /** `k` is an interior index with the least gap, and no earlier interior
      index has a gap that small. */
  predicate IsBalancePoint(v: seq<int>, k: int)
  {
    1 <= k <= |v| - 2 &&
    (forall j | 1 <= j <= |v| - 2 :: Gap(v, k) <= Gap(v, j)) &&
    (forall j | 1 <= j < k :: Gap(v, k) < Gap(v, j))
  }

  /** The index a left-to-right scan of `[1, hi)` keeps when it replaces its
      candidate only on a strictly smaller gap. */
  function ScanMin(v: seq<int>, hi: int): (k: int)
    requires 2 <= hi <= |v|
    ensures 1 <= k < hi
    decreases hi
  {
    if hi == 2 then 1
    else
      var k := ScanMin(v, hi - 1);
      if Gap(v, hi - 1) < Gap(v, k) then hi - 1 else k
  }

  /** The scan keeps the earliest index of least gap among those it saw. */
  lemma {:induction false} ScanMinIsEarliestMinimum(v: seq<int>, hi: int)
    requires 2 <= hi <= |v|
    ensures forall j | 1 <= j < hi :: Gap(v, ScanMin(v, hi)) <= Gap(v, j)
    ensures forall j | 1 <= j < ScanMin(v, hi) :: Gap(v, ScanMin(v, hi)) < Gap(v, j)
    decreases hi
  {
    if hi > 2 {
      ScanMinIsEarliestMinimum(v, hi - 1);
    }
  }

  /** The balance point of `v`, or -1 when `v` has no interior index. The
      search reads `v[0]` unconditionally, so `v` must not be empty. */
  function BalanceIndex(v: seq<int>): (k: int)
    requires |v| >= 1
    ensures |v| < 3 <==> k == -1
    ensures |v| >= 3 ==> 1 <= k <= |v| - 2
  {
    if |v| < 3 then -1 else ScanMin(v, |v| - 1)
  }

  /** Whenever there is an interior index, the search finds the balance
      point. */
  lemma BalanceIndexIsBalancePoint(v: seq<int>)
    requires |v| >= 3
    ensures IsBalancePoint(v, BalanceIndex(v))
  {
    ScanMinIsEarliestMinimum(v, |v| - 1);
  }

  /** The balance point is determined by its defining properties. */
  lemma BalancePointUnique(v: seq<int>, a: int, b: int)
    requires IsBalancePoint(v, a) && IsBalancePoint(v, b)
    ensures a == b
  {
    assert Gap(v, a) <= Gap(v, b) && Gap(v, b) <= Gap(v, a);
  }

  /** On a flat vector the search picks the centre. */
  lemma BalanceOfFlatVector()
    ensures BalanceIndex([1, 1, 1, 1, 1]) == 2
  {
    var v := [1, 1, 1, 1, 1];
    assert RowSum(v, 0, 2) == 2 && RowSum(v, 0, 3) == 3 && RowSum(v, 0, 4) == 4;
    assert RowSum(v, 3, 5) == 2 && RowSum(v, 2, 5) == 3;
    assert RowSum(v, 1, 3) == 2 && RowSum(v, 1, 4) == 3 && RowSum(v, 1, 5) == 4;
    assert IsBalancePoint(v, 2);
    BalanceIndexIsBalancePoint(v);
    BalancePointUnique(v, 2, BalanceIndex(v));
  }

  /** A heavy first entry keeps the first interior index. */
  lemma BalanceOfHeavyHead()
    ensures BalanceIndex([5, 1, 1, 1, 1]) == 1
  {
    var v := [5, 1, 1, 1, 1];
    assert RowSum(v, 0, 2) == 6 && RowSum(v, 0, 3) == 7 && RowSum(v, 0, 4) == 8;
    assert RowSum(v, 3, 5) == 2 && RowSum(v, 2, 5) == 3;
    assert RowSum(v, 1, 3) == 2 && RowSum(v, 1, 4) == 3 && RowSum(v, 1, 5) == 4;
    assert IsBalancePoint(v, 1);
    BalanceIndexIsBalancePoint(v);
    BalancePointUnique(v, 1, BalanceIndex(v));
  }

  // ---------------------------------------------------------------------
  // Split points

  /** Number of pixels equal to 1 in each of the first `n` columns. */
  function ColumnCounts(g: Grid, n: int): (v: seq<int>)
    requires IsGrid(g) && 0 <= n <= Width(g)
    ensures |v| == n
    ensures forall c | 0 <= c < n :: v[c] == ColCount(g, c, 0, |g|)
    decreases n
  {
    if n == 0 then [] else ColumnCounts(g, n - 1) + [ColCount(g, n - 1, 0, |g|)]
  }

  /** Number of pixels equal to 1 in each of the first `n` rows. */
  function RowCounts(g: Grid, n: int): (v: seq<int>)
    requires IsGrid(g) && 0 <= n <= |g|
    ensures |v| == n
    ensures forall r | 0 <= r < n :: v[r] == RowCount(g[r], 0, Width(g))
    decreases n
  {
    if n == 0 then [] else RowCounts(g, n - 1) + [RowCount(g[n - 1], 0, Width(g))]
  }

  /** Doubles the resolution: the counts go to the odd slots, zeros to the
      even ones, so that a balance point can fall between two pixels. */
  function Upsample(v0: seq<int>): (v1: seq<int>)
    ensures |v1| == 2 * |v0|
    ensures forall k | 0 <= k < |v0| :: v1[2 * k] == 0 && v1[2 * k + 1] == v0[k]
    decreases |v0|
  {
    if |v0| == 0 then [] else Upsample(v0[..|v0| - 1]) + [0, v0[|v0| - 1]]
  }

  /** The interleaving a comprehension over `[0, 2 * |v0|)` writes is the
      upsampled vector. */
  lemma UpsampleIsInterleaving(v0: seq<int>, v1: seq<int>)
    requires |v1| == 2 * |v0|
    requires forall x | 0 <= x < |v1| :: v1[x] == if x % 2 == 0 then 0 else v0[x / 2]
    ensures v1 == Upsample(v0)
  {
    var u := Upsample(v0);
    forall x | 0 <= x < |v1|
      ensures v1[x] == u[x]
    {
      var k := x / 2;
      if x % 2 == 0 {
        assert x == 2 * k;
      } else {
        assert x == 2 * k + 1;
      }
    }
  }

  function OddEntries(s: seq<int>): seq<int>
  {
    seq(|s| / 2, k requires 0 <= k < |s| / 2 => s[2 * k + 1])
  }

  /** Upsampling loses nothing: the odd slots give back the counts. */
  lemma UpsampleRoundTrip(v0: seq<int>)
    ensures OddEntries(Upsample(v0)) == v0
  {
    var v1 := Upsample(v0);
    forall k | 0 <= k < |v0|
      ensures OddEntries(v1)[k] == v0[k]
    {
    }
  }

  /** Upsampling preserves the total mass of every prefix of whole pixels. */
  lemma {:induction false} UpsampleMass(v0: seq<int>, m: int)
    requires 0 <= m <= |v0|
    ensures RowSum(Upsample(v0), 0, 2 * m) == RowSum(v0, 0, m)
    decreases m
  {
    if m > 0 {
      UpsampleMass(v0, m - 1);
      var v1 := Upsample(v0);
      assert RowSum(v1, 0, 2 * m) == RowSum(v1, 0, 2 * m - 1) + v1[2 * m - 1];
      assert RowSum(v1, 0, 2 * m - 1) == RowSum(v1, 0, 2 * (m - 1)) + v1[2 * m - 2];
    }
  }

  /** The vertical split coordinate, at double resolution. */
  function VerticalPoint(g: Grid): (xq: int)
    requires IsGrid(g) && Width(g) >= 1
    ensures Width(g) >= 2 ==> 2 <= xq <= 2 * Width(g) - 1
    ensures Width(g) >= 2 ==> 1 <= xq / 2 <= Width(g) - 1
    ensures Width(g) == 1 ==> xq == 0
  {
    BalanceIndex(Upsample(ColumnCounts(g, Width(g)))) + 1
  }

  /** The horizontal split coordinate, at double resolution. */
  function HorizontalPoint(g: Grid): (yq: int)
    requires IsGrid(g) && |g| >= 1
    ensures |g| >= 2 ==> 2 <= yq <= 2 * |g| - 1
    ensures |g| >= 2 ==> 1 <= yq / 2 <= |g| - 1
    ensures |g| == 1 ==> yq == 0
  {
    BalanceIndex(Upsample(RowCounts(g, |g|))) + 1
  }

  /** A split coordinate, one past the search result on a vector with an
      interior index, is one past the balance point. */
  lemma SplitCoordinate(v: seq<int>, q: int)
    requires |v| >= 3 && q == BalanceIndex(v) + 1
    ensures IsBalancePoint(v, q - 1)
  {
    BalanceIndexIsBalancePoint(v);
  }

  /** With at least two columns, `xq - 1` is the balance point of the
      upsampled column counts. */
  lemma VerticalPointIsBalancePoint(g: Grid)
    requires IsGrid(g) && Width(g) >= 2
    ensures IsBalancePoint(Upsample(ColumnCounts(g, Width(g))), VerticalPoint(g) - 1)
  {
    var v, xq := Upsample(ColumnCounts(g, Width(g))), VerticalPoint(g);
    assert IsBalancePoint(v, xq - 1) by {
      SplitCoordinate(v, xq);
    }
  }

  /** With at least two rows, `yq - 1` is the balance point of the upsampled
      row counts. */
  lemma HorizontalPointIsBalancePoint(g: Grid)
    requires IsGrid(g) && |g| >= 2
    ensures IsBalancePoint(Upsample(RowCounts(g, |g|)), HorizontalPoint(g) - 1)
  {
    var v, yq := Upsample(RowCounts(g, |g|)), HorizontalPoint(g);
    assert IsBalancePoint(v, yq - 1) by {
      SplitCoordinate(v, yq);
    }
  }

  // ---------------------------------------------------------------------
  // Quadrants and the recursion

  /** First row (or column) of the far quadrants: an even split point makes
      the far side start one earlier, so that row (or column) is shared. */
  function FarStart(q: int): (s: int)
    ensures s == (q - 1) / 2
  {
    if q % 2 == 0 then q / 2 - 1 else q / 2
  }

  predicate Splittable(g: Grid)
  {
    IsGrid(g) && |g| >= 3 && Width(g) >= 3
  }

  datatype Quadrants = Quadrants(leftUp: Grid, rightUp: Grid, leftDown: Grid, rightDown: Grid)

  predicate FitsIn(s: Grid, height: int, width: int)
  {
    IsGrid(s) && 1 <= |s| <= height && 1 <= Width(s) <= width
  }

  /** The four quadrants for split points `xq` and `yq`: rows `[0, yq / 2)`
      or from FarStart(yq) on, columns `[0, xq / 2)` or from FarStart(xq)
      on. Every quadrant is a non-empty sub-grid no larger than the grid. */
  function SplitAt(g: Grid, xq: int, yq: int): (q: Quadrants)
    requires IsGrid(g) && 2 <= xq <= 2 * Width(g) - 1 && 2 <= yq <= 2 * |g| - 1
    ensures FitsIn(q.leftUp, |g|, Width(g)) && FitsIn(q.rightUp, |g|, Width(g))
    ensures FitsIn(q.leftDown, |g|, Width(g)) && FitsIn(q.rightDown, |g|, Width(g))
  {
    var x0, y0 := xq / 2, yq / 2;
    Quadrants(SubGrid(g, 0, y0, 0, x0),
              SubGrid(g, 0, y0, FarStart(xq), Width(g)),
              SubGrid(g, FarStart(yq), |g|, 0, x0),
              SubGrid(g, FarStart(yq), |g|, FarStart(xq), Width(g)))
  }

  /** The quadrants at the grid's own split points. */
  function Split(g: Grid): (q: Quadrants)
    requires Splittable(g)
    ensures FitsIn(q.leftUp, |g|, Width(g)) && FitsIn(q.rightUp, |g|, Width(g))
    ensures FitsIn(q.leftDown, |g|, Width(g)) && FitsIn(q.rightDown, |g|, Width(g))
  {
    SplitAt(g, VerticalPoint(g), HorizontalPoint(g))
  }

  /** The subdivision features of `g`: `4^granularity` pairs, each a leaf's
      local split coordinates `(x0, y0)`, or `(0, 0)` for every leaf of a
      subtree whose grid is too small to split. */
  function SubDiv(g: Grid, granularity: nat): (f: seq<int>)
    requires IsGrid(g)
    ensures |f| == 2 * Pow4(granularity)
    decreases granularity, 0
  {
    if |g| < 3 || Width(g) < 3 then Zeros(2 * Pow4(granularity))
    else if granularity > 0 then SubDivQuadrants(Split(g), granularity - 1)
    else [VerticalPoint(g) / 2, HorizontalPoint(g) / 2]
  }

  /** The features of four quadrants, in the order left-up, right-up,
      left-down, right-down. */
  function SubDivQuadrants(q: Quadrants, granularity: nat): (f: seq<int>)
    requires IsGrid(q.leftUp) && IsGrid(q.rightUp) && IsGrid(q.leftDown) && IsGrid(q.rightDown)
    ensures |f| == 8 * Pow4(granularity)
    decreases granularity, 1
  {
    SubDiv(q.leftUp, granularity) + SubDiv(q.rightUp, granularity) +
    SubDiv(q.leftDown, granularity) + SubDiv(q.rightDown, granularity)
  }

  lemma SubDivOfSplit(g: Grid, granularity: nat)
    requires Splittable(g) && granularity > 0
    ensures SubDiv(g, granularity) == SubDivQuadrants(Split(g), granularity - 1)
  {
  }

  /** At the last level, a splittable grid's features are one pair strictly
      inside the grid: `(k + 1) / 2` for the balance point `k` of the
      upsampled column counts, then the same for the row counts. */
  lemma SubDivOfLeaf(g: Grid)
    requires Splittable(g)
    ensures var f := SubDiv(g, 0);
      |f| == 2 && 1 <= f[0] <= Width(g) - 1 && 1 <= f[1] <= |g| - 1
    ensures forall k | IsBalancePoint(Upsample(ColumnCounts(g, Width(g))), k) :: SubDiv(g, 0)[0] == (k + 1) / 2
    ensures forall k | IsBalancePoint(Upsample(RowCounts(g, |g|)), k) :: SubDiv(g, 0)[1] == (k + 1) / 2
  {
    var cols, rows := Upsample(ColumnCounts(g, Width(g))), Upsample(RowCounts(g, |g|));
    VerticalPointIsBalancePoint(g);
    HorizontalPointIsBalancePoint(g);
    forall k | IsBalancePoint(cols, k)
      ensures SubDiv(g, 0)[0] == (k + 1) / 2
    {
      BalancePointUnique(cols, k, VerticalPoint(g) - 1);
    }
    forall k | IsBalancePoint(rows, k)
      ensures SubDiv(g, 0)[1] == (k + 1) / 2
    {
      BalancePointUnique(rows, k, HorizontalPoint(g) - 1);
    }
  }

  /** Every feature pair of a grid is `(0, 0)` or a split point strictly
      inside the grid. */
  lemma {:induction false} SubDivPairsOk(g: Grid, granularity: nat)
    requires IsGrid(g)
    ensures AllPairsOk(SubDiv(g, granularity), Width(g), |g|)
    decreases granularity, 0
  {
    if |g| < 3 || Width(g) < 3 {
      ZerosPairsOk(Pow4(granularity), Width(g), |g|);
    } else if granularity > 0 {
      QuadrantPairsOk(Split(g), granularity - 1, Width(g), |g|);
    } else {
      LeafPairOk(g);
    }
  }

  lemma LeafPairOk(g: Grid)
    requires Splittable(g)
    ensures AllPairsOk(SubDiv(g, 0), Width(g), |g|)
  {
    var x0, y0 := VerticalPoint(g) / 2, HorizontalPoint(g) / 2;
    assert SubDiv(g, 0) == [x0, y0];
  }

  /** The pairs of four quadrants' features, concatenated, are within the
      bounds of any grid the quadrants fit in. */
  lemma {:induction false} QuadrantPairsOk(q: Quadrants, granularity: nat, width: int, height: int)
    requires FitsIn(q.leftUp, height, width) && FitsIn(q.rightUp, height, width)
    requires FitsIn(q.leftDown, height, width) && FitsIn(q.rightDown, height, width)
    ensures AllPairsOk(SubDivQuadrants(q, granularity), width, height)
    decreases granularity, 2
  {
    var a, b := SubDiv(q.leftUp, granularity), SubDiv(q.rightUp, granularity);
    var c, d := SubDiv(q.leftDown, granularity), SubDiv(q.rightDown, granularity);
    SubDivPairsOk(q.leftUp, granularity);
    SubDivPairsOk(q.rightUp, granularity);
    SubDivPairsOk(q.leftDown, granularity);
    SubDivPairsOk(q.rightDown, granularity);
    PairsOkWeaken(a, Width(q.leftUp), |q.leftUp|, width, height);
    PairsOkWeaken(b, Width(q.rightUp), |q.rightUp|, width, height);
    PairsOkWeaken(c, Width(q.leftDown), |q.leftDown|, width, height);
    PairsOkWeaken(d, Width(q.rightDown), |q.rightDown|, width, height);
    ConcatPairsOk(a, b, width, height);
    ConcatPairsOk(a + b, c, width, height);
    ConcatPairsOk(a + b + c, d, width, height);
  }

  /** A grid below the size threshold contributes only zeros. */
  lemma SmallGridGivesZeros(g: Grid, granularity: nat)
    requires IsGrid(g) && (|g| < 3 || Width(g) < 3)
    ensures forall k | 0 <= k < |SubDiv(g, granularity)| :: SubDiv(g, granularity)[k] == 0
  {
  }

  /** The layout: the left-up, right-up, left-down and right-down subtrees
      follow one another in blocks of `2 * 4^(granularity - 1)` values. */
  lemma QuadrantOrder(g: Grid, granularity: nat)
    requires Splittable(g) && granularity >= 1
    ensures var f, q, n := SubDiv(g, granularity), Split(g), 2 * Pow4(granularity - 1);
      f[..n] == SubDiv(q.leftUp, granularity - 1) &&
      f[n..2 * n] == SubDiv(q.rightUp, granularity - 1) &&
      f[2 * n..3 * n] == SubDiv(q.leftDown, granularity - 1) &&
      f[3 * n..] == SubDiv(q.rightDown, granularity - 1)
  {
    var q, n := Split(g), 2 * Pow4(granularity - 1);
    assert SubDiv(g, granularity) == SubDivQuadrants(q, granularity - 1);
    FourBlocks(SubDiv(q.leftUp, granularity - 1), SubDiv(q.rightUp, granularity - 1),
               SubDiv(q.leftDown, granularity - 1), SubDiv(q.rightDown, granularity - 1), n);
  }

  /** The near and far quadrants together cover the grid: their rows (and
      columns) add up to the grid's, plus one when the split point is even,
      since the row (or column) before the split is then in both. */
  lemma QuadrantSizes(g: Grid)
    requires Splittable(g)
    ensures var q, xq, yq := Split(g), VerticalPoint(g), HorizontalPoint(g);
      |q.leftUp| + |q.leftDown| == |g| + (if yq % 2 == 0 then 1 else 0) &&
      |q.rightUp| + |q.rightDown| == |g| + (if yq % 2 == 0 then 1 else 0) &&
      Width(q.leftUp) + Width(q.rightUp) == Width(g) + (if xq % 2 == 0 then 1 else 0) &&
      Width(q.leftDown) + Width(q.rightDown) == Width(g) + (if xq % 2 == 0 then 1 else 0)
  {
  }

  /** Four blocks of length `n`, concatenated, are found back by slicing. */
  lemma FourBlocks(a: seq<int>, b: seq<int>, c: seq<int>, d: seq<int>, n: nat)
    requires |a| == n && |b| == n && |c| == n && |d| == n
    ensures var f := a + b + c + d;
      f[..n] == a && f[n..2 * n] == b && f[2 * n..3 * n] == c && f[3 * n..] == d
  {
    var f := a + b + c + d;
    assert f[..n] == a;
    assert f[n..2 * n] == b;
    assert f[2 * n..3 * n] == c;
    assert f[3 * n..] == d;
  }

  /** `(x, y)` is `(0, 0)`, or a split point strictly inside a `width` by
      `height` grid. */
  predicate PairOk(x: int, y: int, width: int, height: int)
  {
    (x == 0 && y == 0) || (1 <= x <= width - 1 && 1 <= y <= height - 1)
  }

  /** `s` is a sequence of pairs, each satisfying PairOk. */
  predicate AllPairsOk(s: seq<int>, width: int, height: int)
  {
    |s| % 2 == 0 && forall p | 0 <= p < |s| / 2 :: PairOk(s[2 * p], s[2 * p + 1], width, height)
  }

  lemma ConcatPairsOk(a: seq<int>, b: seq<int>, width: int, height: int)
    requires AllPairsOk(a, width, height) && AllPairsOk(b, width, height)
    ensures AllPairsOk(a + b, width, height)
  {
    var s, n := a + b, |a| / 2;
    forall p | 0 <= p < |s| / 2
      ensures PairOk(s[2 * p], s[2 * p + 1], width, height)
    {
      if p >= n {
        assert s[2 * p] == b[2 * (p - n)] && s[2 * p + 1] == b[2 * (p - n) + 1];
      } else {
        assert s[2 * p] == a[2 * p] && s[2 * p + 1] == a[2 * p + 1];
      }
    }
  }

  lemma PairsOkWeaken(s: seq<int>, width: int, height: int, width': int, height': int)
    requires AllPairsOk(s, width, height) && width <= width' && height <= height'
    ensures AllPairsOk(s, width', height')
  {
  }

  lemma ZerosPairsOk(n: nat, width: int, height: int)
    ensures AllPairsOk(Zeros(2 * n), width, height)
  {
  }

  // ---------------------------------------------------------------------
  // The extractor

  lemma AppendFour(s: seq<int>, a: seq<int>, b: seq<int>, c: seq<int>, d: seq<int>)
    ensures s + a + b + c + d == s + (a + b + c + d)
  {
  }

  /** The growable list the recursion appends to. */
  class FeatureList {
    var items: seq<int>

    constructor()
      ensures items == []
    {
      items := [];
    }

    method Append(x: int)
      modifies this
      ensures items == old(items) + [x]
    {
      items := items + [x];
    }
  }

  class SubdivisionsExtractor {
    const granularity: nat

    constructor(granularity: nat)
      ensures this.granularity == granularity
    {
      this.granularity := granularity;
    }

    /** The prefix-sum list of the balance search. */
    static method PrefixSums(v: seq<int>) returns (prefixSum: seq<int>)
      requires |v| >= 1
      ensures |prefixSum| == |v|
      ensures forall i | 0 <= i < |v| :: prefixSum[i] == Prefix(v, i)
    {
      var a := new int[|v|];
      a[0] := v[0];
      for i := 1 to |v|
        invariant forall j | 0 <= j < i :: a[j] == Prefix(v, j)
      {
        a[i] := a[i - 1] + v[i];
      }
      prefixSum := a[..];
    }

    /** The suffix-sum list of the balance search, filled from the right. */
    static method SuffixSums(v: seq<int>) returns (suffixSum: seq<int>)
      requires |v| >= 1
      ensures |suffixSum| == |v|
      ensures forall i | 0 <= i < |v| :: suffixSum[i] == Suffix(v, i)
    {
      var n := |v|;
      var a := new int[n];
      a[n - 1] := v[n - 1];
      assert RowSum(v, n - 1, n) == RowSum(v, n - 1, n - 1) + v[n - 1];
      var i := n - 2;
      while i >= 0
        invariant -1 <= i <= n - 2
        invariant forall j | i < j < n :: a[j] == Suffix(v, j)
      {
        RowSumFront(v, i, n);
        a[i] := a[i + 1] + v[i];
        i := i - 1;
      }
      suffixSum := a[..];
    }

    /** The balance search: the earliest interior index minimising
        `|prefix - suffix|`, or -1 when there is no interior index. */
    static method FindIndex(v: seq<int>) returns (minIndex: int)
      requires |v| >= 1
      ensures |v| < 3 ==> minIndex == -1
      ensures |v| >= 3 ==> IsBalancePoint(v, minIndex)
      ensures minIndex == BalanceIndex(v)
    {
      var vsize := |v|;
      var prefixSum := PrefixSums(v);
      var suffixSum := SuffixSums(v);
      minIndex := -1;
      var minv := 0;
      var i := 1;
      while i < vsize - 1
        invariant 1 <= i <= if vsize >= 2 then vsize - 1 else 1
        invariant minIndex == if i == 1 then -1 else ScanMin(v, i)
        invariant minIndex != -1 ==> minv == Gap(v, minIndex)
      {
        var x := Abs(prefixSum[i] - suffixSum[i]);
        if minIndex == -1 || x < minv {
          minv := x;
          minIndex := i;
        }
        i := i + 1;
      }
      if vsize >= 3 {
        BalanceIndexIsBalancePoint(v);
      }
    }

    /** Counts the set pixels of each column, upsamples, and returns the
        balance point plus one. */
    method FindVerticalPoint(image: Grid) returns (xq: int)
      requires IsGrid(image) && Width(image) >= 1
      ensures xq == VerticalPoint(image)
    {
      var height, width := |image|, Width(image);
      var v0 := new int[width](_ => 0);
      for y := 0 to width
        invariant forall c | 0 <= c < y :: v0[c] == ColCount(image, c, 0, height)
        invariant forall c | y <= c < width :: v0[c] == 0
      {
        for x := 0 to height
          invariant forall c | 0 <= c < y :: v0[c] == ColCount(image, c, 0, height)
          invariant v0[y] == ColCount(image, y, 0, x)
          invariant forall c | y < c < width :: v0[c] == 0
        {
          if image[x][y] == 1 {
            v0[y] := v0[y] + 1;
          }
        }
      }
      var counts := v0[..];
      assert counts == ColumnCounts(image, width);
      var v1 := seq(2 * width, x requires 0 <= x < 2 * width => if x % 2 == 0 then 0 else counts[x / 2]);
      UpsampleIsInterleaving(counts, v1);
      xq := FindIndex(v1);
      xq := xq + 1;
    }

    /** Counts the set pixels of each row, upsamples, and returns the
        balance point plus one. */
    method FindHorizontalPoint(image: Grid) returns (yq: int)
      requires IsGrid(image) && |image| >= 1
      ensures yq == HorizontalPoint(image)
    {
      var height, width := |image|, Width(image);
      var v0 := new int[height](_ => 0);
      for x := 0 to height
        invariant forall r | 0 <= r < x :: v0[r] == RowCount(image[r], 0, width)
        invariant forall r | x <= r < height :: v0[r] == 0
      {
        for y := 0 to width
          invariant forall r | 0 <= r < x :: v0[r] == RowCount(image[r], 0, width)
          invariant v0[x] == RowCount(image[x], 0, y)
          invariant forall r | x < r < height :: v0[r] == 0
        {
          if image[x][y] == 1 {
            v0[x] := v0[x] + 1;
          }
        }
      }
      var counts := v0[..];
      assert counts == RowCounts(image, height);
      var v1 := seq(2 * height, x requires 0 <= x < 2 * height => if x % 2 == 0 then 0 else counts[x / 2]);
      UpsampleIsInterleaving(counts, v1);
      yq := FindIndex(v1);
      yq := yq + 1;
    }

    /** Appends `count` pairs `(0, 0)`: the features of a subtree whose grid
        cannot be split. */
    method AppendZeroPairs(count: nat, imgFeatures: FeatureList)
      modifies imgFeatures
      ensures imgFeatures.items == old(imgFeatures.items) + Zeros(2 * count)
    {
      ghost var start := imgFeatures.items;
      for k := 0 to count
        invariant imgFeatures.items == start + Zeros(2 * k)
      {
        imgFeatures.Append(0);
        imgFeatures.Append(0);
        assert Zeros(2 * k) + [0] + [0] == Zeros(2 * (k + 1));
      }
    }

    /** Appends the features of `image` at `granularity` to `imgFeatures`,
        leaving what was there before untouched. */
    method RecSubDiv(image: Grid, granularity: nat, imgFeatures: FeatureList)
      requires IsGrid(image)
      modifies imgFeatures
      ensures imgFeatures.items == old(imgFeatures.items) + SubDiv(image, granularity)
      decreases granularity, 2
    {
      var height, width := |image|, Width(image);
      if height < 3 || width < 3 {
        AppendZeroPairs(Pow4(granularity), imgFeatures);
      } else if granularity > 0 {
        RecSplit(image, granularity, imgFeatures);
      } else {
        AppendSplitPoint(image, imgFeatures);
      }
    }

    /** The split points of a grid large enough to split, and the four
        quadrants they cut it into. */
    method SplitImage(image: Grid) returns (x0: int, y0: int, quadrants: Quadrants)
      requires Splittable(image)
      ensures x0 == VerticalPoint(image) / 2 && y0 == HorizontalPoint(image) / 2
      ensures quadrants == Split(image)
    {
      var xq := FindVerticalPoint(image);
      x0 := xq / 2;
      var yq := FindHorizontalPoint(image);
      y0 := yq / 2;
      quadrants := SplitAt(image, xq, yq);
    }

    /** Above the last level: split, then recurse into the quadrants. */
    method RecSplit(image: Grid, granularity: nat, imgFeatures: FeatureList)
      requires Splittable(image) && granularity > 0
      modifies imgFeatures
      ensures imgFeatures.items == old(imgFeatures.items) + SubDiv(image, granularity)
      decreases granularity, 1
    {
      var x0, y0, quadrants := SplitImage(image);
      RecQuadrants(quadrants, granularity - 1, imgFeatures);
      SubDivOfSplit(image, granularity);
    }

    /** At the last level: append the split point. */
    method AppendSplitPoint(image: Grid, imgFeatures: FeatureList)
      requires Splittable(image)
      modifies imgFeatures
      ensures imgFeatures.items == old(imgFeatures.items) + SubDiv(image, 0)
    {
      var x0, y0, quadrants := SplitImage(image);
      imgFeatures.Append(x0);
      imgFeatures.Append(y0);
      assert SubDiv(image, 0) == [x0, y0];
    }

    /** The four recursive calls, in the order left-up, right-up, left-down,
        right-down. */
    method RecQuadrants(q: Quadrants, granularity: nat, imgFeatures: FeatureList)
      requires IsGrid(q.leftUp) && IsGrid(q.rightUp) && IsGrid(q.leftDown) && IsGrid(q.rightDown)
      modifies imgFeatures
      ensures imgFeatures.items == old(imgFeatures.items) + SubDivQuadrants(q, granularity)
      decreases granularity + 1, 0
    {
      ghost var start := imgFeatures.items;
      ghost var a, b := SubDiv(q.leftUp, granularity), SubDiv(q.rightUp, granularity);
      ghost var c, d := SubDiv(q.leftDown, granularity), SubDiv(q.rightDown, granularity);
      RecSubDiv(q.leftUp, granularity, imgFeatures);
      assert imgFeatures.items == start + a;
      RecSubDiv(q.rightUp, granularity, imgFeatures);
      assert imgFeatures.items == start + a + b;
      RecSubDiv(q.leftDown, granularity, imgFeatures);
      assert imgFeatures.items == start + a + b + c;
      RecSubDiv(q.rightDown, granularity, imgFeatures);
      assert imgFeatures.items == start + a + b + c + d;
      AppendFour(start, a, b, c, d);
    }

    /** One feature vector per image, in input order, each of length
        `2 * 4^granularity`. */
    method Transform(x: seq<Grid>) returns (xTransformed: seq<seq<int>>)
      requires forall k | 0 <= k < |x| :: IsGrid(x[k])
      ensures |xTransformed| == |x|
      ensures forall k | 0 <= k < |x| :: xTransformed[k] == SubDiv(x[k], granularity)
      ensures forall k | 0 <= k < |x| :: |xTransformed[k]| == 2 * Pow4(granularity)
    {
      xTransformed := [];
      for k := 0 to |x|
        invariant |xTransformed| == k
        invariant forall j | 0 <= j < k :: xTransformed[j] == SubDiv(x[j], granularity)
      {
        var imgFeatures := new FeatureList();
        RecSubDiv(x[k], granularity, imgFeatures);
        assert imgFeatures.items == SubDiv(x[k], granularity);
        xTransformed := xTransformed + [imgFeatures.items];
      }
    }
  }
}
