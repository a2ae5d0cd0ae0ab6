/**
 * Lists built by nested loops that append one value per index pair, and
 * the largest value of such a list. `Row(f, m)` is what a loop over
 * `b in range(m)` appending `f(b)` yields; `Table(f, n, m)` is what two
 * nested loops over `a in range(n)` and `b in range(m)` appending `f(a, b)`
 * yield. `MaxOf` is Python's `max` on a non-empty list of integers.
 */
module Tables {
  import opened Grids

  /** `[f(0), f(1), ..., f(m - 1)]`. */
  function Row<T>(f: int -> T, m: nat): (r: seq<T>)
    ensures |r| == m
    decreases m
  {
    if m == 0 then [] else Row(f, m - 1) + [f(m - 1)]
  }

  lemma {:induction false} RowAt<T>(f: int -> T, m: nat, b: int)
    requires 0 <= b < m
    ensures Row(f, m)[b] == f(b)
    decreases m
  {
    if b < m - 1 {
      RowAt(f, m - 1, b);
    }
  }

  /** Row `a` of a two-argument function. */
  function RowOf<T>(f: (int, int) -> T, a: int): int -> T
  {
    b => f(a, b)
  }

  /** The rows `0, ..., n - 1` of `f`, each of `m` entries, one after the
      other. */
  function Table<T>(f: (int, int) -> T, n: nat, m: nat): (r: seq<T>)
    ensures |r| == n * m
    decreases n
  {
    if n == 0 then []
    else
      assert n * m == (n - 1) * m + m;
      Table(f, n - 1, m) + Row(RowOf(f, n - 1), m)
  }

  /** Row-major layout: `f(a, b)` is entry `a * m + b`. */
  lemma {:induction false} TableAt<T>(f: (int, int) -> T, n: nat, m: nat, a: int, b: int)
    requires 0 <= a < n && 0 <= b < m
    ensures 0 <= a * m + b < n * m && Table(f, n, m)[a * m + b] == f(a, b)
    decreases n
  {
    var prev, last := Table(f, n - 1, m), Row(RowOf(f, n - 1), m);
    assert Table(f, n, m) == prev + last;
    RowMajorAppend(prev, last, n, m, a, b);
    if a < n - 1 {
      TableAt(f, n - 1, m, a, b);
    } else {
      RowAt(RowOf(f, n - 1), m, b);
    }
  }

  /** Integers equal to reals, entry by entry. */
  predicate SameValues(a: seq<int>, b: seq<real>)
  {
    |a| == |b| && forall t | 0 <= t < |a| :: a[t] as real == b[t]
  }

  lemma SameValuesAppend(pa: seq<int>, a: seq<int>, pb: seq<real>, b: seq<real>)
    requires SameValues(pa, pb) && SameValues(a, b)
    ensures SameValues(pa + a, pb + b)
  {
    forall t | 0 <= t < |pa + a|
      ensures (pa + a)[t] as real == (pb + b)[t]
    {
      if t < |pa| {
        assert (pa + a)[t] == pa[t] && (pb + b)[t] == pb[t];
      } else {
        assert (pa + a)[t] == a[t - |pa|] && (pb + b)[t] == b[t - |pb|];
      }
    }
  }

  lemma {:induction false} RowAsReals(f: int -> int, h: int -> real, m: nat)
    requires forall b | 0 <= b < m :: f(b) as real == h(b)
    ensures SameValues(Row(f, m), Row(h, m))
    decreases m
  {
    if m > 0 {
      RowAsReals(f, h, m - 1);
      SameValuesAppend(Row(f, m - 1), [f(m - 1)], Row(h, m - 1), [h(m - 1)]);
    }
  }

  /** Tables of two functions that agree on the range, one over integers and
      one over reals, agree entry by entry. */
  lemma {:induction false} TableAsReals(f: (int, int) -> int, h: (int, int) -> real, n: nat, m: nat)
    requires forall a, b | 0 <= a < n && 0 <= b < m :: f(a, b) as real == h(a, b)
    ensures SameValues(Table(f, n, m), Table(h, n, m))
    decreases n
  {
    if n > 0 {
      TableAsReals(f, h, n - 1, m);
      RowAsReals(RowOf(f, n - 1), RowOf(h, n - 1), m);
      SameValuesAppend(Table(f, n - 1, m), Row(RowOf(f, n - 1), m), Table(h, n - 1, m), Row(RowOf(h, n - 1), m));
    }
  }

  /** A table of pairs grows by one pair per row. */
  lemma TableOfPairs<T>(f: (int, int) -> T, n: nat, x: T, y: T)
    requires n >= 1 && f(n - 1, 0) == x && f(n - 1, 1) == y
    ensures Table(f, n, 2) == Table(f, n - 1, 2) + [x, y]
  {
    assert Row(RowOf(f, n - 1), 2) == [x, y];
  }

  function Max(x: int, y: int): int
  {
    if y > x then y else x
  }

  /** The largest of `f(0), ..., f(m - 1)`. */
  function MaxOver(f: int -> int, m: int): int
    requires m >= 1
    decreases m
  {
    if m == 1 then f(0) else Max(MaxOver(f, m - 1), f(m - 1))
  }

  lemma {:induction false} MaxOverIsMaximum(f: int -> int, m: int)
    requires m >= 1
    ensures exists t | 0 <= t < m :: f(t) == MaxOver(f, m)
    ensures forall t | 0 <= t < m :: f(t) <= MaxOver(f, m)
    decreases m
  {
    if m > 1 {
      MaxOverIsMaximum(f, m - 1);
      var t :| 0 <= t < m - 1 && f(t) == MaxOver(f, m - 1);
      if f(m - 1) <= MaxOver(f, m - 1) {
        assert f(t) == MaxOver(f, m);
      }
    } else {
      assert f(0) == MaxOver(f, m);
    }
  }

  /** The largest entry of each row. */
  function RowMaxima(f: (int, int) -> int, m: int): int -> int
    requires m >= 1
  {
    a => MaxOver(RowOf(f, a), m)
  }

  /** The largest of `f(a, b)` over `0 <= a < n` and `0 <= b < m`. */
  function TableMax(f: (int, int) -> int, n: int, m: int): int
    requires n >= 1 && m >= 1
  {
    MaxOver(RowMaxima(f, m), n)
  }

  lemma TableMaxIsMaximum(f: (int, int) -> int, n: int, m: int)
    requires n >= 1 && m >= 1
    ensures exists a, b | 0 <= a < n && 0 <= b < m :: f(a, b) == TableMax(f, n, m)
    ensures forall a, b | 0 <= a < n && 0 <= b < m :: f(a, b) <= TableMax(f, n, m)
  {
    var rows := RowMaxima(f, m);
    MaxOverIsMaximum(rows, n);
    var a :| 0 <= a < n && rows(a) == TableMax(f, n, m);
    MaxOverIsMaximum(RowOf(f, a), m);
    var b :| 0 <= b < m && RowOf(f, a)(b) == rows(a);
    assert f(a, b) == TableMax(f, n, m);
    forall a', b' | 0 <= a' < n && 0 <= b' < m
      ensures f(a', b') <= TableMax(f, n, m)
    {
      MaxOverIsMaximum(RowOf(f, a'), m);
      assert RowOf(f, a')(b') == f(a', b');
      assert rows(a') == MaxOver(RowOf(f, a'), m) <= TableMax(f, n, m);
    }
  }

  /** The largest of the first `k` entries, scanning from the left. */
  function MaxUpTo(s: seq<int>, k: int): int
    requires 1 <= k <= |s|
    decreases k
  {
    if k == 1 then s[0] else Max(MaxUpTo(s, k - 1), s[k - 1])
  }

  /** The largest entry, as `max` computes it. */
  function MaxOf(s: seq<int>): int
    requires |s| > 0
  {
    MaxUpTo(s, |s|)
  }

  lemma {:induction false} MaxUpToIsMaximum(s: seq<int>, k: int)
    requires 1 <= k <= |s|
    ensures exists t | 0 <= t < k :: s[t] == MaxUpTo(s, k)
    ensures forall t | 0 <= t < k :: s[t] <= MaxUpTo(s, k)
    decreases k
  {
    if k > 1 {
      MaxUpToIsMaximum(s, k - 1);
      var t :| 0 <= t < k - 1 && s[t] == MaxUpTo(s, k - 1);
      if s[k - 1] <= MaxUpTo(s, k - 1) {
        assert s[t] == MaxUpTo(s, k);
      }
    } else {
      assert s[0] == MaxUpTo(s, k);
    }
  }

  /** The largest entry is one of the entries, and no entry is larger. */
  lemma MaxOfIsMaximum(s: seq<int>)
    requires |s| > 0
    ensures exists t | 0 <= t < |s| :: s[t] == MaxOf(s)
    ensures forall t | 0 <= t < |s| :: s[t] <= MaxOf(s)
  {
    MaxUpToIsMaximum(s, |s|);
  }

  lemma {:induction false} MaxUpToPrefix(a: seq<int>, b: seq<int>, k: int)
    requires 1 <= k <= |a|
    ensures MaxUpTo(a + b, k) == MaxUpTo(a, k)
    decreases k
  {
    assert (a + b)[k - 1] == a[k - 1];
    if k > 1 {
      MaxUpToPrefix(a, b, k - 1);
    }
  }

  lemma {:induction false} MaxUpToSuffix(a: seq<int>, b: seq<int>, k: int)
    requires |a| > 0 && 1 <= k <= |b|
    ensures MaxUpTo(a + b, |a| + k) == Max(MaxOf(a), MaxUpTo(b, k))
    decreases k
  {
    assert (a + b)[|a| + k - 1] == b[k - 1];
    if k > 1 {
      MaxUpToSuffix(a, b, k - 1);
    } else {
      MaxUpToPrefix(a, b, |a|);
    }
  }

  /** The maximum of two non-empty parts of a list is the larger of their
      maxima. */
  lemma MaxOfAppend(a: seq<int>, b: seq<int>)
    requires |a| > 0 && |b| > 0
    ensures MaxOf(a + b) == Max(MaxOf(a), MaxOf(b))
  {
    MaxUpToSuffix(a, b, |b|);
  }

  lemma {:induction false} MaxOfRow(f: int -> int, m: int)
    requires m >= 1
    ensures MaxOf(Row(f, m)) == MaxOver(f, m)
    decreases m
  {
    assert Row(f, m) == Row(f, m - 1) + [f(m - 1)];
    assert MaxOf([f(m - 1)]) == f(m - 1);
    if m > 1 {
      MaxOfRow(f, m - 1);
      MaxOfAppend(Row(f, m - 1), [f(m - 1)]);
    } else {
      assert Row(f, m) == [f(0)];
    }
  }

  lemma {:induction false} MaxOfTableRows(f: (int, int) -> int, n: int, m: int)
    requires n >= 1 && m >= 1
    ensures MaxOf(Table(f, n, m)) == TableMax(f, n, m)
    decreases n
  {
    var prev, last := Table(f, n - 1, m), Row(RowOf(f, n - 1), m);
    assert Table(f, n, m) == prev + last;
    MaxOfRow(RowOf(f, n - 1), m);
    assert RowMaxima(f, m)(n - 1) == MaxOver(RowOf(f, n - 1), m);
    if n > 1 {
      MaxOfTableRows(f, n - 1, m);
      MulMonotone(n - 1, 1, m);
      MaxOfAppend(prev, last);
    } else {
      assert prev + last == last;
    }
  }

  /** Taking `max` of the list two nested loops build yields the largest
      value over both ranges. */
  lemma MaxOfTable(f: (int, int) -> int, n: int, m: int)
    requires n >= 1 && m >= 1
    ensures |Table(f, n, m)| > 0
    ensures MaxOf(Table(f, n, m)) == TableMax(f, n, m)
  {
    MulMonotone(n, 1, m);
    MaxOfTableRows(f, n, m);
  }
}
