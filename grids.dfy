/** Two-dimensional rasters as values, and the numpy idioms the source applies to them. */
module Grids {

  /** A raster stored row by row: `g[y][x]` is the pixel in row y, column x. */
  type Grid<T> = seq<seq<T>>

  /** `g` has h rows of w pixels each (numpy shape `(h, w)`). */
  predicate IsRect<T>(g: Grid<T>, h: nat, w: nat) {
    |g| == h && forall y :: 0 <= y < h ==> |g[y]| == w
  }

  /** Number of columns of a raster (0 for a raster with no rows). */
  function Width<T>(g: Grid<T>): nat {
    if |g| == 0 then 0 else |g[0]|
  }

  /** `np.full((h, w), v)`. */
  function Fill<T>(h: nat, w: nat, v: T): (g: Grid<T>)
    ensures IsRect(g, h, w)
    ensures forall y, x :: 0 <= y < h && 0 <= x < w ==> g[y][x] == v
  {
    seq(h, _ => seq(w, _ => v))
  }

  /** `g[top:top+h, left:left+w]` for a window that lies inside `g`. */
  function Window<T>(g: Grid<T>, top: nat, left: nat, h: nat, w: nat): (r: Grid<T>)
    requires top + h <= |g|
    requires forall y :: top <= y < top + h ==> left + w <= |g[y]|
    ensures IsRect(r, h, w)
    ensures forall y, x :: 0 <= y < h && 0 <= x < w ==> r[y][x] == g[top + y][left + x]
  {
    seq(h, i requires 0 <= i < h => g[top + i][left .. left + w])
  }

  /** The set of pixel values of a raster (`set(np.unique(g))`). */
  function Values<T>(g: Grid<T>): (s: set<T>)
    ensures forall y, x :: 0 <= y < |g| && 0 <= x < |g[y]| ==> g[y][x] in s
    ensures forall v :: v in s ==> exists y, x :: 0 <= y < |g| && 0 <= x < |g[y]| && g[y][x] == v
  {
    set y, x | 0 <= y < |g| && 0 <= x < |g[y]| :: g[y][x]
  }

  /** Number of entries of a row equal to `v`. */
  function RowCount<T(==)>(row: seq<T>, v: T): nat
  {
    if row == [] then 0 else RowCount(row[..|row| - 1], v) + (if row[|row| - 1] == v then 1 else 0)
  }

  /** `np.sum(g == v)`: the number of pixels equal to `v`. */
  function Count<T(==)>(g: Grid<T>, v: T): nat
  {
    if g == [] then 0 else Count(g[..|g| - 1], v) + RowCount(g[|g| - 1], v)
  }

  lemma {:induction false} RowCountPositive<T>(row: seq<T>, v: T)
    ensures RowCount(row, v) > 0 <==> v in row
  {
    if row != [] {
      var init := row[..|row| - 1];
      RowCountPositive(init, v);
      assert row == init + [row[|row| - 1]];
    }
  }

  /** A value occurs in a raster exactly when it has at least one pixel. */
  lemma {:induction false} CountPositive<T>(g: Grid<T>, v: T)
    ensures Count(g, v) > 0 <==> v in Values(g)
  {
    if g != [] {
      var init, last := g[..|g| - 1], g[|g| - 1];
      CountPositive(init, v);
      RowCountPositive(last, v);
      if v in Values(g) {
        var y, x :| 0 <= y < |g| && 0 <= x < |g[y]| && g[y][x] == v;
        if y < |g| - 1 {
          assert init[y][x] == v;
        } else {
          assert last[x] == v;
        }
      }
      if v in Values(init) {
        var y, x :| 0 <= y < |init| && 0 <= x < |init[y]| && init[y][x] == v;
        assert g[y][x] == v;
      }
      if v in last {
        var x :| 0 <= x < |last| && last[x] == v;
        assert g[|g| - 1][x] == v;
      }
    }
  }

  /** `|drow| == |row|`, row by row: `d` has the shape of `g`. */
  predicate SameShape<T, U>(g: Grid<T>, d: Grid<U>) {
    |d| == |g| && forall y :: 0 <= y < |g| ==> |d[y]| == |g[y]|
  }

  function RowMaskedSum(row: seq<nat>, drow: seq<int>, v: nat): int
    requires |drow| == |row|
  {
    if row == [] then 0
    else RowMaskedSum(row[..|row| - 1], drow[..|row| - 1], v) + (if row[|row| - 1] == v then drow[|row| - 1] else 0)
  }

  /** `np.sum(d[g == v])`: the sum of `d` over the pixels where `g` equals `v`. */
  function MaskedSum(g: Grid<nat>, d: Grid<int>, v: nat): int
    requires SameShape(g, d)
  {
    if g == [] then 0
    else MaskedSum(g[..|g| - 1], d[..|g| - 1], v) + RowMaskedSum(g[|g| - 1], d[|g| - 1], v)
  }

  lemma {:induction false} RowMaskedSumAtLeastCount(row: seq<nat>, drow: seq<int>, v: nat)
    requires |drow| == |row|
    requires forall x :: 0 <= x < |row| && row[x] == v ==> drow[x] >= 1
    ensures RowMaskedSum(row, drow, v) >= RowCount(row, v)
  {
    if row != [] {
      RowMaskedSumAtLeastCount(row[..|row| - 1], drow[..|row| - 1], v);
    }
  }

  /** Where `d` is at least 1 on every pixel of `v`, summing `d` over them gives at least their number. */
  lemma {:induction false} MaskedSumAtLeastCount(g: Grid<nat>, d: Grid<int>, v: nat)
    requires SameShape(g, d)
    requires forall y, x :: 0 <= y < |g| && 0 <= x < |g[y]| && g[y][x] == v ==> d[y][x] >= 1
    ensures MaskedSum(g, d, v) >= Count(g, v)
  {
    if g != [] {
      var n := |g| - 1;
      MaskedSumAtLeastCount(g[..n], d[..n], v);
      forall x | 0 <= x < |g[n]| && g[n][x] == v
        ensures d[n][x] >= 1
      {
      }
      RowMaskedSumAtLeastCount(g[n], d[n], v);
    }
  }

  /** Largest entry of a row (0 for an empty row). */
  function RowMax(row: seq<nat>): (m: nat)
    ensures forall x :: 0 <= x < |row| ==> row[x] <= m
    ensures m == 0 || m in row
  {
    if row == [] then 0
    else
      var m' := RowMax(row[..|row| - 1]);
      if row[|row| - 1] > m' then row[|row| - 1] else m'
  }

  /** `g.max()` for a raster of labels (0 for a raster without pixels). */
  function MaxValue(g: Grid<nat>): (m: nat)
    ensures forall y, x :: 0 <= y < |g| && 0 <= x < |g[y]| ==> g[y][x] <= m
    ensures m == 0 || m in Values(g)
  {
    if g == [] then 0
    else
      var m', r := MaxValue(g[..|g| - 1]), RowMax(g[|g| - 1]);
      assert forall y, x :: 0 <= y < |g| - 1 && 0 <= x < |g[y]| ==> g[..|g| - 1][y][x] == g[y][x];
      if r > m' then
        assert r != 0 ==> r in g[|g| - 1];
        r
      else
        assert m' != 0 ==> exists y, x :: 0 <= y < |g| - 1 && 0 <= x < |g[y]| && g[y][x] == m';
        m'
  }

  /** `np.where(np.isin(g, labels), 0, g)`: pixels whose value is in `labels` become 0. */
  function ZeroOut(g: Grid<int>, labels: set<int>): (r: Grid<int>)
    ensures SameShape(g, r)
    ensures forall y, x :: 0 <= y < |g| && 0 <= x < |g[y]| ==> r[y][x] == if g[y][x] in labels then 0 else g[y][x]
  {
    seq(|g|, y requires 0 <= y < |g| => seq(|g[y]|, x requires 0 <= x < |g[y]| => if g[y][x] in labels then 0 else g[y][x]))
  }

  /** A slice bound as Python normalises it for a sequence of length `n` (negative counts from the end). */
  function SliceBound(i: int, n: nat): (b: nat)
    ensures b <= n
  {
    if i < 0 then (if n + i < 0 then 0 else n + i) else if i > n then n else i
  }

  /** `s[start:stop]` with Python's slice semantics. */
  function PySlice<T>(s: seq<T>, start: int, stop: int): seq<T>
  {
    var a, b := SliceBound(start, |s|), SliceBound(stop, |s|);
    if a < b then s[a..b] else []
  }

  /** `g[r0:r1, c0:c1]` with Python's slice semantics on both axes. */
  function PySlice2<T>(g: Grid<T>, r0: int, r1: int, c0: int, c1: int): Grid<T>
  {
    var rows := PySlice(g, r0, r1);
    seq(|rows|, i requires 0 <= i < |rows| => PySlice(rows[i], c0, c1))
  }

  /** The indices `i < n` with `keep(i)`, in increasing order (a list built by a filtering loop). */
  function FilterIndices(n: nat, keep: nat -> bool): (r: seq<nat>)
    ensures forall i: nat :: i in r <==> i < n && keep(i)
    ensures forall j, k :: 0 <= j < k < |r| ==> r[j] < r[k]
  {
    if n == 0 then []
    else
      var init := FilterIndices(n - 1, keep);
      assert forall j :: 0 <= j < |init| ==> init[j] in init;
      init + (if keep(n - 1) then [n - 1] else [])
  }
}
