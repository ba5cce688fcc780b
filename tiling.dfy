/**
 * Padding, the tile grid, tile extraction and the final crop of the stitching engine
 * (`SegFlow.pad_image`, `_extract_tiles`, `SegFlow._crop_padded` in core.py).
 */
module Tiling {
  import opened Grids

  /** The four pad amounts `pad_top`, `pad_bottom`, `pad_left`, `pad_right`. */
  datatype Padding = Padding(top: nat, bottom: nat, left: nat, right: nat)

  /** Euclidean division is unique: the quotient and remainder are the only ones. */
  lemma DivModUnique(n: int, d: int, q: int, r: int)
    requires d > 0 && 0 <= r < d && n == d * q + r
    ensures n / d == q && n % d == r
  {
    var q', r' := n / d, n % d;
    assert n == d * q' + r';
    if q' < q {
      MulDistinct(d, q', q);
    } else if q' > q {
      MulDistinct(d, q, q');
    }
  }

  /** Two different multiples of d are at least d apart. */
  lemma MulDistinct(d: int, a: int, b: int)
    requires d > 0 && a < b
    ensures d * b - d * a >= d
  {
    var k := b - a;
    assert d * b - d * a == d * k;
    MulAtLeast(d, k);
  }

  lemma {:induction false} MulAtLeast(d: int, k: int)
    requires d > 0 && k >= 1
    ensures d * k >= d
    decreases k
  {
    if k > 1 {
      MulAtLeast(d, k - 1);
      assert d * k == d * (k - 1) + d;
    }
  }

  /** Total padding of one dimension of size `size` (core.py:96-97). */
  function PadTotal(size: nat, tileSize: nat, stride: nat): (total: nat)
    requires stride >= 1
    ensures tileSize <= total < tileSize + stride
  {
    tileSize + (tileSize - (size - tileSize) % stride) % stride
  }

  /** Splits a pad total into the amount before and the amount after the image (core.py:99-102). */
  function SplitPad(total: nat): (r: (nat, nat))
    ensures r.0 + r.1 == total
    ensures r.0 <= r.1 <= r.0 + 1
  {
    (total / 2, total - total / 2)
  }

  /** The padding `pad_image` computes for an h x w image (core.py:95-102). */
  function PadFor(h: nat, w: nat, tileSize: nat, stride: nat): (p: Padding)
    requires stride >= 1
    ensures p.top + p.bottom >= tileSize && p.left + p.right >= tileSize
    ensures p.top <= p.bottom <= p.top + 1 && p.left <= p.right <= p.left + 1
    ensures tileSize >= 1 ==> p.bottom >= 1 && p.right >= 1
  {
    var rows := SplitPad(PadTotal(h, tileSize, stride));
    var cols := SplitPad(PadTotal(w, tileSize, stride));
    Padding(rows.0, rows.1, cols.0, cols.1)
  }

  /** After padding, the extent minus one tile is congruent to twice the tile size modulo the stride. */
  lemma PaddedResidue(size: nat, tileSize: nat, stride: nat)
    requires stride >= 1
    ensures (size + PadTotal(size, tileSize, stride) - tileSize) % stride == (2 * tileSize) % stride
  {
    var T, S := tileSize, stride;
    var a := size - T;
    var q, r := a / S, a % S;
    var b := T - r;
    var q2, e := b / S, b % S;
    assert a == S * q + r;
    assert b == S * q2 + e;
    var n := size + PadTotal(size, T, S) - T;
    assert n == size + e;
    assert n == 2 * T + S * (q - q2);
    var k, m := (2 * T) / S, (2 * T) % S;
    assert 2 * T == S * k + m;
    assert n == S * (k + q - q2) + m;
    DivModUnique(n, S, k + q - q2, m);
  }

  /** The grid of tiles ends flush with the padded edge exactly when the stride divides twice the tile size. */
  lemma FlushIffStrideDividesTwiceTile(size: nat, tileSize: nat, stride: nat)
    requires stride >= 1
    ensures (size + PadTotal(size, tileSize, stride) - tileSize) % stride == 0 <==> (2 * tileSize) % stride == 0
  {
    PaddedResidue(size, tileSize, stride);
  }

  /** Tile 5, stride 3, height 10: the padded height is 15 and `(15 - 5) % 3 == 1`, so the grid is not flush. */
  lemma NotFlushExample()
    ensures PadTotal(10, 5, 3) == 5
    ensures (10 + PadTotal(10, 5, 3) - 5) % 3 == 1
  {
  }

  /** A pad total that always leaves the grid flush: padded size minus one tile is a multiple of the stride. */
  function FlushPadTotal(size: nat, tileSize: nat, stride: nat): (total: nat)
    requires stride >= 1
    ensures tileSize <= total < tileSize + stride
    ensures (size + total - tileSize) % stride == 0
  {
    var e := (stride - size % stride) % stride;
    var q, r := size / stride, size % stride;
    if r == 0 then
      DivModUnique(stride, stride, 1, 0);
      tileSize + e
    else
      DivModUnique(stride - r, stride, 0, stride - r);
      DivModUnique(size + e, stride, q + 1, 0);
      tileSize + e
  }

  /** Where the stride divides twice the tile size (512 and 256 by default) the source's total is the flush one. */
  lemma FlushPadTotalAgrees(size: nat, tileSize: nat, stride: nat)
    requires stride >= 1 && (2 * tileSize) % stride == 0
    ensures FlushPadTotal(size, tileSize, stride) == PadTotal(size, tileSize, stride)
  {
    var t1, t2 := FlushPadTotal(size, tileSize, stride), PadTotal(size, tileSize, stride);
    PaddedResidue(size, tileSize, stride);
    var n1, n2 := size + t1 - tileSize, size + t2 - tileSize;
    var q1, q2 := n1 / stride, n2 / stride;
    assert n1 == stride * q1 && n2 == stride * q2;
    if t1 < t2 {
      DivModUnique(n2, stride, q1, t2 - t1);
    } else if t1 > t2 {
      DivModUnique(n1, stride, q2, t1 - t2);
    }
  }

  /** `range(a, n - tileSize + 1, stride)`: tile offsets along an axis of length n, from `a` on. */
  function StartsFrom(a: nat, n: nat, tileSize: nat, stride: nat): seq<nat>
    requires stride >= 1
    decreases n - a
  {
    if a + tileSize > n then [] else [a] + StartsFrom(a + stride, n, tileSize, stride)
  }

  /** The tile offsets `_extract_tiles` visits along an axis of length n (core.py:438-439). */
  function Starts(n: nat, tileSize: nat, stride: nat): seq<nat>
    requires stride >= 1
  {
    StartsFrom(0, n, tileSize, stride)
  }

  /** Number of tiles along an axis of length n. */
  function NumStarts(n: nat, tileSize: nat, stride: nat): nat
    requires stride >= 1
  {
    if tileSize > n then 0 else (n - tileSize) / stride + 1
  }

  /** Offsets are exactly the values `a + k * stride` whose tile still fits. */
  lemma {:induction false} StartsFromMembers(a: nat, n: nat, tileSize: nat, stride: nat, v: int)
    requires stride >= 1
    ensures v in StartsFrom(a, n, tileSize, stride) <==> a <= v && (v - a) % stride == 0 && v + tileSize <= n
    decreases n - a
  {
    if a + tileSize <= n {
      StartsFromMembers(a + stride, n, tileSize, stride, v);
      var d := v - a;
      if d >= stride {
        DivModUnique(d, stride, (d - stride) / stride + 1, (d - stride) % stride);
      } else if 0 < d {
        DivModUnique(d, stride, 0, d);
      }
    }
  }

  lemma {:induction false} StartsFromLength(a: nat, n: nat, tileSize: nat, stride: nat)
    requires stride >= 1
    ensures |StartsFrom(a, n, tileSize, stride)| == if a + tileSize > n then 0 else (n - tileSize - a) / stride + 1
    decreases n - a
  {
    if a + tileSize <= n {
      StartsFromLength(a + stride, n, tileSize, stride);
      var m := n - tileSize - a;
      if a + stride + tileSize > n {
        DivModUnique(m, stride, 0, m);
      } else {
        DivModUnique(m, stride, (m - stride) / stride + 1, (m - stride) % stride);
      }
    }
  }

  lemma {:induction false} StartsFromIncreasing(a: nat, n: nat, tileSize: nat, stride: nat)
    requires stride >= 1
    ensures forall i :: 0 <= i < |StartsFrom(a, n, tileSize, stride)| ==> StartsFrom(a, n, tileSize, stride)[i] >= a
    ensures forall i, j :: 0 <= i < j < |StartsFrom(a, n, tileSize, stride)| ==>
              StartsFrom(a, n, tileSize, stride)[i] < StartsFrom(a, n, tileSize, stride)[j]
    decreases n - a
  {
    if a + tileSize <= n {
      StartsFromIncreasing(a + stride, n, tileSize, stride);
    }
  }

  /** The tiles of one grid row, left to right. */
  function RowPositions(y: nat, xs: seq<nat>): (r: seq<(nat, nat)>)
    ensures |r| == |xs|
    ensures forall i :: 0 <= i < |xs| ==> r[i] == (y, xs[i])
  {
    seq(|xs|, i requires 0 <= i < |xs| => (y, xs[i]))
  }

  /** All tiles of the grid rows `ys`, row after row. */
  function GridPositions(ys: seq<nat>, xs: seq<nat>): seq<(nat, nat)>
  {
    if ys == [] then [] else RowPositions(ys[0], xs) + GridPositions(ys[1..], xs)
  }

  /** Top-left corners of the tiles `_extract_tiles` cuts from an h x w raster, in its loop order (core.py:438-446). */
  function TilePositions(h: nat, w: nat, tileSize: nat, stride: nat): seq<(nat, nat)>
    requires stride >= 1
  {
    GridPositions(Starts(h, tileSize, stride), Starts(w, tileSize, stride))
  }

  /** A tile placed at `p` lies inside an h x w raster. */
  predicate Fits(p: (nat, nat), h: nat, w: nat, tileSize: nat) {
    p.0 + tileSize <= h && p.1 + tileSize <= w
  }

  /** Strict row-major order of two positions. */
  predicate Before(p: (nat, nat), q: (nat, nat)) {
    p.0 < q.0 || (p.0 == q.0 && p.1 < q.1)
  }

  lemma {:induction false} GridPositionsFacts(ys: seq<nat>, xs: seq<nat>)
    ensures |GridPositions(ys, xs)| == |ys| * |xs|
    ensures forall p :: p in GridPositions(ys, xs) <==> p.0 in ys && p.1 in xs
  {
    if ys != [] {
      GridPositionsFacts(ys[1..], xs);
      var r := GridPositions(ys, xs);
      assert r == RowPositions(ys[0], xs) + GridPositions(ys[1..], xs);
      assert ys == [ys[0]] + ys[1..];
      forall p: (nat, nat) | p.0 in ys && p.1 in xs
        ensures p in r
      {
        if p.0 == ys[0] {
          var i :| 0 <= i < |xs| && xs[i] == p.1;
          assert RowPositions(ys[0], xs)[i] == p;
        } else {
          assert p.0 in ys[1..];
        }
      }
    }
  }

  lemma {:induction false} GridPositionsSorted(ys: seq<nat>, xs: seq<nat>)
    requires forall i, j :: 0 <= i < j < |ys| ==> ys[i] < ys[j]
    requires forall i, j :: 0 <= i < j < |xs| ==> xs[i] < xs[j]
    ensures forall i, j :: 0 <= i < j < |GridPositions(ys, xs)| ==> Before(GridPositions(ys, xs)[i], GridPositions(ys, xs)[j])
  {
    if ys != [] {
      var row, rest := RowPositions(ys[0], xs), GridPositions(ys[1..], xs);
      GridPositionsSorted(ys[1..], xs);
      GridPositionsFacts(ys[1..], xs);
      var r := row + rest;
      forall i, j | 0 <= i < j < |r|
        ensures Before(r[i], r[j])
      {
        if j >= |row| && i < |row| {
          assert rest[j - |row|] in rest;
          var k :| 0 <= k < |ys[1..]| && ys[1..][k] == rest[j - |row|].0;
          assert ys[0] < ys[k + 1];
        }
      }
    }
  }

  /** Every tile position keeps its tile inside the raster. */
  lemma TilePositionsFit(h: nat, w: nat, tileSize: nat, stride: nat)
    requires stride >= 1
    ensures forall k :: 0 <= k < |TilePositions(h, w, tileSize, stride)| ==> Fits(TilePositions(h, w, tileSize, stride)[k], h, w, tileSize)
  {
    var ps := TilePositions(h, w, tileSize, stride);
    TilePositionsExact(h, w, tileSize, stride);
    assert forall k :: 0 <= k < |ps| ==> ps[k] in ps;
  }

  /** The grid is exactly the stride multiples whose tile fits, and it lists them in row-major order. */
  lemma TilePositionsExact(h: nat, w: nat, tileSize: nat, stride: nat)
    requires stride >= 1
    ensures forall p :: p in TilePositions(h, w, tileSize, stride) <==>
              p.0 % stride == 0 && p.1 % stride == 0 && Fits(p, h, w, tileSize)
    ensures forall i, j :: 0 <= i < j < |TilePositions(h, w, tileSize, stride)| ==>
              Before(TilePositions(h, w, tileSize, stride)[i], TilePositions(h, w, tileSize, stride)[j])
  {
    var ys, xs := Starts(h, tileSize, stride), Starts(w, tileSize, stride);
    GridPositionsFacts(ys, xs);
    forall p: (nat, nat)
      ensures p in TilePositions(h, w, tileSize, stride) <==>
              p.0 % stride == 0 && p.1 % stride == 0 && Fits(p, h, w, tileSize)
    {
      StartsFromMembers(0, h, tileSize, stride, p.0);
      StartsFromMembers(0, w, tileSize, stride, p.1);
    }
    StartsFromIncreasing(0, h, tileSize, stride);
    StartsFromIncreasing(0, w, tileSize, stride);
    GridPositionsSorted(ys, xs);
  }

  /** There are `(floor((h - T) / S) + 1) * (floor((w - T) / S) + 1)` tiles when the tile fits at all. */
  lemma TilePositionsCount(h: nat, w: nat, tileSize: nat, stride: nat)
    requires stride >= 1
    ensures |TilePositions(h, w, tileSize, stride)| == NumStarts(h, tileSize, stride) * NumStarts(w, tileSize, stride)
  {
    GridPositionsFacts(Starts(h, tileSize, stride), Starts(w, tileSize, stride));
    StartsFromLength(0, h, tileSize, stride);
    StartsFromLength(0, w, tileSize, stride);
  }

  lemma MulMonotone(d: nat, i: nat, j: nat)
    requires i <= j
    ensures d * i <= d * j
  {
    assert d * j - d * i == d * (j - i);
  }

  /** The stride multiple `S * min(v / S, last)` starts a tile of size T >= S that holds v. */
  lemma NearestStartHolds(S: nat, T: nat, last: nat, v: nat)
    requires 1 <= S <= T && v < S * last + T
    ensures var k := if v / S < last then v / S else last;
            S * k <= v < S * k + T && S * k <= S * last
  {
    var qv := v / S;
    assert v == S * qv + v % S;
    var k := if qv < last then qv else last;
    MulMonotone(S, k, qv);
    MulMonotone(S, k, last);
  }

  /** On a flush grid whose stride is at most the tile size, every index of the axis lies inside some tile. */
  lemma StartsCover(n: nat, tileSize: nat, stride: nat, v: nat)
    requires 1 <= stride <= tileSize <= n && (n - tileSize) % stride == 0 && v < n
    ensures exists a :: a in Starts(n, tileSize, stride) && a <= v < a + tileSize
  {
    var last := (n - tileSize) / stride;
    assert n - tileSize == stride * last;
    NearestStartHolds(stride, tileSize, last, v);
    var k := if v / stride < last then v / stride else last;
    var a := stride * k;
    MultipleInStarts(n, tileSize, stride, k);
  }

  /** Every stride multiple whose tile fits is a tile offset. */
  lemma MultipleInStarts(n: nat, tileSize: nat, stride: nat, k: nat)
    requires stride >= 1 && stride * k + tileSize <= n
    ensures stride * k in Starts(n, tileSize, stride)
  {
    var a := stride * k;
    DivModUnique(a, stride, k, 0);
    assert (a - 0) % stride == 0;
    StartsFromMembers(0, n, tileSize, stride, a);
  }

  /** With the flush pad total and a stride at most the tile size, the tiles cover every padded row. */
  lemma FlushPaddingCovers(size: nat, tileSize: nat, stride: nat, padded: nat, v: nat)
    requires 1 <= stride <= tileSize
    requires padded == size + FlushPadTotal(size, tileSize, stride)
    requires v < padded
    ensures exists a :: a in Starts(padded, tileSize, stride) && a <= v < a + tileSize
  {
    StartsCover(padded, tileSize, stride, v);
  }

  /**
   * Tile 512, stride 350, height 612: the source pads to 1186 rows (287 above, 287 below) and cuts tiles at
   * rows 0 and 350 only, so padded row 898, the image's last row, lies in no tile.
   */
  lemma UncoveredRowExample()
    ensures PadTotal(612, 512, 350) == 574
    ensures SplitPad(574) == (287, 287)
    ensures Starts(1186, 512, 350) == [0, 350]
    ensures forall a :: a in Starts(1186, 512, 350) ==> !(a <= 287 + 611 < a + 512)
  {
    assert StartsFrom(700, 1186, 512, 350) == [];
    assert StartsFrom(350, 1186, 512, 350) == [350];
  }

  /** Taking the next tile of a row moves it from the pending positions to the visited ones. */
  lemma RowStep(visited: seq<(nat, nat)>, y: nat, x: nat, row: seq<nat>, rest: seq<(nat, nat)>)
    ensures visited + RowPositions(y, [x] + row) + rest == (visited + [(y, x)]) + RowPositions(y, row) + rest
  {
    assert RowPositions(y, [x] + row) == [(y, x)] + RowPositions(y, row);
  }

  /** Tile k is the T x T window of `image` at `positions[k]`, and that window fits. */
  ghost predicate TilesAt<P>(image: Grid<P>, tiles: seq<Grid<P>>, positions: seq<(nat, nat)>, tileSize: nat)
    requires IsRect(image, |image|, Width(image))
  {
    |tiles| == |positions| &&
    forall k :: 0 <= k < |tiles| ==>
      Fits(positions[k], |image|, Width(image), tileSize) &&
      tiles[k] == Window(image, positions[k].0, positions[k].1, tileSize, tileSize)
  }

  lemma TilesAtAppend<P>(image: Grid<P>, tiles: seq<Grid<P>>, positions: seq<(nat, nat)>, tileSize: nat, y: nat, x: nat)
    requires IsRect(image, |image|, Width(image))
    requires TilesAt(image, tiles, positions, tileSize)
    requires Fits((y, x), |image|, Width(image), tileSize)
    ensures TilesAt(image, tiles + [Window(image, y, x, tileSize, tileSize)], positions + [(y, x)], tileSize)
  {
  }

  /**
   * `_extract_tiles` (core.py:435-447): the row-major grid of tile windows of `image`.
   * Tile k is the window of `image` at `positions[k]`.
   */
  method ExtractTiles<P>(image: Grid<P>, tileSize: nat, stride: nat) returns (tiles: seq<Grid<P>>, positions: seq<(nat, nat)>)
    requires stride >= 1
    requires IsRect(image, |image|, Width(image))
    ensures positions == TilePositions(|image|, Width(image), tileSize, stride)
    ensures TilesAt(image, tiles, positions, tileSize)
  {
    var h, w := |image|, Width(image);
    ghost var xs := Starts(w, tileSize, stride);
    tiles, positions := [], [];
    var y := 0;
    while y + tileSize <= h
      invariant TilePositions(h, w, tileSize, stride) == positions + GridPositions(StartsFrom(y, h, tileSize, stride), xs)
      invariant TilesAt(image, tiles, positions, tileSize)
      decreases h - y
    {
      ghost var before := positions;
      ghost var rest := GridPositions(StartsFrom(y + stride, h, tileSize, stride), xs);
      assert GridPositions(StartsFrom(y, h, tileSize, stride), xs) == RowPositions(y, xs) + rest;
      tiles, positions := ExtractRow(image, tileSize, stride, y, tiles, positions);
      assert before + (RowPositions(y, xs) + rest) == positions + rest;
      y := y + stride;
    }
  }

  /** The inner loop of `_extract_tiles` (core.py:442-446): appends the tiles of the row starting at y. */
  method ExtractRow<P>(image: Grid<P>, tileSize: nat, stride: nat, y: nat, tiles0: seq<Grid<P>>, positions0: seq<(nat, nat)>)
    returns (tiles: seq<Grid<P>>, positions: seq<(nat, nat)>)
    requires stride >= 1
    requires IsRect(image, |image|, Width(image)) && y + tileSize <= |image|
    requires TilesAt(image, tiles0, positions0, tileSize)
    ensures positions == positions0 + RowPositions(y, Starts(Width(image), tileSize, stride))
    ensures TilesAt(image, tiles, positions, tileSize)
  {
    var w := Width(image);
    tiles, positions := tiles0, positions0;
    var x := 0;
    while x + tileSize <= w
      invariant positions0 + RowPositions(y, Starts(w, tileSize, stride)) ==
                positions + RowPositions(y, StartsFrom(x, w, tileSize, stride))
      invariant TilesAt(image, tiles, positions, tileSize)
      decreases w - x
    {
      RowStep(positions, y, x, StartsFrom(x + stride, w, tileSize, stride), []);
      TilesAtAppend(image, tiles, positions, tileSize, y, x);
      tiles := tiles + [Window(image, y, x, tileSize, tileSize)];
      positions := positions + [(y, x)];
      x := x + stride;
    }
    assert RowPositions(y, []) == [];
  }

  /** `np.pad(img, ...)`: the padded raster; border pixels come from `fill`, which stands for numpy's reflect mode. */
  function PadRaster<P>(img: Grid<P>, h: nat, w: nat, p: Padding, fill: (int, int) -> P): (r: Grid<P>)
    requires IsRect(img, h, w)
    ensures IsRect(r, p.top + h + p.bottom, p.left + w + p.right)
    ensures forall y, x :: 0 <= y < h && 0 <= x < w ==> r[p.top + y][p.left + x] == img[y][x]
  {
    seq(p.top + h + p.bottom, i requires 0 <= i < p.top + h + p.bottom =>
      seq(p.left + w + p.right, j requires 0 <= j < p.left + w + p.right =>
        if p.top <= i < p.top + h && p.left <= j < p.left + w then img[i - p.top][j - p.left]
        else fill(i - p.top, j - p.left)))
  }

  /** `g[:, c0:]`. */
  function ColumnsFrom<T>(g: Grid<T>, c0: int): Grid<T>
  {
    seq(|g|, i requires 0 <= i < |g| => PySlice(g[i], c0, |g[i]|))
  }

  /** `_crop_padded` as written (core.py:410-416), with Python's slice semantics (so `-0` is 0). */
  function CropPadded<T>(g: Grid<T>, p: Padding): Grid<T>
  {
    var cropped := PySlice2(g, p.top, -(p.bottom as int), p.left, -(p.right as int));
    var cropped := if p.bottom == 0 then PySlice2(g, p.top, |g|, p.left, -(p.right as int)) else cropped;
    if p.right == 0 then ColumnsFrom(cropped, p.left) else cropped
  }

  /** `s[a:-b]` for `b >= 1` on a sequence of length `a + len + b` is the middle part. */
  lemma PySliceInterior<T>(s: seq<T>, a: nat, len: nat, b: nat)
    requires b >= 1 && |s| == a + len + b
    ensures PySlice(s, a, -(b as int)) == s[a..a + len]
  {
    assert SliceBound(-(b as int), |s|) == a + len;
  }

  /** Cropping a padded raster leaves the original shape. */
  lemma CropPaddedShape<T>(g: Grid<T>, h: nat, w: nat, p: Padding)
    requires IsRect(g, p.top + h + p.bottom, p.left + w + p.right)
    requires p.bottom >= 1 && p.right >= 1
    ensures IsRect(CropPadded(g, p), h, w)
  {
    CropPaddedIsInterior(g, h, w, p);
  }

  /** Pixel (y, x) of the cropped raster is pixel (top + y, left + x) of the padded one. */
  lemma CropPaddedPixel<T>(g: Grid<T>, h: nat, w: nat, p: Padding, y: nat, x: nat)
    requires IsRect(g, p.top + h + p.bottom, p.left + w + p.right)
    requires p.bottom >= 1 && p.right >= 1
    requires y < h && x < w
    ensures IsRect(CropPadded(g, p), h, w) && CropPadded(g, p)[y][x] == g[p.top + y][p.left + x]
  {
    CropPaddedIsInterior(g, h, w, p);
  }

  /** With both far pads at least 1, as `pad_image` always leaves them, the crop is the unpadded window. */
  lemma CropPaddedIsInterior<T>(g: Grid<T>, h: nat, w: nat, p: Padding)
    requires IsRect(g, p.top + h + p.bottom, p.left + w + p.right)
    requires p.bottom >= 1 && p.right >= 1
    ensures CropPadded(g, p) == Window(g, p.top, p.left, h, w)
  {
    var c := PySlice2(g, p.top, -(p.bottom as int), p.left, -(p.right as int));
    assert CropPadded(g, p) == c;
    var win := Window(g, p.top, p.left, h, w);
    PySliceInterior(g, p.top, h, p.bottom);
    var rows := g[p.top..p.top + h];
    assert |c| == h;
    forall i | 0 <= i < h
      ensures c[i] == win[i]
    {
      assert c[i] == PySlice(rows[i], p.left, -(p.right as int));
      PySliceInterior(g[p.top + i], p.left, w, p.right);
    }
  }

  /** Cropping the padded raster by the recorded pad amounts gives back the original image. */
  lemma CropUndoesPad<P>(img: Grid<P>, h: nat, w: nat, p: Padding, fill: (int, int) -> P)
    requires IsRect(img, h, w)
    requires p.bottom >= 1 && p.right >= 1
    ensures CropPadded(PadRaster(img, h, w, p, fill), p) == img
  {
    var g := PadRaster(img, h, w, p, fill);
    CropPaddedIsInterior(g, h, w, p);
    var win := Window(g, p.top, p.left, h, w);
    forall i | 0 <= i < h
      ensures win[i] == img[i]
    {
      assert forall j :: 0 <= j < w ==> win[i][j] == img[i][j];
    }
  }

  /** With `pad_right == 0` the crop as written yields rows without pixels: line 416 slices an already empty array. */
  lemma ZeroRightPadCropsEverything()
    ensures CropPadded([[7]], Padding(0, 0, 0, 0)) == [[]]
  {
  }
}
