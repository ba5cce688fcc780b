/**
 * The overlap density map of `SegFlow._calculate_overlaps` (core.py:312-334) and the per-instance
 * coverage scores of `SegFlow._calculate_tile_overlaps` (core.py:354-396).
 */
module Overlaps {
  import opened Grids
  import opened Tiling
  import opened Confidence

  /** Tile `tile` placed at `pos` has a nonzero label on padded pixel (y, x). */
  predicate Claims(tile: Grid<nat>, pos: (nat, nat), tileSize: nat, y: int, x: int)
    requires IsRect(tile, tileSize, tileSize)
  {
    pos.0 <= y < pos.0 + tileSize && pos.1 <= x < pos.1 + tileSize && tile[y - pos.0][x - pos.1] > 0
  }

  /** The first `|tiles|` tiles, each at its position. */
  predicate Placed(tiles: seq<Grid<nat>>, positions: seq<(nat, nat)>, tileSize: nat) {
    |tiles| == |positions| && AllTiles(tiles, tileSize)
  }

  /** Reference count: how many of the tiles claim pixel (y, x). */
  function ClaimCount(tiles: seq<Grid<nat>>, positions: seq<(nat, nat)>, tileSize: nat, y: int, x: int): nat
    requires Placed(tiles, positions, tileSize)
  {
    if tiles == [] then 0
    else
      var n := |tiles| - 1;
      ClaimCount(tiles[..n], positions[..n], tileSize, y, x) + (if Claims(tiles[n], positions[n], tileSize, y, x) then 1 else 0)
  }

  /** The raster of claim counts over an h x w padded image. */
  function ClaimGrid(tiles: seq<Grid<nat>>, positions: seq<(nat, nat)>, tileSize: nat, h: nat, w: nat): (d: Grid<int>)
    requires Placed(tiles, positions, tileSize)
    ensures IsRect(d, h, w)
  {
    seq(h, y requires 0 <= y < h => seq(w, x requires 0 <= x < w => ClaimCount(tiles, positions, tileSize, y, x) as int))
  }

  /** One iteration of core.py:316-334: where the tile is nonzero, a covered pixel goes up by one and an uncovered one becomes 1. */
  function AddClaims(d: Grid<int>, tile: Grid<nat>, pos: (nat, nat), tileSize: nat): (r: Grid<int>)
    requires IsRect(tile, tileSize, tileSize)
    ensures SameShape(d, r)
  {
    seq(|d|, y requires 0 <= y < |d| => seq(|d[y]|, x requires 0 <= x < |d[y]| =>
      if Claims(tile, pos, tileSize, y, x) then (if d[y][x] > 0 then d[y][x] + 1 else 1) else d[y][x]))
  }

  lemma ClaimCountStep(tiles: seq<Grid<nat>>, positions: seq<(nat, nat)>, tileSize: nat, k: nat, y: int, x: int)
    requires Placed(tiles, positions, tileSize) && k < |tiles|
    ensures ClaimCount(tiles[..k + 1], positions[..k + 1], tileSize, y, x) ==
            ClaimCount(tiles[..k], positions[..k], tileSize, y, x) + (if Claims(tiles[k], positions[k], tileSize, y, x) then 1 else 0)
  {
    assert tiles[..k + 1][..k] == tiles[..k];
    assert positions[..k + 1][..k] == positions[..k];
  }

  /** Adding the next tile's claims to the counts of the earlier tiles gives the counts including it. */
  lemma AddClaimsCounts(tiles: seq<Grid<nat>>, positions: seq<(nat, nat)>, tileSize: nat, k: nat, h: nat, w: nat)
    requires Placed(tiles, positions, tileSize) && k < |tiles|
    ensures AddClaims(ClaimGrid(tiles[..k], positions[..k], tileSize, h, w), tiles[k], positions[k], tileSize) ==
            ClaimGrid(tiles[..k + 1], positions[..k + 1], tileSize, h, w)
  {
    var before := ClaimGrid(tiles[..k], positions[..k], tileSize, h, w);
    var after := ClaimGrid(tiles[..k + 1], positions[..k + 1], tileSize, h, w);
    var r := AddClaims(before, tiles[k], positions[k], tileSize);
    forall y | 0 <= y < h
      ensures r[y] == after[y]
    {
      forall x | 0 <= x < w
        ensures r[y][x] == after[y][x]
      {
        ClaimCountStep(tiles, positions, tileSize, k, y, x);
      }
    }
  }

  /**
   * `_calculate_overlaps`: the overlap mask counts, at every pixel of the h x w padded image,
   * the tiles with a nonzero label there.
   */
  method CalculateOverlaps(tiles: seq<Grid<nat>>, positions: seq<(nat, nat)>, tileSize: nat, h: nat, w: nat) returns (d: Grid<int>)
    requires Placed(tiles, positions, tileSize)
    ensures d == ClaimGrid(tiles, positions, tileSize, h, w)
  {
    d := Fill(h, w, 0);
    assert tiles[..0] == [] && positions[..0] == [];
    ghost var none := ClaimGrid(tiles[..0], positions[..0], tileSize, h, w);
    forall y | 0 <= y < h
      ensures d[y] == none[y]
    {
      assert forall x :: 0 <= x < w ==> d[y][x] == none[y][x];
    }
    var k := 0;
    while k < |tiles|
      invariant k <= |tiles|
      invariant d == ClaimGrid(tiles[..k], positions[..k], tileSize, h, w)
    {
      AddClaimsCounts(tiles, positions, tileSize, k, h, w);
      d := AddClaims(d, tiles[k], positions[k], tileSize);
      k := k + 1;
    }
    assert tiles[..k] == tiles && positions[..k] == positions;
  }

  /** A pixel has a positive count exactly when some tile claims it. */
  lemma {:induction false} ClaimCountPositive(tiles: seq<Grid<nat>>, positions: seq<(nat, nat)>, tileSize: nat, y: int, x: int)
    requires Placed(tiles, positions, tileSize)
    ensures ClaimCount(tiles, positions, tileSize, y, x) > 0 <==>
            exists k :: 0 <= k < |tiles| && Claims(tiles[k], positions[k], tileSize, y, x)
  {
    if tiles != [] {
      var n := |tiles| - 1;
      ClaimCountPositive(tiles[..n], positions[..n], tileSize, y, x);
      if exists k :: 0 <= k < |tiles| && Claims(tiles[k], positions[k], tileSize, y, x) {
        var k :| 0 <= k < |tiles| && Claims(tiles[k], positions[k], tileSize, y, x);
        if k < n {
          assert Claims(tiles[..n][k], positions[..n][k], tileSize, y, x);
        }
      }
    }
  }

  /** A count never exceeds the number of tiles. */
  lemma {:induction false} ClaimCountAtMost(tiles: seq<Grid<nat>>, positions: seq<(nat, nat)>, tileSize: nat, y: int, x: int)
    requires Placed(tiles, positions, tileSize)
    ensures ClaimCount(tiles, positions, tileSize, y, x) <= |tiles|
  {
    if tiles != [] {
      var n := |tiles| - 1;
      ClaimCountAtMost(tiles[..n], positions[..n], tileSize, y, x);
    }
  }

  /** `w1 * mean + w2 * sum` of the overlap values under one instance (core.py:384-390). */
  function InstanceScore(sum: int, count: nat, w1: real, w2: real): real
    requires count > 0
  {
    w1 * (sum as real / count as real) + w2 * sum as real
  }

  /** The scores `_calculate_tile_overlaps` records for one tile: every nonzero label with at least `minPixels` pixels. */
  function TileScores(tile: Grid<nat>, overlap: Grid<int>, w1: real, w2: real, minPixels: nat): (scores: map<nat, real>)
    requires SameShape(tile, overlap)
    ensures forall v :: v in scores <==> v in Values(tile) && v != 0 && Count(tile, v) >= minPixels
  {
    map v | v in Values(tile) - {0} && Count(tile, v) >= minPixels :: LabelScore(tile, overlap, w1, w2, v)
  }

  /** The score of one label (the body of the loop of core.py:375-393). */
  function LabelScore(tile: Grid<nat>, overlap: Grid<int>, w1: real, w2: real, v: nat): real
    requires SameShape(tile, overlap) && v in Values(tile)
  {
    CountPositive(tile, v);
    InstanceScore(MaskedSum(tile, overlap, v), Count(tile, v), w1, w2)
  }

  /** The label loop of core.py:369-393 for one tile: it builds exactly `TileScores`. */
  method ScoreTile(tile: Grid<nat>, overlap: Grid<int>, w1: real, w2: real, minPixels: nat) returns (scores: map<nat, real>)
    requires SameShape(tile, overlap)
    ensures scores == TileScores(tile, overlap, w1, w2, minPixels)
  {
    var labels := Values(tile) - {0};
    ghost var done: set<nat> := {};
    scores := map[];
    while labels != {}
      invariant labels + done == Values(tile) - {0} && labels !! done
      invariant forall v :: v in scores <==> v in done && Count(tile, v) >= minPixels
      invariant forall v :: v in scores ==> v in Values(tile) && scores[v] == LabelScore(tile, overlap, w1, w2, v)
      decreases labels
    {
      var v :| v in labels;
      var numPixels := Count(tile, v);
      if numPixels >= minPixels {
        CountPositive(tile, v);
        var sumOverlap := MaskedSum(tile, overlap, v);
        scores := scores[v := InstanceScore(sumOverlap, numPixels, w1, w2)];
      }
      labels := labels - {v};
      done := done + {v};
    }
    var spec := TileScores(tile, overlap, w1, w2, minPixels);
    assert forall v :: v in scores ==> scores[v] == spec[v];
  }

  /** Where every pixel of an instance has overlap at least 1, its score is at least `w1 + w2 * count`. */
  lemma ScoreAtLeast(tile: Grid<nat>, overlap: Grid<int>, w1: real, w2: real, v: nat)
    requires SameShape(tile, overlap) && v in Values(tile)
    requires w1 >= 0.0 && w2 >= 0.0
    requires forall y, x :: 0 <= y < |tile| && 0 <= x < |tile[y]| && tile[y][x] == v ==> overlap[y][x] >= 1
    ensures LabelScore(tile, overlap, w1, w2, v) >= w1 + w2 * Count(tile, v) as real
  {
    CountPositive(tile, v);
    MaskedSumAtLeastCount(tile, overlap, v);
    InstanceScoreAtLeast(MaskedSum(tile, overlap, v), Count(tile, v), w1, w2);
  }

  lemma InstanceScoreAtLeast(sum: int, count: nat, w1: real, w2: real)
    requires count > 0 && sum >= count && w1 >= 0.0 && w2 >= 0.0
    ensures InstanceScore(sum, count, w1, w2) >= w1 + w2 * count as real
  {
    var s, c := sum as real, count as real;
    MeanAtLeastOne(s, c);
    MulMonotone(w1, 1.0, s / c);
    MulMonotone(w2, c, s);
  }

  lemma MeanAtLeastOne(s: real, c: real)
    requires c > 0.0 && s >= c
    ensures s / c >= 1.0
  {
    var m := s / c;
    assert m * c == s;
    if m < 1.0 {
      MulMonotone(c, m, 1.0);
    }
  }

  lemma MulMonotone(k: real, a: real, b: real)
    requires k >= 0.0 && a <= b
    ensures k * a <= k * b
  {
    assert k * b - k * a == k * (b - a);
  }

  /** The coverage dictionaries of core.py:354-396: tile k is scored against the window of `density` at the k-th grid position. */
  function Coverage(conf: seq<Grid<nat>>, density: Grid<int>, tileSize: nat, stride: nat, w1: real, w2: real, minPixels: nat)
    : (coverage: seq<map<nat, real>>)
    requires stride >= 1
    requires IsRect(density, |density|, Width(density))
    requires AllTiles(conf, tileSize)
    ensures |coverage| == Min(|conf|, |TilePositions(|density|, Width(density), tileSize, stride)|)
  {
    var ps := TilePositions(|density|, Width(density), tileSize, stride);
    TilePositionsFit(|density|, Width(density), tileSize, stride);
    seq(Min(|conf|, |ps|), k requires 0 <= k < Min(|conf|, |ps|) =>
      TileScores(conf[k], Window(density, ps[k].0, ps[k].1, tileSize, tileSize), w1, w2, minPixels))
  }

  /** The length of `zip(a, b)`. */
  function Min(a: nat, b: nat): nat {
    if a < b then a else b
  }

  /** Entry k of the coverage list scores tile k against the density window at the k-th grid position. */
  lemma CoverageAt(conf: seq<Grid<nat>>, density: Grid<int>, tileSize: nat, stride: nat, w1: real, w2: real, minPixels: nat, k: nat)
    requires stride >= 1
    requires IsRect(density, |density|, Width(density))
    requires AllTiles(conf, tileSize)
    requires k < |Coverage(conf, density, tileSize, stride, w1, w2, minPixels)|
    ensures var ps := TilePositions(|density|, Width(density), tileSize, stride);
            k < |ps| && Fits(ps[k], |density|, Width(density), tileSize) &&
            Coverage(conf, density, tileSize, stride, w1, w2, minPixels)[k] ==
              TileScores(conf[k], Window(density, ps[k].0, ps[k].1, tileSize, tileSize), w1, w2, minPixels)
  {
    TilePositionsFit(|density|, Width(density), tileSize, stride);
  }

  /** Under every nonzero pixel of a placed tile that fits, the overlap count is at least 1. */
  lemma DensityUnderTile(tiles: seq<Grid<nat>>, positions: seq<(nat, nat)>, tileSize: nat, h: nat, w: nat, k: nat)
    requires Placed(tiles, positions, tileSize) && k < |tiles|
    requires Fits(positions[k], h, w, tileSize)
    ensures var window := Window(ClaimGrid(tiles, positions, tileSize, h, w), positions[k].0, positions[k].1, tileSize, tileSize);
            forall ty, tx :: 0 <= ty < |tiles[k]| && 0 <= tx < |tiles[k][ty]| && tiles[k][ty][tx] != 0 ==> window[ty][tx] >= 1
  {
    var d := ClaimGrid(tiles, positions, tileSize, h, w);
    var p := positions[k];
    var window := Window(d, p.0, p.1, tileSize, tileSize);
    forall ty, tx | 0 <= ty < |tiles[k]| && 0 <= tx < |tiles[k][ty]| && tiles[k][ty][tx] != 0
      ensures window[ty][tx] >= 1
    {
      var y, x := p.0 + ty, p.1 + tx;
      assert window[ty][tx] == d[y][x] == ClaimCount(tiles, positions, tileSize, y, x) as int;
      assert Claims(tiles[k], p, tileSize, y, x);
      ClaimCountPositive(tiles, positions, tileSize, y, x);
    }
  }

  /** Every recorded score is at least `w1 + w2 * (number of pixels of the instance)`. */
  predicate ScoredAtLeast(scores: map<nat, real>, tile: Grid<nat>, w1: real, w2: real) {
    forall v :: v in scores ==> scores[v] >= w1 + w2 * Count(tile, v) as real
  }

  /** Where every labelled pixel of a tile has overlap at least 1, each recorded score is at least `w1 + w2 * count`. */
  lemma TileScoresAtLeast(tile: Grid<nat>, overlap: Grid<int>, w1: real, w2: real, minPixels: nat)
    requires SameShape(tile, overlap)
    requires w1 >= 0.0 && w2 >= 0.0
    requires forall y, x :: 0 <= y < |tile| && 0 <= x < |tile[y]| && tile[y][x] != 0 ==> overlap[y][x] >= 1
    ensures ScoredAtLeast(TileScores(tile, overlap, w1, w2, minPixels), tile, w1, w2)
  {
    forall v | v in TileScores(tile, overlap, w1, w2, minPixels)
      ensures TileScores(tile, overlap, w1, w2, minPixels)[v] >= w1 + w2 * Count(tile, v) as real
    {
      ScoreAtLeast(tile, overlap, w1, w2, v);
    }
  }

  /**
   * When the tiles sit at the grid positions of the padded image, the overlap count under every labelled
   * pixel is at least 1, so each recorded score is at least `w1 + w2 * (number of pixels of the instance)`.
   */
  lemma CoverageScoresAtLeast(conf: seq<Grid<nat>>, positions: seq<(nat, nat)>, h: nat, w: nat, tileSize: nat, stride: nat,
                              w1: real, w2: real, minPixels: nat, k: nat)
    requires tileSize >= 1 && stride >= 1 && Placed(conf, positions, tileSize)
    requires |positions| <= |TilePositions(h, w, tileSize, stride)|
    requires positions == TilePositions(h, w, tileSize, stride)[..|positions|]
    requires w1 >= 0.0 && w2 >= 0.0
    ensures var coverage := Coverage(conf, ClaimGrid(conf, positions, tileSize, h, w), tileSize, stride, w1, w2, minPixels);
            k < |coverage| ==> ScoredAtLeast(coverage[k], conf[k], w1, w2)
  {
    var density := ClaimGrid(conf, positions, tileSize, h, w);
    var coverage := Coverage(conf, density, tileSize, stride, w1, w2, minPixels);
    if k < |coverage| {
      CoverageAt(conf, density, tileSize, stride, w1, w2, minPixels, k);
      assert |density| == h >= 1 && Width(density) == w;
      assert TilePositions(|density|, Width(density), tileSize, stride) == TilePositions(h, w, tileSize, stride);
      var p := positions[k];
      DensityUnderTile(conf, positions, tileSize, h, w, k);
      TileScoresAtLeast(conf[k], Window(density, p.0, p.1, tileSize, tileSize), w1, w2, minPixels);
    }
  }

  /** `_calculate_tile_overlaps`: re-tiles the overlap mask and scores every tile's instances (core.py:354-396). */
  method CalculateTileOverlaps(conf: seq<Grid<nat>>, density: Grid<int>, tileSize: nat, stride: nat,
                               w1: real, w2: real, minPixels: nat)
    returns (coverage: seq<map<nat, real>>)
    requires stride >= 1
    requires IsRect(density, |density|, Width(density))
    requires AllTiles(conf, tileSize)
    ensures coverage == Coverage(conf, density, tileSize, stride, w1, w2, minPixels)
  {
    var overlapTiles, ps := ExtractTiles(density, tileSize, stride);
    var n := Min(|conf|, |overlapTiles|);
    coverage := [];
    var k := 0;
    while k < n
      invariant k <= n && |coverage| == k
      invariant forall j :: 0 <= j < k ==>
                  coverage[j] == TileScores(conf[j], Window(density, ps[j].0, ps[j].1, tileSize, tileSize), w1, w2, minPixels)
    {
      var scores := ScoreTile(conf[k], overlapTiles[k], w1, w2, minPixels);
      coverage := coverage + [scores];
      k := k + 1;
    }
  }
}
