/**
 * The recombination loop of `SegFlow.ingest_tile_segmentation` (core.py:184-235): tiles are painted into
 * the padded mask in order, and a tile's instance replaces what is there only where its coverage score is
 * strictly higher than the score already recorded for that pixel.
 */
module Recombine {
  import opened Wrappers
  import opened Grids
  import opened Confidence
  import opened Overlaps

  /** The full segmentation mask and the full score map being assembled. */
  datatype Canvas = Canvas(labels: Grid<nat>, scores: Grid<real>)

  predicate CanvasShape(c: Canvas, h: nat, w: nat) {
    IsRect(c.labels, h, w) && IsRect(c.scores, h, w)
  }

  /** `tile_score_map` at a tile pixel: the score of its label, or 0 for background and unscored labels (core.py:206-209). */
  function TileScore(tile: Grid<nat>, scores: map<nat, real>, ty: int, tx: int): real
    requires 0 <= ty < |tile| && 0 <= tx < |tile[ty]|
  {
    if tile[ty][tx] in scores then scores[tile[ty][tx]] else 0.0
  }

  /** The tile replaces padded pixel (y, x): it has a label there whose score beats the recorded one (core.py:211-215). */
  predicate Overwrites(c: Canvas, tile: Grid<nat>, scores: map<nat, real>, pos: (nat, nat), tileSize: nat, y: int, x: int)
    requires IsRect(tile, tileSize, tileSize)
    requires 0 <= y < |c.scores| && 0 <= x < |c.scores[y]|
  {
    Claims(tile, pos, tileSize, y, x) && TileScore(tile, scores, y - pos.0, x - pos.1) > c.scores[y][x]
  }

  /** One iteration of the loop of core.py:192-227 for a tile at `pos` with coverage `scores`. */
  function Arbitrate(c: Canvas, tile: Grid<nat>, scores: map<nat, real>, pos: (nat, nat), tileSize: nat): (r: Canvas)
    requires IsRect(tile, tileSize, tileSize) && SameShape(c.labels, c.scores)
    ensures SameShape(c.labels, r.labels) && SameShape(c.labels, r.scores)
  {
    var labels := seq(|c.labels|, y requires 0 <= y < |c.labels| => seq(|c.labels[y]|, x requires 0 <= x < |c.labels[y]| =>
      if Overwrites(c, tile, scores, pos, tileSize, y, x) then tile[y - pos.0][x - pos.1] else c.labels[y][x]));
    var best := seq(|c.labels|, y requires 0 <= y < |c.labels| => seq(|c.labels[y]|, x requires 0 <= x < |c.labels[y]| =>
      if Overwrites(c, tile, scores, pos, tileSize, y, x) then TileScore(tile, scores, y - pos.0, x - pos.1) else c.scores[y][x]));
    Canvas(labels, best)
  }

  /**
   * Pixel (y, x) takes the tile's label and score exactly when the tile overwrites it; otherwise the label
   * and the score stay.
   */
  lemma ArbitratePixel(c: Canvas, tile: Grid<nat>, scores: map<nat, real>, pos: (nat, nat), tileSize: nat, y: nat, x: nat)
    requires IsRect(tile, tileSize, tileSize) && SameShape(c.labels, c.scores)
    requires y < |c.labels| && x < |c.labels[y]|
    ensures var r := Arbitrate(c, tile, scores, pos, tileSize);
            if Overwrites(c, tile, scores, pos, tileSize, y, x)
            then r.labels[y][x] == tile[y - pos.0][x - pos.1] && r.scores[y][x] == TileScore(tile, scores, y - pos.0, x - pos.1)
            else r.labels[y][x] == c.labels[y][x] && r.scores[y][x] == c.scores[y][x]
  {
  }

  /** After a tile is painted, no score went down, and every pixel it labels scores at least as high as the tile there. */
  lemma ArbitrateKeepsBest(c: Canvas, tile: Grid<nat>, scores: map<nat, real>, pos: (nat, nat), tileSize: nat, y: nat, x: nat)
    requires IsRect(tile, tileSize, tileSize) && SameShape(c.labels, c.scores)
    requires y < |c.labels| && x < |c.labels[y]|
    ensures var r := Arbitrate(c, tile, scores, pos, tileSize);
            r.scores[y][x] >= c.scores[y][x] &&
            (Claims(tile, pos, tileSize, y, x) ==> r.scores[y][x] >= TileScore(tile, scores, y - pos.0, x - pos.1))
  {
    ArbitratePixel(c, tile, scores, pos, tileSize, y, x);
  }

  /** The canvas after painting the tiles in order onto an empty h x w canvas. */
  function Mosaic(tiles: seq<Grid<nat>>, positions: seq<(nat, nat)>, coverage: seq<map<nat, real>>, tileSize: nat, h: nat, w: nat): (c: Canvas)
    requires Placed(tiles, positions, tileSize) && |coverage| == |tiles|
    ensures CanvasShape(c, h, w)
  {
    if tiles == [] then Canvas(Fill(h, w, 0), Fill(h, w, 0.0))
    else
      var n := |tiles| - 1;
      Arbitrate(Mosaic(tiles[..n], positions[..n], coverage[..n], tileSize, h, w), tiles[n], coverage[n], positions[n], tileSize)
  }

  /** Scores never drop below 0, the score of an empty canvas. */
  lemma {:induction false} MosaicScoresNonnegative(tiles: seq<Grid<nat>>, positions: seq<(nat, nat)>, coverage: seq<map<nat, real>>,
                                                   tileSize: nat, h: nat, w: nat, y: nat, x: nat)
    requires Placed(tiles, positions, tileSize) && |coverage| == |tiles|
    requires y < h && x < w
    ensures Mosaic(tiles, positions, coverage, tileSize, h, w).scores[y][x] >= 0.0
  {
    if tiles != [] {
      var n := |tiles| - 1;
      MosaicScoresNonnegative(tiles[..n], positions[..n], coverage[..n], tileSize, h, w, y, x);
      ArbitrateKeepsBest(Mosaic(tiles[..n], positions[..n], coverage[..n], tileSize, h, w), tiles[n], coverage[n], positions[n], tileSize, y, x);
    }
  }

  /** The recorded score of a pixel is at least the score of every tile that claims it: the best instance wins. */
  lemma {:induction false} MosaicBest(tiles: seq<Grid<nat>>, positions: seq<(nat, nat)>, coverage: seq<map<nat, real>>,
                                      tileSize: nat, h: nat, w: nat, k: nat, y: nat, x: nat)
    requires Placed(tiles, positions, tileSize) && |coverage| == |tiles|
    requires k < |tiles| && y < h && x < w
    requires Claims(tiles[k], positions[k], tileSize, y, x)
    ensures Mosaic(tiles, positions, coverage, tileSize, h, w).scores[y][x] >=
            TileScore(tiles[k], coverage[k], y - positions[k].0, x - positions[k].1)
  {
    var n := |tiles| - 1;
    var prev := Mosaic(tiles[..n], positions[..n], coverage[..n], tileSize, h, w);
    ArbitrateKeepsBest(prev, tiles[n], coverage[n], positions[n], tileSize, y, x);
    if k < n {
      MosaicBest(tiles[..n], positions[..n], coverage[..n], tileSize, h, w, k, y, x);
    }
  }

  /** Tile k claims pixel (y, x) with label `lab`, which its coverage scores at `score`. */
  predicate ScoredBy(tiles: seq<Grid<nat>>, positions: seq<(nat, nat)>, coverage: seq<map<nat, real>>,
                     tileSize: nat, k: nat, y: int, x: int, lab: nat, score: real)
    requires Placed(tiles, positions, tileSize) && |coverage| == |tiles| && k < |tiles|
  {
    Claims(tiles[k], positions[k], tileSize, y, x) &&
    tiles[k][y - positions[k].0][x - positions[k].1] == lab && lab in coverage[k] && coverage[k][lab] == score
  }

  /** A labelled pixel carries the label and score of a scored instance of a tile that claims it. */
  predicate FromScoredInstance(tiles: seq<Grid<nat>>, positions: seq<(nat, nat)>, coverage: seq<map<nat, real>>,
                               tileSize: nat, y: int, x: int, lab: nat, score: real)
    requires Placed(tiles, positions, tileSize) && |coverage| == |tiles|
  {
    exists k :: 0 <= k < |tiles| && ScoredBy(tiles, positions, coverage, tileSize, k, y, x, lab, score)
  }

  /** A tile of the first n keeps its claims in the whole sequence. */
  lemma ScoredByPrefix(tiles: seq<Grid<nat>>, positions: seq<(nat, nat)>, coverage: seq<map<nat, real>>,
                       tileSize: nat, n: nat, k: nat, y: int, x: int, lab: nat, score: real)
    requires Placed(tiles, positions, tileSize) && |coverage| == |tiles| && k < n <= |tiles|
    requires ScoredBy(tiles[..n], positions[..n], coverage[..n], tileSize, k, y, x, lab, score)
    ensures ScoredBy(tiles, positions, coverage, tileSize, k, y, x, lab, score)
  {
    assert tiles[..n][k] == tiles[k] && positions[..n][k] == positions[k] && coverage[..n][k] == coverage[k];
  }

  /** Every nonzero pixel of the mask comes from a scored instance of a tile covering it, with that instance's score. */
  lemma {:induction false} MosaicProvenance(tiles: seq<Grid<nat>>, positions: seq<(nat, nat)>, coverage: seq<map<nat, real>>,
                                            tileSize: nat, h: nat, w: nat, y: nat, x: nat)
    requires Placed(tiles, positions, tileSize) && |coverage| == |tiles|
    requires y < h && x < w
    ensures var c := Mosaic(tiles, positions, coverage, tileSize, h, w);
            c.labels[y][x] != 0 ==> FromScoredInstance(tiles, positions, coverage, tileSize, y, x, c.labels[y][x], c.scores[y][x])
  {
    if tiles != [] {
      var n := |tiles| - 1;
      var prev := Mosaic(tiles[..n], positions[..n], coverage[..n], tileSize, h, w);
      var c := Mosaic(tiles, positions, coverage, tileSize, h, w);
      assert c == Arbitrate(prev, tiles[n], coverage[n], positions[n], tileSize);
      var lab, score := c.labels[y][x], c.scores[y][x];
      if lab != 0 {
        ArbitratePixel(prev, tiles[n], coverage[n], positions[n], tileSize, y, x);
        if Overwrites(prev, tiles[n], coverage[n], positions[n], tileSize, y, x) {
          MosaicScoresNonnegative(tiles[..n], positions[..n], coverage[..n], tileSize, h, w, y, x);
          assert lab in coverage[n];
          assert ScoredBy(tiles, positions, coverage, tileSize, n, y, x, lab, score);
        } else {
          assert lab == prev.labels[y][x] && score == prev.scores[y][x];
          MosaicProvenance(tiles[..n], positions[..n], coverage[..n], tileSize, h, w, y, x);
          var k :| 0 <= k < n && ScoredBy(tiles[..n], positions[..n], coverage[..n], tileSize, k, y, x, lab, score);
          ScoredByPrefix(tiles, positions, coverage, tileSize, n, k, y, x, lab, score);
        }
      }
    }
  }

  /** Every nonzero label of the mask is a label of one of the tiles. */
  lemma MosaicLabelOccurs(tiles: seq<Grid<nat>>, positions: seq<(nat, nat)>, coverage: seq<map<nat, real>>,
                          tileSize: nat, h: nat, w: nat, y: nat, x: nat)
    requires Placed(tiles, positions, tileSize) && |coverage| == |tiles|
    requires y < h && x < w
    ensures var v := Mosaic(tiles, positions, coverage, tileSize, h, w).labels[y][x];
            v != 0 ==> exists k :: 0 <= k < |tiles| && v in Values(tiles[k])
  {
    var c := Mosaic(tiles, positions, coverage, tileSize, h, w);
    var v := c.labels[y][x];
    if v != 0 {
      MosaicProvenance(tiles, positions, coverage, tileSize, h, w, y, x);
      var k :| 0 <= k < |tiles| && ScoredBy(tiles, positions, coverage, tileSize, k, y, x, v, c.scores[y][x]);
      assert v in Values(tiles[k]);
    }
  }

  /**
   * When the labels of distinct tiles are disjoint, each nonzero pixel of the mosaic of the first `m` tiles
   * carries a label of exactly one tile.
   */
  lemma MosaicLabelOwned(all: seq<Grid<nat>>, m: nat, positions: seq<(nat, nat)>, coverage: seq<map<nat, real>>,
                         tileSize: nat, h: nat, w: nat, y: nat, x: nat)
    requires LabelsDisjoint(all) && m <= |all|
    requires Placed(all[..m], positions, tileSize) && |coverage| == m
    requires y < h && x < w
    ensures var v := Mosaic(all[..m], positions, coverage, tileSize, h, w).labels[y][x];
            v != 0 ==> exists k :: 0 <= k < |all| && v in Values(all[k]) &&
                         forall j :: 0 <= j < |all| && j != k ==> v !in Values(all[j])
  {
    var v := Mosaic(all[..m], positions, coverage, tileSize, h, w).labels[y][x];
    MosaicLabelOccurs(all[..m], positions, coverage, tileSize, h, w, y, x);
    if v != 0 {
      var k :| 0 <= k < m && v in Values(all[..m][k]);
      assert all[..m][k] == all[k];
      LabelOwnedOnce(all, k, v);
    }
  }

  /** The labels of all tiles together, background included (the `np.concatenate` of core.py:189). */
  function AllLabels(tiles: seq<Grid<nat>>): (s: set<nat>)
    ensures forall k :: 0 <= k < |tiles| ==> Values(tiles[k]) <= s
    ensures forall v :: v in s ==> exists k :: 0 <= k < |tiles| && v in Values(tiles[k])
  {
    if tiles == [] then {}
    else
      var n := |tiles| - 1;
      var init := AllLabels(tiles[..n]);
      assert forall v :: v in init ==> exists k :: 0 <= k < n && v in Values(tiles[k]) by {
        forall v | v in init
          ensures exists k :: 0 <= k < n && v in Values(tiles[k])
        {
          var k :| 0 <= k < n && v in Values(tiles[..n][k]);
          assert tiles[..n][k] == tiles[k];
        }
      }
      assert forall k :: 0 <= k < n ==> Values(tiles[k]) <= init by {
        forall k | 0 <= k < n
          ensures Values(tiles[k]) <= init
        {
          assert tiles[..n][k] == tiles[k];
        }
      }
      init + Values(tiles[n])
  }

  /**
   * `total_cells_before` as written (core.py:189): the number of distinct labels minus one for the
   * background, or `None` for no tiles, where `np.concatenate([])` raises ValueError.
   */
  function CellsBeforeAsWritten(tiles: seq<Grid<nat>>): (r: Option<int>)
    ensures r.None? <==> tiles == []
  {
    if tiles == [] then None else Some(|AllLabels(tiles)| - 1)
  }

  /** The number of distinct nonzero labels over all tiles, which `total_cells_before` is meant to report. */
  function CellsBefore(tiles: seq<Grid<nat>>): nat
  {
    |AllLabels(tiles) - {0}|
  }

  /** Both counts agree whenever some tile pixel is background, as with any tile that has a margin of background. */
  lemma CellsBeforeAgrees(tiles: seq<Grid<nat>>)
    requires 0 in AllLabels(tiles)
    ensures CellsBeforeAsWritten(tiles) == Some(CellsBefore(tiles))
  {
    var s := AllLabels(tiles);
    assert tiles != [];
    var rest := s - {0};
    assert s == rest + {0} && 0 !in rest;
    assert |s| == |rest| + 1;
  }

  /** One tile whose only pixel is labelled 1: the count as written reports 0 cells instead of 1. */
  lemma CellsBeforeUndercounts()
    ensures CellsBeforeAsWritten([[[1]]]) == Some(0)
    ensures CellsBefore([[[1]]]) == 1
  {
    var t: Grid<nat> := [[1]];
    assert Values(t) == {1} by {
      assert t[0][0] == 1;
    }
    assert AllLabels([t]) == {1} by {
      assert [t][..0] == [];
    }
  }

  lemma {:induction false} SubsetCardinality(a: set<nat>, b: set<nat>)
    requires a <= b
    ensures |a| <= |b|
    decreases |b|
  {
    if a != {} {
      var v :| v in a;
      SubsetCardinality(a - {v}, b - {v});
    }
  }

  /** `total_cells_after` (core.py:232-235) never exceeds the corrected `total_cells_before`. */
  lemma CellsAfterAtMostBefore(tiles: seq<Grid<nat>>, positions: seq<(nat, nat)>, coverage: seq<map<nat, real>>,
                               tileSize: nat, h: nat, w: nat)
    requires Placed(tiles, positions, tileSize) && |coverage| == |tiles|
    ensures Values(Mosaic(tiles, positions, coverage, tileSize, h, w).labels) - {0} <= AllLabels(tiles) - {0}
    ensures |Values(Mosaic(tiles, positions, coverage, tileSize, h, w).labels) - {0}| <= CellsBefore(tiles)
  {
    var c := Mosaic(tiles, positions, coverage, tileSize, h, w);
    forall v | v in Values(c.labels) - {0}
      ensures v in AllLabels(tiles)
    {
      var y, x :| 0 <= y < |c.labels| && 0 <= x < |c.labels[y]| && c.labels[y][x] == v;
      MosaicLabelOccurs(tiles, positions, coverage, tileSize, h, w, y, x);
    }
    SubsetCardinality(Values(c.labels) - {0}, AllLabels(tiles) - {0});
  }

  /** One iteration of the loop paints tile k - 1 onto the canvas of the tiles before it. */
  lemma MosaicStep(tiles: seq<Grid<nat>>, positions: seq<(nat, nat)>, coverage: seq<map<nat, real>>, tileSize: nat, h: nat, w: nat,
                   k: nat, c: Canvas)
    requires Placed(tiles, positions, tileSize) && |coverage| == |tiles| && 0 < k <= |tiles|
    requires c == Mosaic(tiles[..k - 1], positions[..k - 1], coverage[..k - 1], tileSize, h, w)
    ensures SameShape(c.labels, c.scores)
    ensures Arbitrate(c, tiles[k - 1], coverage[k - 1], positions[k - 1], tileSize) ==
            Mosaic(tiles[..k], positions[..k], coverage[..k], tileSize, h, w)
  {
    assert tiles[..k][..k - 1] == tiles[..k - 1] && positions[..k][..k - 1] == positions[..k - 1] &&
           coverage[..k][..k - 1] == coverage[..k - 1];
  }

  /** The labels of the first m tiles are labels of all the tiles. */
  lemma AllLabelsPrefix(tiles: seq<Grid<nat>>, m: nat)
    requires m <= |tiles|
    ensures AllLabels(tiles[..m]) <= AllLabels(tiles)
  {
    var pre := tiles[..m];
    var all := AllLabels(tiles);
    forall v | v in AllLabels(pre)
      ensures v in all
    {
      var k :| 0 <= k < |pre| && v in Values(pre[k]);
      TakeOfTake(tiles, m, k);
      assert Values(tiles[k]) <= all;
    }
  }

  /**
   * The recombination loop of `ingest_tile_segmentation` with its before and after cell counts
   * (core.py:184-235). `total_cells_before` counts every confidence tile; the loop zips the tiles with
   * their positions and the coverage maps, so it paints only the first `|coverage|` tiles.
   */
  method Recombine(conf: seq<Grid<nat>>, positions: seq<(nat, nat)>, coverage: seq<map<nat, real>>, tileSize: nat, h: nat, w: nat)
    returns (canvas: Canvas, cellsBefore: Option<int>, cellsAfter: nat)
    requires Placed(conf, positions, tileSize) && |coverage| <= |conf|
    ensures var m := |coverage|;
            canvas == Mosaic(conf[..m], positions[..m], coverage, tileSize, h, w)
    ensures cellsBefore == CellsBeforeAsWritten(conf)
    ensures cellsAfter == |Values(canvas.labels) - {0}| <= CellsBefore(conf)
    ensures cellsBefore.Some? && 0 in AllLabels(conf) ==> cellsAfter <= cellsBefore.value
  {
    if conf == [] {
      cellsBefore := None;
    } else {
      cellsBefore := Some(|AllLabels(conf)| - 1);
    }
    var m := |coverage|;
    assert AllTiles(conf[..m], tileSize);
    canvas := PaintTiles(conf[..m], positions[..m], coverage, tileSize, h, w);
    cellsAfter := |Values(canvas.labels) - {0}|;
    CellsAfterAtMostBefore(conf[..m], positions[..m], coverage, tileSize, h, w);
    AllLabelsPrefix(conf, m);
    SubsetCardinality(AllLabels(conf[..m]) - {0}, AllLabels(conf) - {0});
    if cellsBefore.Some? && 0 in AllLabels(conf) {
      CellsBeforeAgrees(conf);
    }
  }

  /** The loop of core.py:184-227: paints the tiles in order onto an empty canvas. */
  method PaintTiles(tiles: seq<Grid<nat>>, positions: seq<(nat, nat)>, coverage: seq<map<nat, real>>, tileSize: nat, h: nat, w: nat)
    returns (canvas: Canvas)
    requires Placed(tiles, positions, tileSize) && |coverage| == |tiles|
    ensures canvas == Mosaic(tiles, positions, coverage, tileSize, h, w)
  {
    canvas := Canvas(Fill(h, w, 0), Fill(h, w, 0.0));
    var k := 0;
    assert tiles[..0] == [] && positions[..0] == [] && coverage[..0] == [];
    while k < |tiles|
      invariant k <= |tiles|
      invariant canvas == Mosaic(tiles[..k], positions[..k], coverage[..k], tileSize, h, w)
    {
      MosaicStep(tiles, positions, coverage, tileSize, h, w, k + 1, canvas);
      canvas := Arbitrate(canvas, tiles[k], coverage[k], positions[k], tileSize);
      k := k + 1;
    }
    assert tiles[..k] == tiles && positions[..k] == positions && coverage[..k] == coverage;
  }
}
