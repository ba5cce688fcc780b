/**
 * `SegFlow._calculate_high_confidence_tiles` (core.py:258-297): each tile keeps only the labels that
 * reach its high-confidence centre, and its labels are moved above every label of the earlier tiles.
 */
module Confidence {
  import opened Grids

  /** Width of the low-confidence border of a tile, `tile_size // 8` (core.py:258). */
  function Margin(tileSize: nat): (m: nat)
    ensures 8 * m <= tileSize < 8 * m + 8
  {
    tileSize / 8
  }

  /** The high-confidence centre `tile[m:T-m, m:T-m]` (core.py:265-271). */
  function Centre(tile: Grid<nat>, tileSize: nat): Grid<nat>
    requires IsRect(tile, tileSize, tileSize)
  {
    var m := Margin(tileSize);
    Window(tile, m, m, tileSize - 2 * m, tileSize - 2 * m)
  }

  /** The nonzero labels with a pixel in the centre (core.py:272-273). */
  function CentreLabels(tile: Grid<nat>, tileSize: nat): set<nat>
    requires IsRect(tile, tileSize, tileSize)
  {
    Values(Centre(tile, tileSize)) - {0}
  }

  /** `np.where(np.isin(g, labels), g, 0)` (core.py:276-277). */
  function Keep(g: Grid<nat>, labels: set<nat>): (r: Grid<nat>)
    ensures SameShape(g, r)
    ensures forall y, x {:trigger r[y][x]} :: 0 <= y < |g| && 0 <= x < |g[y]| ==> r[y][x] == if g[y][x] in labels then g[y][x] else 0
  {
    seq(|g|, y requires 0 <= y < |g| => seq(|g[y]|, x requires 0 <= x < |g[y]| => if g[y][x] in labels then g[y][x] else 0))
  }

  /** The renumbering loop of core.py:284-288: pixels of a label in `labels` get `label + offset`, all others 0. */
  function Relabel(g: Grid<nat>, labels: set<nat>, offset: nat): (r: Grid<nat>)
    ensures SameShape(g, r)
    ensures forall y, x {:trigger r[y][x]} :: 0 <= y < |g| && 0 <= x < |g[y]| ==> r[y][x] == if g[y][x] in labels then g[y][x] + offset else 0
  {
    seq(|g|, y requires 0 <= y < |g| => seq(|g[y]|, x requires 0 <= x < |g[y]| => if g[y][x] in labels then g[y][x] + offset else 0))
  }

  /** The labels left in the cleaned tile, `labels_to_adjust` (core.py:280-281). */
  function LabelsToAdjust(tile: Grid<nat>, tileSize: nat): set<nat>
    requires IsRect(tile, tileSize, tileSize)
  {
    Values(Keep(tile, CentreLabels(tile, tileSize))) - {0}
  }

  /** The high-confidence tile produced for `tile` when the labels so far end at `offset` (core.py:265-292). */
  function Adjust(tile: Grid<nat>, tileSize: nat, offset: nat): Grid<nat>
    requires IsRect(tile, tileSize, tileSize)
  {
    Relabel(Keep(tile, CentreLabels(tile, tileSize)), LabelsToAdjust(tile, tileSize), offset)
  }

  /** `max_label` after the tile: the largest adjusted label, or unchanged when no label survives (core.py:291-292). */
  function NextMax(tile: Grid<nat>, tileSize: nat, offset: nat): nat
    requires IsRect(tile, tileSize, tileSize)
  {
    if LabelsToAdjust(tile, tileSize) != {} then MaxValue(Adjust(tile, tileSize, offset)) else offset
  }

  /** A pixel survives exactly when its label reaches the centre, and then it is moved up by `offset`. */
  lemma AdjustPixels(tile: Grid<nat>, tileSize: nat, offset: nat)
    requires IsRect(tile, tileSize, tileSize)
    ensures IsRect(Adjust(tile, tileSize, offset), tileSize, tileSize)
    ensures forall y, x :: 0 <= y < tileSize && 0 <= x < tileSize ==>
              Adjust(tile, tileSize, offset)[y][x] ==
                if tile[y][x] in CentreLabels(tile, tileSize) then tile[y][x] + offset else 0
  {
    var cleaned := Keep(tile, CentreLabels(tile, tileSize));
    forall y, x | 0 <= y < tileSize && 0 <= x < tileSize && tile[y][x] in CentreLabels(tile, tileSize)
      ensures tile[y][x] in LabelsToAdjust(tile, tileSize)
    {
      assert cleaned[y][x] == tile[y][x];
    }
  }

  /** A nonzero pixel inside the centre carries one of the centre labels. */
  lemma InCentreLabels(tile: Grid<nat>, tileSize: nat, y: nat, x: nat)
    requires IsRect(tile, tileSize, tileSize)
    requires Margin(tileSize) <= y < tileSize - Margin(tileSize) && Margin(tileSize) <= x < tileSize - Margin(tileSize)
    requires tile[y][x] != 0
    ensures tile[y][x] in CentreLabels(tile, tileSize)
  {
    var m := Margin(tileSize);
    var side := tileSize - 2 * m;
    var centre := Window(tile, m, m, side, side);
    assert centre == Centre(tile, tileSize);
    assert y - m < side && x - m < side;
    assert centre[y - m][x - m] == tile[y][x];
  }

  /** Every pixel of a label whose pixel lies in the centre is kept, so the centre itself loses nothing. */
  lemma CentreKept(tile: Grid<nat>, tileSize: nat, offset: nat, y: nat, x: nat)
    requires IsRect(tile, tileSize, tileSize)
    requires Margin(tileSize) <= y < tileSize - Margin(tileSize) && Margin(tileSize) <= x < tileSize - Margin(tileSize)
    requires tile[y][x] != 0
    ensures Adjust(tile, tileSize, offset)[y][x] == tile[y][x] + offset
  {
    InCentreLabels(tile, tileSize, y, x);
    AdjustPixels(tile, tileSize, offset);
  }

  /** A nonzero adjusted pixel comes from a label left to adjust, moved up by `offset`. */
  lemma AdjustedPixelLabel(tile: Grid<nat>, tileSize: nat, offset: nat, y: nat, x: nat)
    requires IsRect(tile, tileSize, tileSize) && y < tileSize && x < tileSize
    requires Adjust(tile, tileSize, offset)[y][x] != 0
    ensures Adjust(tile, tileSize, offset)[y][x] - offset in LabelsToAdjust(tile, tileSize)
  {
    var cleaned := Keep(tile, CentreLabels(tile, tileSize));
    var labels := LabelsToAdjust(tile, tileSize);
    var a := Adjust(tile, tileSize, offset);
    assert a == Relabel(cleaned, labels, offset);
    assert a[y][x] == if cleaned[y][x] in labels then cleaned[y][x] + offset else 0;
  }

  /**
   * Pixels of an adjusted tile are 0 or lie strictly above `offset` and at most at the next `max_label`.
   */
  lemma AdjustRange(tile: Grid<nat>, tileSize: nat, offset: nat)
    requires IsRect(tile, tileSize, tileSize)
    ensures offset <= NextMax(tile, tileSize, offset)
    ensures forall y, x :: 0 <= y < tileSize && 0 <= x < tileSize && Adjust(tile, tileSize, offset)[y][x] != 0 ==>
              offset < Adjust(tile, tileSize, offset)[y][x] <= NextMax(tile, tileSize, offset)
  {
    var a := Adjust(tile, tileSize, offset);
    var labels := LabelsToAdjust(tile, tileSize);
    forall y, x | 0 <= y < tileSize && 0 <= x < tileSize && a[y][x] != 0
      ensures offset < a[y][x] <= NextMax(tile, tileSize, offset)
    {
      AdjustedPixelLabel(tile, tileSize, offset, y, x);
      assert labels != {};
    }
    if labels != {} {
      var l :| l in labels;
      var cleaned := Keep(tile, CentreLabels(tile, tileSize));
      var y, x :| 0 <= y < |cleaned| && 0 <= x < |cleaned[y]| && cleaned[y][x] == l;
      assert a[y][x] == l + offset;
    }
  }

  /** `max_label` strictly increases exactly when some label of the tile survives, and stays put otherwise. */
  lemma NextMaxIncreases(tile: Grid<nat>, tileSize: nat, offset: nat)
    requires IsRect(tile, tileSize, tileSize)
    ensures LabelsToAdjust(tile, tileSize) != {} <==> offset < NextMax(tile, tileSize, offset)
    ensures LabelsToAdjust(tile, tileSize) == {} ==> NextMax(tile, tileSize, offset) == offset
  {
    var labels := LabelsToAdjust(tile, tileSize);
    if labels != {} {
      var a := Adjust(tile, tileSize, offset);
      var l :| l in labels;
      var cleaned := Keep(tile, CentreLabels(tile, tileSize));
      var y, x :| 0 <= y < |cleaned| && 0 <= x < |cleaned[y]| && cleaned[y][x] == l;
      assert tile[y][x] == l && l in CentreLabels(tile, tileSize);
      AdjustPixels(tile, tileSize, offset);
      assert a[y][x] == l + offset;
      assert a[y][x] <= MaxValue(a);
    }
  }

  /** The tiles built so far and the running `max_label`. */
  datatype Reduction = Reduction(tiles: seq<Grid<nat>>, maxLabel: nat)

  predicate AllTiles(tiles: seq<Grid<nat>>, tileSize: nat) {
    forall k :: 0 <= k < |tiles| ==> IsRect(tiles[k], tileSize, tileSize)
  }

  /** What the loop of core.py:263-294 holds after the tiles `tiles`. */
  function HighConfidence(tiles: seq<Grid<nat>>, tileSize: nat): (r: Reduction)
    requires AllTiles(tiles, tileSize)
    ensures |r.tiles| == |tiles|
    ensures AllTiles(r.tiles, tileSize)
  {
    if tiles == [] then Reduction([], 0)
    else
      var prev := HighConfidence(tiles[..|tiles| - 1], tileSize);
      var tile := tiles[|tiles| - 1];
      AdjustPixels(tile, tileSize, prev.maxLabel);
      Reduction(prev.tiles + [Adjust(tile, tileSize, prev.maxLabel)], NextMax(tile, tileSize, prev.maxLabel))
  }

  /** No pixel of `g` exceeds `b`. */
  predicate AllAtMost(g: Grid<nat>, b: nat) {
    forall y, x :: 0 <= y < |g| && 0 <= x < |g[y]| ==> g[y][x] <= b
  }

  /** Every nonzero label of `a` is smaller than every nonzero label of `b`. */
  predicate LabelsBefore(a: Grid<nat>, b: Grid<nat>) {
    forall y1, x1, y2, x2 ::
      (0 <= y1 < |a| && 0 <= x1 < |a[y1]| && 0 <= y2 < |b| && 0 <= x2 < |b[y2]| && a[y1][x1] != 0 && b[y2][x2] != 0)
      ==> a[y1][x1] < b[y2][x2]
  }

  /** Every label handed out so far is at most the running `max_label`. */
  lemma {:induction false} HighConfidenceBounded(tiles: seq<Grid<nat>>, tileSize: nat)
    requires AllTiles(tiles, tileSize)
    ensures forall k :: 0 <= k < |tiles| ==> AllAtMost(HighConfidence(tiles, tileSize).tiles[k], HighConfidence(tiles, tileSize).maxLabel)
  {
    if tiles != [] {
      var init, tile := tiles[..|tiles| - 1], tiles[|tiles| - 1];
      HighConfidenceBounded(init, tileSize);
      var prev := HighConfidence(init, tileSize);
      AdjustRange(tile, tileSize, prev.maxLabel);
      var r := HighConfidence(tiles, tileSize);
      assert r.tiles == prev.tiles + [Adjust(tile, tileSize, prev.maxLabel)];
      assert r.maxLabel == NextMax(tile, tileSize, prev.maxLabel);
      forall k | 0 <= k < |tiles|
        ensures AllAtMost(r.tiles[k], r.maxLabel)
      {
        if k < |init| {
          assert r.tiles[k] == prev.tiles[k];
          assert AllAtMost(prev.tiles[k], prev.maxLabel);
        }
      }
    }
  }

  /** The renumbering keeps tiles apart: every label of an earlier tile is below every label of a later one. */
  lemma {:induction false} HighConfidenceSeparated(tiles: seq<Grid<nat>>, tileSize: nat)
    requires AllTiles(tiles, tileSize)
    ensures forall i, j :: 0 <= i < j < |tiles| ==>
              LabelsBefore(HighConfidence(tiles, tileSize).tiles[i], HighConfidence(tiles, tileSize).tiles[j])
  {
    if tiles != [] {
      var init, tile := tiles[..|tiles| - 1], tiles[|tiles| - 1];
      HighConfidenceSeparated(init, tileSize);
      HighConfidenceBounded(init, tileSize);
      var prev := HighConfidence(init, tileSize);
      AdjustRange(tile, tileSize, prev.maxLabel);
      var out := HighConfidence(tiles, tileSize).tiles;
      forall i, j | 0 <= i < j < |tiles|
        ensures LabelsBefore(out[i], out[j])
      {
        if j == |tiles| - 1 {
          assert AllAtMost(out[i], prev.maxLabel);
        }
      }
    }
  }

  /** Hence, in label sets, every label of an earlier tile is below every label of a later one, and none is shared. */
  lemma HighConfidenceDisjoint(tiles: seq<Grid<nat>>, tileSize: nat, i: nat, j: nat)
    requires AllTiles(tiles, tileSize)
    requires i < j < |tiles|
    ensures forall u, v ::
              (u in Values(HighConfidence(tiles, tileSize).tiles[i]) - {0} && v in Values(HighConfidence(tiles, tileSize).tiles[j]) - {0})
              ==> u < v
    ensures (Values(HighConfidence(tiles, tileSize).tiles[i]) - {0}) !! (Values(HighConfidence(tiles, tileSize).tiles[j]) - {0})
  {
    HighConfidenceSeparated(tiles, tileSize);
    var out := HighConfidence(tiles, tileSize).tiles;
    assert LabelsBefore(out[i], out[j]);
    forall u, v | u in Values(out[i]) - {0} && v in Values(out[j]) - {0}
      ensures u < v
    {
      var y1, x1 :| 0 <= y1 < |out[i]| && 0 <= x1 < |out[i][y1]| && out[i][y1][x1] == u;
      var y2, x2 :| 0 <= y2 < |out[j]| && 0 <= x2 < |out[j][y2]| && out[j][y2][x2] == v;
    }
  }

  /** No nonzero label occurs in two different tiles. */
  predicate LabelsDisjoint(tiles: seq<Grid<nat>>) {
    forall i, j :: 0 <= i < j < |tiles| ==> (Values(tiles[i]) - {0}) !! (Values(tiles[j]) - {0})
  }

  /** Under `LabelsDisjoint`, a nonzero label of one tile occurs in no other tile. */
  lemma LabelOwnedOnce(tiles: seq<Grid<nat>>, k: nat, v: nat)
    requires LabelsDisjoint(tiles) && k < |tiles| && v in Values(tiles[k]) && v != 0
    ensures forall j :: 0 <= j < |tiles| && j != k ==> v !in Values(tiles[j])
  {
    assert v in Values(tiles[k]) - {0};
    forall j | 0 <= j < |tiles| && j != k
      ensures v !in Values(tiles[j]) - {0}
    {
      if j < k {
        assert (Values(tiles[j]) - {0}) !! (Values(tiles[k]) - {0});
      } else {
        assert (Values(tiles[k]) - {0}) !! (Values(tiles[j]) - {0});
      }
    }
  }

  lemma HighConfidenceLabelsDisjoint(tiles: seq<Grid<nat>>, tileSize: nat)
    requires AllTiles(tiles, tileSize)
    ensures LabelsDisjoint(HighConfidence(tiles, tileSize).tiles)
  {
    forall i, j | 0 <= i < j < |tiles|
      ensures (Values(HighConfidence(tiles, tileSize).tiles[i]) - {0}) !! (Values(HighConfidence(tiles, tileSize).tiles[j]) - {0})
    {
      HighConfidenceDisjoint(tiles, tileSize, i, j);
    }
  }

  /** Each high-confidence pixel is 0 or its tile's own label moved up by that tile's starting offset. */
  lemma HighConfidencePixels(tiles: seq<Grid<nat>>, tileSize: nat, k: nat)
    requires AllTiles(tiles, tileSize) && k < |tiles|
    ensures var offset := HighConfidence(tiles[..k], tileSize).maxLabel;
            forall y, x :: 0 <= y < tileSize && 0 <= x < tileSize ==>
              HighConfidence(tiles, tileSize).tiles[k][y][x] ==
                if tiles[k][y][x] in CentreLabels(tiles[k], tileSize) then tiles[k][y][x] + offset else 0
  {
    HighConfidenceEntry(tiles, tileSize, k);
    AdjustPixels(tiles[k], tileSize, HighConfidence(tiles[..k], tileSize).maxLabel);
  }

  /** One more iteration of the loop: the next tile is adjusted with the running `max_label`. */
  lemma HighConfidenceStep(tiles: seq<Grid<nat>>, tileSize: nat, k: nat)
    requires AllTiles(tiles, tileSize) && k < |tiles|
    ensures var prev := HighConfidence(tiles[..k], tileSize);
            HighConfidence(tiles[..k + 1], tileSize) ==
              Reduction(prev.tiles + [Adjust(tiles[k], tileSize, prev.maxLabel)], NextMax(tiles[k], tileSize, prev.maxLabel))
  {
    var s := tiles[..k + 1];
    assert s[..|s| - 1] == tiles[..k];
    assert s[|s| - 1] == tiles[k];
  }

  /**
   * Tile k of the output depends only on the first k + 1 tiles: it is tile k adjusted by the `max_label`
   * of the tiles before it, whatever comes after.
   */
  lemma {:induction false} HighConfidenceEntry(tiles: seq<Grid<nat>>, tileSize: nat, k: nat)
    requires AllTiles(tiles, tileSize) && k < |tiles|
    ensures HighConfidence(tiles, tileSize).tiles[k] == Adjust(tiles[k], tileSize, HighConfidence(tiles[..k], tileSize).maxLabel)
    decreases |tiles|
  {
    var n := |tiles| - 1;
    var init := tiles[..n];
    AllTilesTake(tiles, tileSize, n);
    AllTilesTake(tiles, tileSize, k);
    HighConfidenceLast(tiles, tileSize);
    var prev := HighConfidence(init, tileSize);
    var last := Adjust(tiles[n], tileSize, prev.maxLabel);
    SnocIndex(HighConfidence(tiles, tileSize).tiles, prev.tiles, last, k);
    if k < n {
      HighConfidenceEntry(init, tileSize, k);
      TakeOfTake(tiles, n, k);
    }
  }

  /** Indexing a sequence that ends in `last`; generic, so no element is compared pixel by pixel. */
  lemma SnocIndex<T>(whole: seq<T>, init: seq<T>, last: T, k: nat)
    requires whole == init + [last] && k <= |init|
    ensures whole[k] == if k < |init| then init[k] else last
  {
  }

  /** The last iteration of the loop, unfolded once. */
  lemma HighConfidenceLast(tiles: seq<Grid<nat>>, tileSize: nat)
    requires AllTiles(tiles, tileSize) && tiles != []
    ensures var n := |tiles| - 1;
            var prev := HighConfidence(tiles[..n], tileSize);
            HighConfidence(tiles, tileSize).tiles == prev.tiles + [Adjust(tiles[n], tileSize, prev.maxLabel)]
  {
  }

  lemma AllTilesTake(tiles: seq<Grid<nat>>, tileSize: nat, n: nat)
    requires AllTiles(tiles, tileSize) && n <= |tiles|
    ensures AllTiles(tiles[..n], tileSize)
  {
  }

  lemma TakeOfTake<T>(s: seq<T>, n: nat, k: nat)
    requires k < n <= |s|
    ensures s[..n][k] == s[k] && s[..n][..k] == s[..k]
  {
  }

  /** `_calculate_high_confidence_tiles`: the loop over the tiles with its running `max_label`. */
  method HighConfidenceTiles(tiles: seq<Grid<nat>>, tileSize: nat) returns (conf: seq<Grid<nat>>)
    requires AllTiles(tiles, tileSize)
    ensures conf == HighConfidence(tiles, tileSize).tiles
  {
    conf := [];
    var maxLabel := 0;
    var k := 0;
    while k < |tiles|
      invariant k <= |tiles|
      invariant HighConfidence(tiles[..k], tileSize) == Reduction(conf, maxLabel)
    {
      var tile := tiles[k];
      HighConfidenceStep(tiles, tileSize, k);
      var cleaned := Keep(tile, CentreLabels(tile, tileSize));
      var labels := Values(cleaned) - {0};
      var adjusted := Relabel(cleaned, labels, maxLabel);
      assert adjusted == Adjust(tile, tileSize, maxLabel);
      if labels != {} {
        maxLabel := MaxValue(adjusted);
      }
      conf := conf + [adjusted];
      k := k + 1;
    }
    assert tiles[..k] == tiles;
  }
}
