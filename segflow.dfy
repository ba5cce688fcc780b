/**
 * The `SegFlow` stitching engine of core.py: the image and the cached padding and tiles live in a
 * mutable object; `ingest_tile_segmentation` composes the high-confidence, overlap, coverage and
 * recombination stages into one labelled mask the size of the original image.
 */
module Core {
  import opened Wrappers
  import opened Grids
  import opened Tiling
  import opened Confidence
  import opened Overlaps
  import opened Recombine

  /** One pixel of the two-channel image stacked by `load_numpy_arrays`. */
  datatype Pixel = Pixel(nuclear: real, membrane: real)

  /** The failures of the engine's operations, each named for the Python exception it stands for. */
  datatype SegFlowError =
    | TilesNotExtracted   // ValueError "Tiles must be extracted first" (core.py:178-179)
    | NotPadded           // ValueError "Must have padded image first." of `_crop_padded` (core.py:405-406),
                          // and the TypeError of `_extract_tiles(None, ...)` reading `None.shape`
    | ChannelShapeMismatch  // ValueError of `np.stack` for channels of different shapes
    | EmptyAxis           // ValueError of `np.pad` in reflect mode extending an axis of length 0 (core.py:104-108)
    | NoTiles             // ValueError of `np.concatenate([])` when no tile is paired with a position (core.py:189)
    | TileOutOfBounds     // a tile window that no longer fits the padded image makes numpy's masked update fail

  /** `np.stack([nuclear, membrane], axis=-1)` (core.py:73). */
  function Stack(nuclear: Grid<real>, membrane: Grid<real>): (g: Grid<Pixel>)
    requires SameShape(nuclear, membrane)
    ensures SameShape(nuclear, g)
    ensures forall y, x :: 0 <= y < |g| && 0 <= x < |g[y]| ==> g[y][x] == Pixel(nuclear[y][x], membrane[y][x])
  {
    seq(|nuclear|, y requires 0 <= y < |nuclear| => seq(|nuclear[y]|, x requires 0 <= x < |nuclear[y]| =>
      Pixel(nuclear[y][x], membrane[y][x])))
  }

  /** Every tile window at the first n positions fits an h x w raster. */
  predicate InBounds(positions: seq<(nat, nat)>, n: nat, h: nat, w: nat, tileSize: nat)
    requires n <= |positions|
  {
    forall k :: 0 <= k < n ==> Fits(positions[k], h, w, tileSize)
  }

  /** The intermediate results of `ingest_tile_segmentation` (core.py:180-227). */
  datatype Stages = Stages(conf: seq<Grid<nat>>, positions: seq<(nat, nat)>, density: Grid<int>,
                           coverage: seq<map<nat, real>>, canvas: Canvas)

  /**
   * The stages for the segmented tiles `segTiles` at `positions` over an h x w padded image.
   * Every `zip` of the source stops at its shortest argument.
   */
  function Pipeline(segTiles: seq<Grid<nat>>, positions: seq<(nat, nat)>, h: nat, w: nat, tileSize: nat, stride: nat,
                    w1: real, w2: real, minPixels: nat): (st: Stages)
    requires stride >= 1 && AllTiles(segTiles, tileSize)
    ensures |st.conf| == |st.positions| == Min(|segTiles|, |positions|)
    ensures AllTiles(st.conf, tileSize)
    ensures |st.coverage| <= |st.conf|
    ensures IsRect(st.density, h, w) && CanvasShape(st.canvas, h, w)
  {
    var n := Min(|segTiles|, |positions|);
    assert AllTiles(segTiles[..n], tileSize);
    var conf := HighConfidence(segTiles[..n], tileSize).tiles;
    var ps := positions[..n];
    var density := ClaimGrid(conf, ps, tileSize, h, w);
    var coverage := Coverage(conf, density, tileSize, stride, w1, w2, minPixels);
    var m := |coverage|;
    assert AllTiles(conf[..m], tileSize);
    Stages(conf, ps, density, coverage, Mosaic(conf[..m], ps[..m], coverage, tileSize, h, w))
  }

  /** `full_segmentation_mask` after the recombination loop: the labels of the assembled canvas (core.py:185-227). */
  function Assembled(segTiles: seq<Grid<nat>>, positions: seq<(nat, nat)>, h: nat, w: nat, tileSize: nat, stride: nat,
                     w1: real, w2: real, minPixels: nat): (labels: Grid<nat>)
    requires stride >= 1 && AllTiles(segTiles, tileSize)
    ensures IsRect(labels, h, w)
  {
    Pipeline(segTiles, positions, h, w, tileSize, stride, w1, w2, minPixels).canvas.labels
  }

  /** `np.pad(..., mode='reflect')` raises when it must extend an axis of length 0. */
  predicate ReflectFails(h: nat, w: nat, p: Padding) {
    (h == 0 && p.top + p.bottom > 0) || (w == 0 && p.left + p.right > 0)
  }

  /** With the padding `pad_image` computes for a positive tile size, reflect padding fails exactly on an empty image. */
  lemma ReflectFailsIffEmpty(h: nat, w: nat, tileSize: nat, stride: nat)
    requires stride >= 1 && tileSize >= 1
    ensures ReflectFails(h, w, PadFor(h, w, tileSize, stride)) <==> h == 0 || w == 0
  {
  }

  /** The last step of `ingest_tile_segmentation`: the crop of the assembled mask, unless a tile did not fit. */
  function Finish(inBounds: bool, labels: Grid<nat>, pad: Padding): Result<Grid<nat>, SegFlowError>
  {
    if !inBounds then Err(TileOutOfBounds) else Ok(CropPadded(labels, pad))
  }

  /**
   * What `ingest_tile_segmentation` returns once tiles were extracted: the cropped mask, or the numpy
   * failure. With no tile paired with a position, the count of core.py:189 concatenates nothing and raises.
   */
  function Ingest(segTiles: seq<Grid<nat>>, positions: seq<(nat, nat)>, h: nat, w: nat, pad: Padding, tileSize: nat, stride: nat,
                  w1: real, w2: real, minPixels: nat): (r: Result<Grid<nat>, SegFlowError>)
    requires stride >= 1 && AllTiles(segTiles, tileSize)
    ensures r == Err(NoTiles) <==> |segTiles| == 0 || |positions| == 0
    ensures var n := Min(|segTiles|, |positions|);
            r == Err(TileOutOfBounds) <==> n > 0 && !InBounds(positions, n, h, w, tileSize)
  {
    var n := Min(|segTiles|, |positions|);
    if n == 0 then Err(NoTiles)
    else Finish(InBounds(positions, n, h, w, tileSize), Assembled(segTiles, positions, h, w, tileSize, stride, w1, w2, minPixels), pad)
  }

  /**
   * Every nonzero pixel of the assembled mask carries the label and score of a scored instance of a
   * tile that covers the pixel.
   */
  lemma PipelineProvenance(segTiles: seq<Grid<nat>>, positions: seq<(nat, nat)>, h: nat, w: nat, tileSize: nat, stride: nat,
                           w1: real, w2: real, minPixels: nat, y: nat, x: nat)
    requires stride >= 1 && AllTiles(segTiles, tileSize)
    requires y < h && x < w
    ensures var st := Pipeline(segTiles, positions, h, w, tileSize, stride, w1, w2, minPixels);
            var m := |st.coverage|;
            st.canvas.labels[y][x] != 0 ==>
              FromScoredInstance(st.conf[..m], st.positions[..m], st.coverage, tileSize, y, x, st.canvas.labels[y][x], st.canvas.scores[y][x])
  {
    var st := Pipeline(segTiles, positions, h, w, tileSize, stride, w1, w2, minPixels);
    var m := |st.coverage|;
    MosaicProvenance(st.conf[..m], st.positions[..m], st.coverage, tileSize, h, w, y, x);
  }

  /**
   * No two tiles' cells are merged: each nonzero label of the assembled mask is a label of exactly one
   * high-confidence tile.
   */
  lemma PipelineLabelsFromOneTile(segTiles: seq<Grid<nat>>, positions: seq<(nat, nat)>, h: nat, w: nat, tileSize: nat, stride: nat,
                                  w1: real, w2: real, minPixels: nat, y: nat, x: nat)
    requires stride >= 1 && AllTiles(segTiles, tileSize)
    requires y < h && x < w
    ensures var st := Pipeline(segTiles, positions, h, w, tileSize, stride, w1, w2, minPixels);
            var v := st.canvas.labels[y][x];
            v != 0 ==> exists k :: 0 <= k < |st.conf| && v in Values(st.conf[k]) &&
                          forall j :: 0 <= j < |st.conf| && j != k ==> v !in Values(st.conf[j])
  {
    var st := Pipeline(segTiles, positions, h, w, tileSize, stride, w1, w2, minPixels);
    var n, m := Min(|segTiles|, |positions|), |st.coverage|;
    HighConfidenceLabelsDisjoint(segTiles[..n], tileSize);
    MosaicLabelOwned(st.conf, m, st.positions[..m], st.coverage, tileSize, h, w, y, x);
  }

  /**
   * When the positions are the grid of the padded image, as `extract_tiles` leaves them, every recorded
   * score is at least `w1 + w2 * (number of pixels of the instance)`, so above the 0 of an empty score map.
   */
  lemma PipelineScoresAtLeast(segTiles: seq<Grid<nat>>, positions: seq<(nat, nat)>, h: nat, w: nat, tileSize: nat, stride: nat,
                              w1: real, w2: real, minPixels: nat, k: nat)
    requires tileSize >= 1 && stride >= 1 && AllTiles(segTiles, tileSize)
    requires positions == TilePositions(h, w, tileSize, stride)
    requires w1 >= 0.0 && w2 >= 0.0
    ensures var st := Pipeline(segTiles, positions, h, w, tileSize, stride, w1, w2, minPixels);
            k < |st.coverage| ==> ScoredAtLeast(st.coverage[k], st.conf[k], w1, w2)
  {
    var st := Pipeline(segTiles, positions, h, w, tileSize, stride, w1, w2, minPixels);
    CoverageScoresAtLeast(st.conf, st.positions, h, w, tileSize, stride, w1, w2, minPixels, k);
  }

  /**
   * With consistent pad amounts, at least 1 at the far edges, and a mask of the padded image's shape,
   * as `Assembled` guarantees: the call fails exactly when a tile did not fit, and otherwise returns the
   * interior of the mask, which has the original image's shape.
   */
  lemma FinishIsInterior(inBounds: bool, labels: Grid<nat>, hh: nat, ww: nat, pad: Padding)
    requires IsRect(labels, pad.top + hh + pad.bottom, pad.left + ww + pad.right)
    requires pad.bottom >= 1 && pad.right >= 1
    ensures var r := Finish(inBounds, labels, pad);
            (r.Ok? <==> inBounds) &&
            (r.Ok? ==> IsRect(r.value, hh, ww) && r.value == Window(labels, pad.top, pad.left, hh, ww))
  {
    if inBounds {
      CropPaddedShape(labels, hh, ww, pad);
      CropPaddedIsInterior(labels, hh, ww, pad);
    }
  }

  /**
   * The stages of `ingest_tile_segmentation` (core.py:180-227) run as the source runs them: the
   * high-confidence loop, the overlap loop, the scoring loop and the recombination loop.
   */
  method AssembleMask(segTiles: seq<Grid<nat>>, positions: seq<(nat, nat)>, h: nat, w: nat, tileSize: nat, stride: nat,
                      w1: real, w2: real, minPixels: nat) returns (labels: Grid<nat>)
    requires stride >= 1 && AllTiles(segTiles, tileSize)
    ensures labels == Assembled(segTiles, positions, h, w, tileSize, stride, w1, w2, minPixels)
  {
    ghost var st := Pipeline(segTiles, positions, h, w, tileSize, stride, w1, w2, minPixels);
    var n := Min(|segTiles|, |positions|);
    var conf := HighConfidenceTiles(segTiles[..n], tileSize);
    var density := CalculateOverlaps(conf, positions[..n], tileSize, h, w);
    var coverage := CalculateTileOverlaps(conf, density, tileSize, stride, w1, w2, minPixels);
    var canvas, cellsBefore, cellsAfter := Recombine.Recombine(conf, positions[..n], coverage, tileSize, h, w);
    assert canvas == st.canvas;
    labels := canvas.labels;
  }

  /** The `SegFlow` object: configuration, the loaded image and what `pad_image` and `extract_tiles` cached. */
  class SegFlow {
    const tileSize: nat
    const stride: nat
    const averageWeight: real
    const sumWeight: real
    const minPixels: nat
    var image: Option<Grid<Pixel>>
    var imagePadded: Option<Grid<Pixel>>
    var padding: Option<Padding>
    var tiles: Option<seq<Grid<Pixel>>>
    var positions: Option<seq<(nat, nat)>>
    /** The shape of the image the padded image was made from, and the pad amounts it was made with. */
    ghost var unpadded: (nat, nat)
    ghost var appliedPadding: Padding

    /**
     * Rasters are rectangular, the padded image is the unpadded shape grown by the pad amounts it was made
     * with (at least 1 at the far edges for a positive tile size), padding comes with the padded image,
     * and tiles come with their positions.
     */
    ghost predicate Valid()
      reads this
    {
      stride >= 1 &&
      (image.Some? ==> IsRect(image.value, |image.value|, Width(image.value))) &&
      (imagePadded.Some? ==>
         padding.Some? &&
         IsRect(imagePadded.value, appliedPadding.top + unpadded.0 + appliedPadding.bottom,
                appliedPadding.left + unpadded.1 + appliedPadding.right) &&
         (tileSize >= 1 ==> appliedPadding.bottom >= 1 && appliedPadding.right >= 1)) &&
      (tiles.Some? <==> positions.Some?) &&
      (positions.Some? ==> imagePadded.Some? && |tiles.value| == |positions.value|)
    }

    /**
     * `SegFlow.__init__` (core.py:37-61). The weights and the minimum instance size are fixed at
     * 0.7, 0.3 and 5 whatever the caller passes.
     */
    constructor(tileSize: nat, stride: nat, averageWeight: real, sumWeight: real, minPixels: nat)
      requires stride >= 1
      ensures Valid()
      ensures this.tileSize == tileSize && this.stride == stride
      ensures this.averageWeight == 0.7 && this.sumWeight == 0.3 && this.minPixels == 5
      ensures image.None? && imagePadded.None? && padding.None? && tiles.None? && positions.None?
    {
      this.tileSize := tileSize;
      this.stride := stride;
      this.averageWeight := 0.7;
      this.sumWeight := 0.3;
      this.minPixels := 5;
      image := None;
      imagePadded := None;
      padding := None;
      tiles := None;
      positions := None;
      unpadded := (0, 0);
      appliedPadding := Padding(0, 0, 0, 0);
    }

    /** `load_numpy_arrays` (core.py:63-75): the membrane channel defaults to a copy of the nuclear one. */
    method LoadNumpyArrays(nuclear: Grid<real>, membrane: Option<Grid<real>>) returns (r: Result<(), SegFlowError>)
      requires Valid()
      requires IsRect(nuclear, |nuclear|, Width(nuclear))
      modifies this
      ensures Valid()
      ensures imagePadded == old(imagePadded) && padding == old(padding) && tiles == old(tiles) && positions == old(positions)
      ensures var m := membrane.GetOr(nuclear);
              if SameShape(nuclear, m) then r.Ok? && image == Some(Stack(nuclear, m))
              else r == Err(ChannelShapeMismatch) && image == old(image)
    {
      var m := membrane.GetOr(nuclear);
      if !SameShape(nuclear, m) {
        return Err(ChannelShapeMismatch);
      }
      image := Some(Stack(nuclear, m));
      r := Ok(());
    }

    /**
     * `pad_image` (core.py:90-108): records the pad amounts and the padded image; without an image it does nothing.
     * `fill` gives the border pixels, standing for numpy's reflect mode. The pad amounts are stored before
     * `np.pad` runs, so when reflect padding of an empty axis raises they are kept and the padded image is not.
     */
    method PadImage(fill: (int, int) -> Pixel) returns (r: Result<(), SegFlowError>)
      requires Valid()
      modifies this
      ensures Valid()
      ensures image == old(image) && tiles == old(tiles) && positions == old(positions)
      ensures old(image).None? ==> r.Ok? && unchanged(this)
      ensures old(image).Some? ==>
                var img := image.value;
                var p := PadFor(|img|, Width(img), tileSize, stride);
                padding == Some(p) &&
                if ReflectFails(|img|, Width(img), p) then
                  r == Err(EmptyAxis) && imagePadded == old(imagePadded)
                else
                  r.Ok? && imagePadded == Some(PadRaster(img, |img|, Width(img), p, fill)) &&
                  unpadded == (|img|, Width(img)) && appliedPadding == p
    {
      if image.Some? {
        var img := image.value;
        var p := PadFor(|img|, Width(img), tileSize, stride);
        padding := Some(p);
        if ReflectFails(|img|, Width(img), p) {
          return Err(EmptyAxis);
        }
        imagePadded := Some(PadRaster(img, |img|, Width(img), p, fill));
        unpadded := (|img|, Width(img));
        appliedPadding := p;
      }
      r := Ok(());
    }

    /** `extract_tiles` (core.py:112-123): cached tiles are returned as they are; otherwise the padded image is tiled. */
    method ExtractTiles() returns (r: Result<(seq<Grid<Pixel>>, seq<(nat, nat)>), SegFlowError>)
      requires Valid()
      modifies this
      ensures Valid()
      ensures image == old(image) && imagePadded == old(imagePadded) && padding == old(padding)
      ensures old(positions).Some? ==> r == Ok((old(tiles).value, old(positions).value)) && unchanged(this)
      ensures old(positions).None? && imagePadded.None? ==> r == Err(NotPadded) && unchanged(this)
      ensures old(positions).None? && imagePadded.Some? ==>
                var g := imagePadded.value;
                r.Ok? && tiles == Some(r.value.0) && positions == Some(r.value.1) &&
                r.value.1 == TilePositions(|g|, Width(g), tileSize, stride) &&
                TilesAt(g, r.value.0, r.value.1, tileSize)
    {
      if tiles.Some? && positions.Some? {
        return Ok((tiles.value, positions.value));
      }
      if imagePadded.None? {
        return Err(NotPadded);
      }
      var ts, ps := Tiling.ExtractTiles(imagePadded.value, tileSize, stride);
      tiles := Some(ts);
      positions := Some(ps);
      r := Ok((ts, ps));
    }

    /** `_crop_padded` (core.py:401-420) on a raster of the padded image's size. */
    method CropPadded(g: Grid<nat>) returns (r: Result<Grid<nat>, SegFlowError>)
      requires Valid()
      ensures imagePadded.None? ==> r == Err(NotPadded)
      ensures imagePadded.Some? ==> r == Ok(Tiling.CropPadded(g, padding.value))
    {
      if imagePadded.None? {
        return Err(NotPadded);
      }
      r := Ok(Tiling.CropPadded(g, padding.value));
    }

    /**
     * `ingest_tile_segmentation` (core.py:171-242) for one T x T label tile per extracted tile, as the
     * segmentation model returns them.
     */
    method IngestTileSegmentation(segTiles: seq<Grid<nat>>) returns (r: Result<Grid<nat>, SegFlowError>)
      requires Valid()
      requires AllTiles(segTiles, tileSize)
      ensures positions.None? ==> r == Err(TilesNotExtracted)
      ensures positions.Some? ==>
                r == Ingest(segTiles, positions.value, |imagePadded.value|, Width(imagePadded.value), padding.value,
                            tileSize, stride, averageWeight, sumWeight, minPixels)
      ensures positions.Some? && |segTiles| == 0 ==> r == Err(NoTiles)
      ensures r.Ok? && tileSize >= 1 && padding == Some(appliedPadding) ==> IsRect(r.value, unpadded.0, unpadded.1)
    {
      if positions.None? {
        return Err(TilesNotExtracted);
      }
      var ps := positions.value;
      var padded := imagePadded.value;
      var h, w := |padded|, Width(padded);
      var n := Min(|segTiles|, |ps|);
      if n == 0 {
        return Err(NoTiles);
      }
      var k := 0;
      while k < n
        invariant k <= n
        invariant InBounds(ps, k, h, w, tileSize)
      {
        if !Fits(ps[k], h, w, tileSize) {
          return Err(TileOutOfBounds);
        }
        k := k + 1;
      }
      var labels := AssembleMask(segTiles, ps, h, w, tileSize, stride, averageWeight, sumWeight, minPixels);
      r := Ok(Tiling.CropPadded(labels, padding.value));
      assert r == Finish(true, labels, padding.value);
      if tileSize >= 1 && padding == Some(appliedPadding) {
        FinishIsInterior(true, labels, unpadded.0, unpadded.1, appliedPadding);
      }
    }
  }
}
