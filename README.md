# seg-flow in Dafny

A model of the core of seg-flow. seg-flow segments cells in a large two-channel microscopy image. It pads the image, cuts it into overlapping T x T tiles, has a segmentation model label every tile, and stitches the labelled tiles back into one label mask. A label raster of the full image then offers masking and cache-invalidating writes. The per-cell patches cut around each segmented cell can be combined, filtered and cleaned.

Rasters are values of type `Grid<T> = seq<seq<T>>` (module `Grids`). Each numpy whole-array expression (`np.where`, `np.isin`, slicing, `np.unique`) is a function. Each Python loop is a method with a `while` loop, proved equal to a specification function. Those functions carry the lemmas. Objects whose fields the source updates in place are classes:
- `SegFlow` keeps the image, pad amounts, tiles and positions in `Option` fields.
- `SegmentationPatchTiledImage` keeps the patch stack in an `array`.
- `SegmentationImage` keeps the pixels in an `array2`, plus its property caches.

Modules and the source they model:
- `Tiling`: pad arithmetic, the tile grid of `_extract_tiles`, padding and `_crop_padded`.
- `Confidence`: `_calculate_high_confidence_tiles`. It keeps only the labels that reach the tile's centre and renumbers them above the running `max_label`.
- `Overlaps`: `_calculate_overlaps`, the per-pixel count of tiles that label a pixel, and `_calculate_tile_overlaps`, the score `w1 * mean + w2 * sum` of each instance.
- `Recombine`: the recombination loop of `ingest_tile_segmentation`. A tile pixel replaces the mask pixel only when its score is strictly greater, so on a tie the earlier tile stays. It also models the before and after cell counts.
- `Core`: the `SegFlow` object and the whole ingest pipeline.
- `Patches`: `SegmentationPatchTiledImage`, covering the bounding-box clamp of `from_image`, `combine_tiles`, `isolate_center_labels`, `find_patches_with_small_labels`, `drop_labels` and `find_patches_with_missing_labels`.
- `SegImage`: `SegmentationImage`, covering constructor validation, `__setitem__` with `_invalidate_cache`, `has_missing_cells` and `apply_binary_mask`.

Python exceptions become `Err` values of a `Result`. In `SegImage` the error carries the exception class and the message the source raises. In `Core` (`SegFlowError`) and `Patches` (`PatchError`) it is only a tag naming the failure. `NotPadded`, for instance, stands both for the ValueError of `_crop_padded` and for the failure of `_extract_tiles` on a missing padded image.

## Model

| member | source | states |
|---|---|---|
| Tiling.PadTotal | src/segflow/core.py:96-97 | the pad total of an axis is at least one tile and less than a tile plus a stride |
| Tiling.SplitPad | src/segflow/core.py:99-102 | the two pad amounts add up to the total and the far one is the near one or one more |
| Tiling.PadFor | src/segflow/core.py:95-102 | both axes are padded by at least a tile in total, split evenly with the extra pixel at the far edge, and the far pads are at least 1 for a positive tile size |
| Tiling.PaddedResidue | src/segflow/core.py:96-97 | after padding, the extent minus one tile is congruent to 2T modulo the stride, whatever the image size |
| Tiling.FlushIffStrideDividesTwiceTile | src/segflow/core.py:96-97 | the tile grid ends flush with the padded edge if and only if the stride divides twice the tile size |
| Tiling.NotFlushExample | src/segflow/core.py:96-97 | tile 5, stride 3, height 10 pads to 15, and the grid stops one row short of the edge |
| Tiling.FlushPadTotal | src/segflow/core.py:96-97 | a pad total within the same bounds after which the padded extent minus one tile is a multiple of the stride |
| Tiling.FlushPadTotalAgrees | src/segflow/core.py:96-97 | where the stride divides 2T (the defaults 512 and 256 do), the source's pad total is the flush one |
| Tiling.StartsFrom | src/segflow/core.py:438-439 | `range(a, n - T + 1, S)` as a list: the start, then the offsets one stride further, while a tile still fits. `StartsFromMembers`, `StartsFromLength` and `StartsFromIncreasing` state its members, length and order |
| Tiling.StartsFromMembers | src/segflow/core.py:438-439 | an offset is visited if and only if it is a stride multiple from the start and its tile fits |
| Tiling.StartsFromLength | src/segflow/core.py:438-439 | the number of offsets is `(n - T - a) // S + 1`, or 0 when no tile fits |
| Tiling.StartsFromIncreasing | src/segflow/core.py:438-439 | offsets are strictly increasing and not below the start |
| Tiling.GridPositions | src/segflow/core.py:438-446 | the nested loop over row and column offsets: every column of the first row, then the next row. `GridPositionsFacts` and `GridPositionsSorted` state its contents and order |
| Tiling.GridPositionsFacts | src/segflow/core.py:438-446 | the nested loop yields exactly every (row offset, column offset) pair, and rows times columns positions in all |
| Tiling.GridPositionsSorted | src/segflow/core.py:438-446 | positions come in strict row-major order |
| Tiling.TilePositions | src/segflow/core.py:438-446 | the corners `_extract_tiles` visits: the row offsets of the height paired with the column offsets of the width. `TilePositionsFit`, `TilePositionsExact` and `TilePositionsCount` state what they are |
| Tiling.TilePositionsFit | src/segflow/core.py:438-446 | every tile window lies inside the raster |
| Tiling.TilePositionsExact | src/segflow/core.py:438-446 | the positions are exactly the stride-multiple corners whose T x T window fits, in row-major order |
| Tiling.TilePositionsCount | src/segflow/core.py:438-446 | the number of tiles is the product of the per-axis counts |
| Tiling.StartsCover | src/segflow/core.py:438-439 | on a flush axis with stride at most T, every index lies in some tile |
| Tiling.FlushPaddingCovers | src/segflow/core.py:96-102 | with the flush pad total and stride at most T, every padded row is covered by a tile |
| Tiling.UncoveredRowExample | src/segflow/core.py:96-102 | T=512, S=350, H=612: the last image row (padded row 898) lies in no tile |
| Tiling.MultipleInStarts | src/segflow/core.py:438-439 | every stride multiple whose tile fits is a visited offset |
| Tiling.ExtractRow | src/segflow/core.py:439-446 | the inner loop appends the row's positions, and every tile so far is the window at its position |
| Tiling.ExtractTiles | src/segflow/core.py:435-447 | the loop returns the grid positions, and tile k is the T x T window of the image at position k |
| Tiling.PadRaster | src/segflow/core.py:104-108 | the padded raster has the padded shape and holds the image at offset (top, left) |
| Tiling.PySliceInterior | src/segflow/core.py:410 | `s[a:-b]` with b ≥ 1 is the middle part of the sequence |
| Tiling.CropPadded | src/segflow/core.py:410-416 | `_crop_padded` with Python slice semantics, including the `-0` stop when a far pad is 0 (the two `if` branches). `CropPaddedShape`, `CropPaddedPixel` and `CropUndoesPad` state what it keeps |
| Tiling.CropPaddedShape | src/segflow/core.py:410-416 | with far pads at least 1, the crop has the unpadded shape |
| Tiling.CropPaddedPixel | src/segflow/core.py:410-416 | pixel (y, x) of the crop is padded pixel (top + y, left + x) |
| Tiling.CropPaddedIsInterior | src/segflow/core.py:410-416 | the crop is exactly the interior window of the padded raster |
| Tiling.CropUndoesPad | src/segflow/core.py:104-108 | cropping a padded image by its recorded pad amounts gives the image back |
| Tiling.ZeroRightPadCropsEverything | src/segflow/core.py:413-416 | the `pad_right == 0` branch, as written, leaves rows with no pixels |
| Confidence.Margin | src/segflow/core.py:258 | the margin is `T // 8`: eight margins fit in a tile with less than eight pixels to spare |
| Confidence.CentreLabels | src/segflow/core.py:265-273 | the nonzero labels with a pixel in the centre window. `InCentreLabels` proves every nonzero centre pixel contributes its label |
| Confidence.Keep | src/segflow/core.py:276-277 | pixels with a centre label keep their value, all others become 0 |
| Confidence.Relabel | src/segflow/core.py:284-288 | pixels of an adjusted label become label + max_label, all others 0 |
| Confidence.LabelsToAdjust | src/segflow/core.py:280-281 | the nonzero labels left after the clean-up, `labels_to_adjust`. `AdjustedPixelLabel` and `NextMaxIncreases` use it |
| Confidence.Adjust | src/segflow/core.py:265-292 | one tile of the loop: clean it, then move its labels up by the running `max_label`. `AdjustPixels` states the result pixel by pixel |
| Confidence.NextMax | src/segflow/core.py:291-292 | the running `max_label` after the tile: its largest adjusted label, or unchanged when no label is left. `AdjustRange` and `NextMaxIncreases` state its bounds |
| Confidence.AdjustPixels | src/segflow/core.py:265-292 | a pixel survives if and only if its label has a pixel in the centre, and then it is shifted by the running max_label |
| Confidence.InCentreLabels | src/segflow/core.py:265-275 | a nonzero label at a pixel of the centre region is one of the tile's centre labels |
| Confidence.AdjustedPixelLabel | src/segflow/core.py:276-288 | a nonzero adjusted pixel, less the offset, is one of the labels selected for adjustment |
| Confidence.CentreKept | src/segflow/core.py:265-288 | no labelled pixel of the centre region is lost |
| Confidence.AdjustRange | src/segflow/core.py:284-292 | adjusted labels lie strictly above the previous max_label and at most at the new one, and max_label never decreases |
| Confidence.NextMaxIncreases | src/segflow/core.py:280-292 | `max_label` grows strictly if and only if some label of the tile survives, and stays exactly the same otherwise |
| Confidence.HighConfidence | src/segflow/core.py:260-297 | the fold over the tiles returns one T x T tile per input tile |
| Confidence.HighConfidenceBounded | src/segflow/core.py:260-297 | every label handed out so far is at most the running max_label |
| Confidence.HighConfidenceSeparated | src/segflow/core.py:260-297 | every label of an earlier tile is smaller than every label of a later tile |
| Confidence.HighConfidenceDisjoint | src/segflow/core.py:260-297 | two different tiles share no nonzero label |
| Confidence.HighConfidenceLabelsDisjoint | src/segflow/core.py:260-297 | the whole output has pairwise disjoint nonzero label sets |
| Confidence.LabelOwnedOnce | src/segflow/core.py:260-297 | under disjointness, a nonzero label of one tile occurs in no other tile |
| Confidence.HighConfidencePixels | src/segflow/core.py:263-294 | each output pixel is 0 or the tile's own centre-reaching label shifted by the max_label before it |
| Confidence.HighConfidenceStep | src/segflow/core.py:263-294 | one iteration adjusts the next tile with the running max_label |
| Confidence.HighConfidenceEntry | src/segflow/core.py:263-294 | output tile k is input tile k adjusted by the max_label of the tiles before it, whatever tiles follow |
| Confidence.HighConfidenceTiles | src/segflow/core.py:258-297 | the loop with its running max_label computes exactly `HighConfidence` |
| Overlaps.ClaimCount | src/segflow/core.py:330-334 | the reference count of a pixel: how many of the placed tiles have a nonzero label there. `AddClaimsCounts` proves the loop computes it |
| Overlaps.ClaimGrid | src/segflow/core.py:312-334 | the density raster has the padded image's shape |
| Overlaps.AddClaims | src/segflow/core.py:316-334 | one iteration keeps the raster's shape |
| Overlaps.ClaimCountStep | src/segflow/core.py:330-334 | the next tile adds one to the count exactly where it claims the pixel |
| Overlaps.AddClaimsCounts | src/segflow/core.py:330-334 | the masked `+= 1` and `= 1` updates turn the counts of k tiles into the counts of k+1 tiles |
| Overlaps.CalculateOverlaps | src/segflow/core.py:312-334 | the loop produces, at each pixel, the number of tiles with a nonzero label there |
| Overlaps.ClaimCountPositive | src/segflow/core.py:327-334 | a count is positive if and only if some tile labels that pixel |
| Overlaps.ClaimCountAtMost | src/segflow/core.py:314-334 | no count exceeds the number of tiles |
| Overlaps.TileScores | src/segflow/core.py:372-393 | a label is scored if and only if it is nonzero, occurs in the tile and has at least min_pixels pixels |
| Overlaps.InstanceScore | src/segflow/core.py:386-390 | the score `w1 * mean + w2 * sum` of one instance, with `mean = sum / count`. `InstanceScoreAtLeast` bounds it from below |
| Overlaps.ScoreTile | src/segflow/core.py:369-396 | the label loop builds exactly the map `TileScores` |
| Overlaps.ScoreAtLeast | src/segflow/core.py:384-390 | an instance whose pixels all have overlap ≥ 1 scores at least w1 + w2 · count |
| Overlaps.InstanceScoreAtLeast | src/segflow/core.py:386-390 | with sum ≥ count, w1 · mean + w2 · sum ≥ w1 + w2 · count |
| Overlaps.Coverage | src/segflow/core.py:354-396 | one score map per pair of `zip(tiles, overlap tiles)` |
| Overlaps.CoverageAt | src/segflow/core.py:354-396 | map k scores tile k against the density window at grid position k |
| Overlaps.DensityUnderTile | src/segflow/core.py:312-334 | under every nonzero pixel of a placed tile the density is at least 1 |
| Overlaps.TileScoresAtLeast | src/segflow/core.py:375-393 | where every labelled pixel has overlap ≥ 1, every recorded score is at least w1 + w2 · count |
| Overlaps.CoverageScoresAtLeast | src/segflow/core.py:354-396 | re-tiling the density of the same tiles on the same grid gives every recorded score at least w1 + w2 · count |
| Overlaps.CalculateTileOverlaps | src/segflow/core.py:354-396 | the re-tiling and scoring loop computes exactly `Coverage` |
| Recombine.TileScore | src/segflow/core.py:207-215 | the score a tile pixel competes with: its label's score, or 0 for background and for a label with no score |
| Recombine.Overwrites | src/segflow/core.py:211-215 | a tile pixel wins over the canvas pixel only when its score is strictly greater. `ArbitratePixel` states what the canvas holds afterwards |
| Recombine.Arbitrate | src/segflow/core.py:203-227 | one tile's pass keeps the shape of the mask and of the score map |
| Recombine.ArbitratePixel | src/segflow/core.py:203-227 | a pixel takes the tile's label and score if and only if the tile labels it with a score strictly above the recorded one; every other pixel is unchanged |
| Recombine.ArbitrateKeepsBest | src/segflow/core.py:211-227 | no recorded score decreases, and each pixel the tile labels ends with a score at least the tile's |
| Recombine.Mosaic | src/segflow/core.py:185-227 | the canvas keeps the padded image's shape |
| Recombine.MosaicScoresNonnegative | src/segflow/core.py:186-227 | recorded scores never drop below the 0 of the empty score map |
| Recombine.MosaicBest | src/segflow/core.py:192-227 | a pixel's recorded score is at least the score of every tile that labels it |
| Recombine.MosaicProvenance | src/segflow/core.py:192-227 | every nonzero mask pixel carries the label and score of a scored instance of a tile covering it |
| Recombine.ScoredByPrefix | src/segflow/core.py:192-227 | a scored instance of a tile among the first n is a scored instance among all tiles |
| Recombine.MosaicLabelOccurs | src/segflow/core.py:192-227 | every nonzero mask label is a label of some tile |
| Recombine.MosaicLabelOwned | src/segflow/core.py:192-227 | with disjoint tile labels, every nonzero mask label belongs to exactly one tile |
| Recombine.AllLabels | src/segflow/core.py:189 | the concatenated unique labels are exactly the union of the tiles' labels |
| Recombine.CellsBeforeAsWritten | src/segflow/core.py:189 | `len(np.unique(np.concatenate(tiles))) - 1` as written: None, standing for the ValueError, if and only if there is no tile |
| Recombine.CellsBefore | src/segflow/core.py:189 | the intended count: the number of distinct nonzero labels over all tiles. `CellsBeforeAgrees` and `CellsAfterAtMostBefore` relate it |
| Recombine.CellsBeforeAgrees | src/segflow/core.py:189 | `total_cells_before` as written is right whenever some tile pixel is background |
| Recombine.CellsBeforeUndercounts | src/segflow/core.py:189 | one tile whose only pixel is labelled 1: as written the count is 0, the true count is 1 |
| Recombine.CellsAfterAtMostBefore | src/segflow/core.py:232-235 | the mask's labels come from the tiles, so `total_cells_after` never exceeds the corrected count before |
| Recombine.AllLabelsPrefix | src/segflow/core.py:189 | the labels of the first m tiles are among the labels of all tiles, so the tiles that get no score map cannot add labels |
| Recombine.MosaicStep | src/segflow/core.py:192-227 | one iteration paints the next tile on the canvas of the earlier ones |
| Recombine.PaintTiles | src/segflow/core.py:192-227 | the loop over the tiles paints exactly `Mosaic` |
| Recombine.Recombine | src/segflow/core.py:184-235 | the loop builds exactly `Mosaic` over the tiles that have a score map. The before count is the as-written count over ALL high-confidence tiles (None standing for the ValueError when there are none). The after count is at most the intended before count, and at most the as-written one whenever a tile pixel is background |
| Core.Stack | src/segflow/core.py:73 | the stacked image pairs the channels pixel by pixel |
| Core.Pipeline | src/segflow/core.py:180-227 | each stage runs over the shortest `zip`: one high-confidence T x T tile per paired position, at most one score map per tile, and a density raster and canvas of the padded shape |
| Core.PipelineProvenance | src/segflow/core.py:180-227 | every nonzero pixel of the assembled mask comes from a scored instance of a covering tile |
| Core.PipelineLabelsFromOneTile | src/segflow/core.py:180-227 | each nonzero label of the assembled mask belongs to exactly one high-confidence tile, so no two tiles' cells merge |
| Core.PipelineScoresAtLeast | src/segflow/core.py:180-182 | on the grid `extract_tiles` leaves, every recorded score is at least w1 + w2 · count |
| Core.AssembleMask | src/segflow/core.py:180-227 | the stages of `ingest_tile_segmentation` run as methods yield exactly the mask `Assembled` specifies |
| Core.Assembled | src/segflow/core.py:185-227 | the assembled mask has the padded image's shape |
| Core.ReflectFailsIffEmpty | src/segflow/core.py:95-108 | with the padding `pad_image` computes for a positive tile size, numpy's reflect padding fails if and only if the image has an empty axis |
| Core.Finish | src/segflow/core.py:192-242 | the last step: the crop of the assembled mask, or `TileOutOfBounds` when a tile window did not fit. `FinishIsInterior` states its shape and contents |
| Core.Ingest | src/segflow/core.py:180-242 | the whole ingestion after tiles exist: `NoTiles` (the ValueError of `np.concatenate([])`) if and only if no tile is paired with a position, `TileOutOfBounds` if and only if some paired window does not fit, otherwise the crop of `Assembled` |
| Core.FinishIsInterior | src/segflow/core.py:192-242 | a mask is returned if and only if every tile fit, and then it has the original image's shape and is the interior window of the assembled padded mask |
| Core.SegFlow.constructor | src/segflow/core.py:37-61 | tile size and stride are stored; the weights and minimum size are 0.7, 0.3 and 5 whatever is passed; nothing is loaded yet |
| Core.SegFlow.LoadNumpyArrays | src/segflow/core.py:63-73 | the image becomes the stack of both channels, the membrane channel defaulting to the nuclear one |
| Core.SegFlow.PadImage | src/segflow/core.py:90-108 | does nothing without an image. Otherwise it records `PadFor`'s amounts, then fails with `EmptyAxis` (reflect padding of an empty axis), leaving the padded image as it was, or stores the padded image together with the shape it was padded from |
| Core.SegFlow.ExtractTiles | src/segflow/core.py:112-123 | cached tiles are returned unchanged; otherwise the padded image is tiled and the result cached |
| Core.SegFlow.CropPadded | src/segflow/core.py:401-420 | without a padded image the crop fails; otherwise it is the crop by the recorded pad amounts |
| Core.SegFlow.IngestTileSegmentation | src/segflow/core.py:171-242 | fails before tiles are extracted; with no segmented tile it fails with `NoTiles`; otherwise it returns what `Ingest` returns. For T ≥ 1 a returned mask has the shape of the image that was padded, provided the recorded pad amounts are the ones that image was padded with (they differ only after a failed re-pad) |
| Patches.ClampBox | src/segflow/tiled_image/segmentation_patch_tiled_image.py:59-108 | the clamp of `from_image` on both axes: the window's top-left corner and which edges it touched. `ClampBoxEvenFits` proves the window fits for even sizes |
| Patches.ClampAxis | src/segflow/tiled_image/segmentation_patch_tiled_image.py:72-96 | the low flag fires if and only if the window starts before 0, the high flag if and only if it ends past the extent, and the start is moved accordingly |
| Patches.ClampBoxEvenFits | src/segflow/tiled_image/segmentation_patch_tiled_image.py:59-108 | with even box sides no larger than the image, the cut window lies inside the image; the top and left flags are set exactly when the window would start before 0, and a set bottom or right flag means the window ends at the far edge |
| Patches.ClampAxisEvenFits | src/segflow/tiled_image/segmentation_patch_tiled_image.py:72-108 | the same for one axis |
| Patches.ClampOddOverruns | src/segflow/tiled_image/segmentation_patch_tiled_image.py:72-108 | an odd side at centroid extent − size//2 fires no clamp, yet the slice is one row short |
| Patches.ClampAxisFixed | src/segflow/tiled_image/segmentation_patch_tiled_image.py:72-108 | the corrected clamp that tests the window's real end. `ClampAxisFixedFits` and `ClampAxisFixedAgreesEven` state it |
| Patches.ClampAxisFixedFits | src/segflow/tiled_image/segmentation_patch_tiled_image.py:72-108 | with the window end taken as start + size, the window lies inside the image for every size up to the extent |
| Patches.ClampAxisFixedAgreesEven | src/segflow/tiled_image/segmentation_patch_tiled_image.py:72-96 | for even sizes the corrected clamp is the source's |
| Patches.Placement | src/segflow/tiled_image/segmentation_patch_tiled_image.py:198-217 | an accepted patch lies inside the output, at its recorded position when that is non-negative |
| Patches.Paint | src/segflow/tiled_image/segmentation_patch_tiled_image.py:209-223 | pixels under a positive patch pixel take the patch value; all others are unchanged |
| Patches.Combine | src/segflow/tiled_image/segmentation_patch_tiled_image.py:188-226 | a successful combine has the original shape |
| Patches.CombineErrorSticks | src/segflow/tiled_image/segmentation_patch_tiled_image.py:205-217 | the first patch that fails its checks makes the whole call fail with its error |
| Patches.CombineUnpainted | src/segflow/tiled_image/segmentation_patch_tiled_image.py:192-223 | an output pixel is 0 if and only if no patch paints it |
| Patches.CombineLastWins | src/segflow/tiled_image/segmentation_patch_tiled_image.py:192-223 | each output pixel holds the value of the last patch that is positive there, and 0 where none is |
| Patches.CombineOkIff | src/segflow/tiled_image/segmentation_patch_tiled_image.py:198-217 | for non-negative positions, combining succeeds if and only if every patch fits the output |
| Patches.KeepOnly | src/segflow/tiled_image/segmentation_patch_tiled_image.py:274 | a pixel keeps its value if and only if it equals the region label, else 0 |
| Patches.Isolate | src/segflow/tiled_image/segmentation_patch_tiled_image.py:267-274 | the number of patches is unchanged |
| Patches.IsolateOnlyRegion | src/segflow/tiled_image/segmentation_patch_tiled_image.py:267-274 | an isolated patch holds only 0 and its region label, and every pixel of that label is kept |
| Patches.IsolateIdempotent | src/segflow/tiled_image/segmentation_patch_tiled_image.py:260-276 | isolating twice equals isolating once |
| Patches.IsolateKeepsPresence | src/segflow/tiled_image/segmentation_patch_tiled_image.py:274 | a nonzero region label is present after isolation if and only if it was before |
| Patches.SmallLabels | src/segflow/tiled_image/segmentation_patch_tiled_image.py:336-355 | a label is reported if and only if some patch has it, positive, with fewer than min_area pixels |
| Patches.IsolatedSmallLabelsAreRegions | src/segflow/tiled_image/segmentation_patch_tiled_image.py:260-355 | after isolation, every small label is some patch's region label |
| Patches.Kept | src/segflow/tiled_image/segmentation_patch_tiled_image.py:376-389 | the kept indices are exactly the patches whose region label is not dropped, in increasing order |
| Patches.DropInPlace | src/segflow/tiled_image/segmentation_patch_tiled_image.py:376-384 | the patch count is unchanged |
| Patches.DropInPlaceStep | src/segflow/tiled_image/segmentation_patch_tiled_image.py:376-389 | one more described patch processed extends the in-place result by that patch |
| Patches.DroppedLabelsGone | src/segflow/tiled_image/segmentation_patch_tiled_image.py:384 | in a kept patch every pixel is 0, or a label not dropped and unchanged |
| Patches.MissingLabels | src/segflow/tiled_image/segmentation_patch_tiled_image.py:413-424 | a label is reported if and only if it is the region label of a patch holding none of its pixels |
| Patches.MissingUnchangedByIsolate | src/segflow/tiled_image/segmentation_patch_tiled_image.py:260-276 | for nonzero region labels, isolation does not change the missing labels |
| Patches.MissingPrefixAgree | src/segflow/tiled_image/segmentation_patch_tiled_image.py:416-422 | the missing labels depend only on the described patches |
| Patches.SegmentationPatchTiledImage.FromTiledArray | src/segflow/tiled_image/segmentation_patch_tiled_image.py:141-163 | the object holds the given patches, positions, original shape and descriptions |
| Patches.SegmentationPatchTiledImage.CombineTiles | src/segflow/tiled_image/segmentation_patch_tiled_image.py:178-226 | the loop computes exactly `Combine` |
| Patches.SegmentationPatchTiledImage.IsolateCenterLabels | src/segflow/tiled_image/segmentation_patch_tiled_image.py:260-276 | the patch array becomes `Isolate` of its old contents, in place |
| Patches.SegmentationPatchTiledImage.FindPatchesWithSmallLabels | src/segflow/tiled_image/segmentation_patch_tiled_image.py:326-355 | the nested loop returns exactly `SmallLabels` |
| Patches.SegmentationPatchTiledImage.DropLabels | src/segflow/tiled_image/segmentation_patch_tiled_image.py:358-404 | patches of this object are zeroed in place; fails with "All patches were removed." if and only if nothing is kept; otherwise a fresh object holds the kept patches, descriptions and positions in order |
| Patches.SegmentationPatchTiledImage.ZeroDroppedLabels | src/segflow/tiled_image/segmentation_patch_tiled_image.py:376-389 | the loop of `drop_labels`: kept patches are zeroed in place (`DropInPlace` of the old patches), and the new patches, descriptions and positions select the kept indices in order |
| Patches.SegmentationPatchTiledImage.FindPatchesWithMissingLabels | src/segflow/tiled_image/segmentation_patch_tiled_image.py:406-424 | the loop returns exactly `MissingLabels` |
| SegImage.Validate | src/segflow/full_image/segmentation_image.py:30-35 | a non-array is a TypeError, a non-2D array a ValueError, and a dtype that is neither integer nor bool a TypeError, in that order; the rest is accepted unchanged |
| SegImage.SegmentationImage.Create | src/segflow/full_image/segmentation_image.py:23-49 | fails exactly as `Validate` does; otherwise a fresh image holds the input pixels with every cache empty |
| SegImage.SegmentationImage.InvalidateCache | src/segflow/full_image/segmentation_image.py:72-83 | the eight property caches become empty; the segment-patch cache is left as it was |
| SegImage.PixelIndex | src/segflow/full_image/segmentation_image.py:85-90 | numpy's single-pixel index: Ok if and only if each index lies in [-n, n), and then a position inside the array; otherwise the IndexError for the first axis out of range |
| SegImage.PixelIndexWraps | src/segflow/full_image/segmentation_image.py:85-90 | a negative index counts from the end, a non-negative one is used as is |
| SegImage.SegmentationImage.SetItem | src/segflow/full_image/segmentation_image.py:85-90 | an index out of range raises IndexError and changes nothing; otherwise exactly the indexed pixel changes, to the value as stored in the dtype, and then every property cache is empty |
| SegImage.SegmentationImage.SetMasked | src/segflow/full_image/segmentation_image.py:85-90 | a boolean-mask write sets exactly the masked pixels, and then every property cache is empty |
| SegImage.Stored | src/segflow/full_image/segmentation_image.py:85-90 | a bool array stores 1 exactly for a nonzero value and 0 otherwise; integer arrays store the value |
| SegImage.SegmentationImage.HasMissingCells | src/segflow/full_image/segmentation_image.py:140-157 | the scan answers whether some nonzero label of the image has no pixel |
| SegImage.HasMissing | src/segflow/full_image/segmentation_image.py:148-157 | some label of `np.unique(self)` has no pixel. `NeverMissing` proves this never holds |
| SegImage.NeverMissing | src/segflow/full_image/segmentation_image.py:148-157 | every label taken from the image has a pixel, so `has_missing_cells` always returns False |
| SegImage.LabelsToZero | src/segflow/full_image/segmentation_image.py:553-586 | the labels each method selects for zeroing, or the error: ValueError without centroids or for an unknown method, IndexError when a truncated centroid falls outside the mask, and IndexError when an `all_in` or `any_in` mask does not have the image's shape. `ApplyBinaryMaskValueErrors`, `AllInLabelsKept`, `AnyInLabelsKept` and `CentroidOverlapZeroesExactly` state which |
| SegImage.MaskResult | src/segflow/full_image/segmentation_image.py:531-590 | a result keeps the image shape, and each output pixel is the original value or 0 |
| SegImage.ApplyBinaryMaskMaskErrors | src/segflow/full_image/segmentation_image.py:542-547 | TypeError if and only if the mask is not a SegmentationImage; NameError if and only if it is one whose values are not exactly {0, 1} and whose dtype is not bool |
| SegImage.ApplyBinaryMaskValueErrors | src/segflow/full_image/segmentation_image.py:553-586 | ValueError "Invalid method" if and only if the method is unknown; the centroids ValueError if and only if `centroid_overlap` has no centroids |
| SegImage.ApplyBinaryMaskOkIff | src/segflow/full_image/segmentation_image.py:542-586 | a result is returned if and only if the mask passes both checks, the method is known, and either the mask has the image's shape (`all_in`, `any_in`) or every centroid indexes inside the mask (`centroid_overlap`) |
| SegImage.AllInKeepsExactly | src/segflow/full_image/segmentation_image.py:568-573 | `all_in`: a pixel keeps its label if and only if every pixel of that label lies where the mask is > 0, else it is 0 |
| SegImage.AllInLabelsKept | src/segflow/full_image/segmentation_image.py:568-573 | `all_in` keeps a nonzero label if and only if it occurs and all its pixels lie inside the mask |
| SegImage.AnyInKeepsExactly | src/segflow/full_image/segmentation_image.py:575-583 | `any_in`: a pixel keeps its label if and only if some pixel of that label lies where the mask is > 0, else it is 0 |
| SegImage.AnyInLabelsKept | src/segflow/full_image/segmentation_image.py:575-583 | `any_in` keeps a nonzero label if and only if it occurs and some pixel of it lies inside the mask |
| SegImage.CentroidOverlapZeroesExactly | src/segflow/full_image/segmentation_image.py:553-566 | `centroid_overlap`: a pixel is zeroed if and only if its label has a centroid that, truncated to an index, falls on a mask pixel that is not > 0 |
| SegImage.FalseAreaLabelsIff | src/segflow/full_image/segmentation_image.py:569-570 | a label is in `np.unique(self[~mask])` if and only if not all its pixels are inside the mask |
| SegImage.TrueAreaLabelsIff | src/segflow/full_image/segmentation_image.py:577 | a label is in `np.unique(self[mask])` if and only if some pixel of it is inside the mask |
| SegImage.AssignedZeroIsZeroOut | src/segflow/full_image/segmentation_image.py:571-573 | zeroing through the `np.isin` mask equals replacing the listed labels by 0 |
| SegImage.Trunc | src/segflow/full_image/segmentation_image.py:562 | `int(r)` is the floor for non-negative r and rounds toward zero for negative r |
| SegImage.AxisIndex | src/segflow/full_image/segmentation_image.py:562 | an integer index is valid if and only if it lies in [−n, n); negative ones count from the end |
| SegImage.AllForegroundMaskRaises | src/segflow/full_image/segmentation_image.py:546-547 | an integer mask that is 1 everywhere raises NameError instead of masking |
| SegImage.MaskResultIntended | src/segflow/full_image/segmentation_image.py:541-590 | without the call of the undefined `warn`, masking agrees with the source on every strictly binary mask |
| SegImage.IntendedAllForegroundKeepsAll | src/segflow/full_image/segmentation_image.py:549-573 | with the warning merely issued, `all_in` under a mask that is > 0 everywhere returns the image unchanged |
| SegImage.SegmentationImage.ApplyBinaryMask | src/segflow/full_image/segmentation_image.py:531-590 | checks the mask and method, zeroes the chosen labels in a fresh copy with a masked write, and returns a fresh image equal to `MaskResult`; `self` is not changed |

## Left out

- The segmentation model call and batching (`run_segmentation`), `normalize_image` and `combine_continuous_tiles`. These are a foreign model, floating-point statistics and blending. `Core.SegFlow.IngestTileSegmentation` takes the model's output tiles as a parameter.
- `randomize_segmentation`, which depends on a random permutation.
- The morphology routines, the regionprops-based properties and the md5 checksum of `SegmentationImage`. These wrap cv2, skimage, scipy and hashlib. The cache fields exist, but what fills them is not modelled, and neither is the checksum.
- `remove_disjointed_pixels` and `find_patches_with_circumscribed_labels`, which rely on connected-component labelling. The first `combine_tiles`, which only raises NotImplementedError and is shadowed by the second.
- Progress output (`print`, tqdm) and the `total_pixels_overwritten` counter, which is only printed.
- Tiling.PadRaster: numpy's reflect mode is the parameter `fill`, which is not constrained.
- Core.SegFlow.PadImage: same as `Tiling.PadRaster`; `fill` stands for reflect mode. The ValueError numpy raises for an empty axis is modelled as `EmptyAxis`.
- Tiling.ExtractTiles: requires stride ≥ 1. With stride 0 the source raises from `range` and from `% stride`, and a negative stride yields no tiles. Neither case is modelled.
- Core.SegFlow.IngestTileSegmentation: the segmented tiles must be T x T label rasters. The `squeeze` branches for a trailing channel axis are not modelled. The result is the cropped grid, not wrapped in a `SegmentationImage`.
- Overlaps.TileScores: scores are exact reals. The float32 score map and numpy's floating-point mean are not modelled, so rounding that could change which tile wins a near-tie is not captured.
- Recombine.Recombine: labels, counts and the mask are unbounded integers. int32 overflow of `full_segmentation_mask` and of the overlap counts is not modelled.
- Confidence.HighConfidence: labels are `nat`, while the source accepts tiles of any integer dtype. Negative labels in a tile are not modelled.
- Confidence.HighConfidence: `label + max_label` is computed in the tile's own dtype (`np.zeros_like` at core.py:285 keeps it, e.g. uint16). Wrap-around once the running `max_label` passes the dtype's range is not modelled; the model's labels keep growing.
- Core.SegFlow.ExtractTiles: the cache is not invalidated when a new image is loaded or padded, exactly as in the source. Stale positions are accepted only if their windows fit the padded image; otherwise ingestion fails with `TileOutOfBounds`.
- `from_image` beyond the clamp of lines 59-108 (the attributes it reads do not exist on `SegmentationImage`) and the base class that `from_tiled_array` delegates to. `src/segflow/tiled_image/segmentation_tiled_image.py` is not part of this model. `Patches.SegmentationPatchTiledImage.FromTiledArray` takes its fields as given.
- Patches.PatchDescription: only the region label and bounding-box position are kept. The centroid, area and other entries are not read by the modelled operations.
- Patches.SegmentationPatchTiledImage.DropLabels: `drop` stands for a list or array of labels, as the docstring gives it. With a Python `set` (what `find_patches_with_small_labels` returns), `region_label in labels_to_drop` still tests membership, but `np.isin` treats the set as one object and matches no pixel, so no pixel is zeroed. That case is not modelled: the model zeroes the dropped labels in the kept patches as `Patches.DroppedLabelsGone` states. `ZeroDroppedLabels` is modelled on the same terms.
- SegImage.SegmentationImage.SetItem: only single-pixel integer keys are modelled, negative ones and the IndexError included. `SetMasked` covers boolean-mask keys of the image's shape only. A boolean key of any other shape makes numpy raise IndexError ("boolean index did not match indexed array"); `SetMasked` requires the shape, so that error is not modelled. Slices and fancy indexing are not modelled. Integer dtypes do not wrap around: a value outside the dtype's range is stored as is.
- SegImage.SegmentationImage.Create: the new image owns a copy of the input pixels. `np.asarray(...).view(cls)` shares the input's buffer; that aliasing is not modelled.
- SegImage.SegmentationImage.ApplyBinaryMask: the centroids are a parameter standing for what the `centroids` property returns. Their computation by regionprops is not modelled. In the source the `centroids` property always computes a dict (segmentation_image.py:93-96, 274-291), so the ValueError for missing centroids cannot occur there. The model keeps that branch for a `None` argument. The numpy messages for the two IndexError cases are paraphrased.

## Findings

| source | as written | input that shows it | evidently intended | confidence | as-written member | corrected member |
|---|---|---|---|---|---|---|
| src/segflow/core.py:96-97 | the pad total `T + ((T - (H - T) % S) % S)` leaves the tile grid flush with the padded edge only when S divides 2T | T=512, S=350, H=612: pad 574 (287 + 287), padded 1186, tiles at rows 0 and 350 end at 861, so image row 611 (padded row 898) is in no tile | padding so that the padded extent minus one tile is a multiple of the stride, so every row is covered | not executed | Tiling.UncoveredRowExample | Tiling.FlushPadTotal (covering proved by Tiling.FlushPaddingCovers; Tiling.FlushPadTotalAgrees shows it equals the source's total for the default 512/256) |
| src/segflow/tiled_image/segmentation_patch_tiled_image.py:72-108 | the high clamp tests `c + size // 2 > extent` but the slice ends at `start + size`, one further for odd sizes | extent 10, box side 5, centroid 8: y_min 6, y_max 10 fires no clamp, the slice `6:11` has 4 rows and cannot fill a 5-row patch | clamp on the end the slice actually uses, `start + size` | not executed | Patches.ClampOddOverruns | Patches.ClampAxisFixedFits |
| src/segflow/core.py:189 | `total_cells_before` subtracts 1 for the background even when no tile pixel is 0 | one 1 x 1 tile labelled 1: reports 0 cells | the number of distinct nonzero labels | not executed | Recombine.CellsBeforeUndercounts | Recombine.CellsAfterAtMostBefore (on `Recombine.CellsBefore`, which bounds the after count of `Recombine.Recombine`) |
| src/segflow/full_image/segmentation_image.py:546-547 | `warn` is never imported, so a mask whose distinct values are not exactly [0, 1] and whose dtype is not bool raises NameError | an integer mask that is 1 everywhere, method `all_in` | issue a warning and mask with nonzero meaning true | not executed | SegImage.AllForegroundMaskRaises | SegImage.IntendedAllForegroundKeepsAll (on `SegImage.MaskResultIntended`) |

In the first and last rows the object methods keep the source's behaviour: `PadFor` uses the source's pad total, and `SegmentationImage.ApplyBinaryMask` raises the NameError. The corrected definitions sit beside them with their properties proved.
