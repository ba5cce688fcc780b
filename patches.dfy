/**
 * Per-cell patches (segmentation_patch_tiled_image.py): one fixed-size label patch around each segmented
 * cell, with the description of the cell it was cut for.
 */
module Patches {
  import opened Wrappers
  import opened Grids

  /** The `on_edge` flags of a patch description (lines 78-96). */
  datatype OnEdge = OnEdge(top: bool, bottom: bool, left: bool, right: bool)

  /** The entries of a patch description the modelled operations read. */
  datatype PatchDescription = PatchDescription(regionLabel: int, bboxPosition: (int, int))

  /** The `ValueError`s of `combine_tiles` and `drop_labels`. */
  datatype PatchError =
    | ExceedsBounds(index: nat)  // lines 205-206
    | ShapeMismatch(index: nat)  // lines 215-217
    | AllPatchesRemoved          // lines 392-393

  // ---------------------------------------------------------------------------------------------
  // Bounding-box clamp of `from_image`
  // ---------------------------------------------------------------------------------------------

  /** One axis of the clamp: the window start and end, and whether the low and the high clamp fired. */
  datatype AxisClamp = AxisClamp(lo: int, hi: int, low: bool, high: bool)

  /**
   * The clamp of lines 72-96 along one axis: a window of `half` either side of the centroid coordinate,
   * moved to the start when it begins before 0 and to the end when it ends past `extent`.
   */
  function ClampAxis(c: int, size: nat, extent: nat): (r: AxisClamp)
    ensures r.low <==> c - size / 2 < 0
    ensures r.high <==> (if r.low then size else c + size / 2) > extent
    ensures r.lo == (if r.high then extent - size else if r.low then 0 else c - size / 2)
  {
    var half := size / 2;
    var low := c - half < 0;
    var lo1, hi1 := if low then 0 else c - half, if low then size else c + half;
    var high := hi1 > extent;
    AxisClamp(if high then extent - size else lo1, if high then extent else hi1, low, high)
  }

  /** The position and the edge flags `from_image` records for a centroid (lines 59-96, 116-117). */
  function ClampBox(centroid: (int, int), bbox: (nat, nat), shape: (nat, nat)): (r: ((int, int), OnEdge))
  {
    var ys, xs := ClampAxis(centroid.0, bbox.0, shape.0), ClampAxis(centroid.1, bbox.1, shape.1);
    ((ys.lo, xs.lo), OnEdge(ys.low, ys.high, xs.low, xs.high))
  }

  /**
   * With even bounding-box sides no larger than the image, the window `[lo, lo + size)` that line 108 cuts
   * lies inside the image for every centroid, and each edge flag says which clamp fired.
   */
  lemma ClampBoxEvenFits(centroid: (int, int), bbox: (nat, nat), shape: (nat, nat))
    requires bbox.0 % 2 == 0 && bbox.1 % 2 == 0
    requires bbox.0 <= shape.0 && bbox.1 <= shape.1
    ensures var (pos, edge) := ClampBox(centroid, bbox, shape);
            0 <= pos.0 && pos.0 + bbox.0 <= shape.0 && 0 <= pos.1 && pos.1 + bbox.1 <= shape.1 &&
            (edge.top <==> centroid.0 - bbox.0 / 2 < 0) && (edge.left <==> centroid.1 - bbox.1 / 2 < 0) &&
            (edge.bottom ==> pos.0 + bbox.0 == shape.0) && (edge.right ==> pos.1 + bbox.1 == shape.1)
  {
    ClampAxisEvenFits(centroid.0, bbox.0, shape.0);
    ClampAxisEvenFits(centroid.1, bbox.1, shape.1);
  }

  lemma ClampAxisEvenFits(c: int, size: nat, extent: nat)
    requires size % 2 == 0 && size <= extent
    ensures var r := ClampAxis(c, size, extent);
            0 <= r.lo && r.lo + size <= extent && r.hi == r.lo + size
  {
    var half := size / 2;
    assert half + half == size;
  }

  /**
   * With an odd side of at least 3, no larger than the image, the centroid `extent - size / 2` (a pixel of
   * the image) fires neither clamp, yet the window `[lo, lo + size)` ends one past the image, so the slice
   * of line 108 has one row too few and cannot be stored in the patch array.
   */
  lemma ClampOddOverruns(extent: nat, size: nat, rows: seq<int>)
    requires size % 2 == 1 && 3 <= size <= extent && |rows| == extent
    ensures var c := extent - size / 2;
            var r := ClampAxis(c, size, extent);
            0 <= c < extent && !r.low && !r.high && r.lo + size == extent + 1 &&
            |PySlice(rows, r.lo, r.lo + size)| == size - 1
  {
    var half := size / 2;
    assert half + half + 1 == size;
  }

  /** The clamp with the window end taken as `start + size`, as the slice of line 106-108 assumes. */
  function ClampAxisFixed(c: int, size: nat, extent: nat): (r: AxisClamp)
  {
    var lo0 := c - size / 2;
    var low := lo0 < 0;
    var lo1, hi1 := if low then 0 else lo0, if low then size else lo0 + size;
    var high := hi1 > extent;
    AxisClamp(if high then extent - size else lo1, if high then extent else hi1, low, high)
  }

  /** The corrected clamp keeps the window inside the image for every size up to the extent. */
  lemma ClampAxisFixedFits(c: int, size: nat, extent: nat)
    requires size <= extent
    ensures var r := ClampAxisFixed(c, size, extent);
            0 <= r.lo && r.lo + size <= extent && r.hi == r.lo + size &&
            (r.low <==> c - size / 2 < 0) && (r.high ==> r.hi == extent)
  {
  }

  /** For even sizes the corrected clamp is the one the source runs. */
  lemma ClampAxisFixedAgreesEven(c: int, size: nat, extent: nat)
    requires size % 2 == 0
    ensures ClampAxisFixed(c, size, extent) == ClampAxis(c, size, extent)
  {
    var half := size / 2;
    assert half + half == size;
  }

  // ---------------------------------------------------------------------------------------------
  // combine_tiles
  // ---------------------------------------------------------------------------------------------

  /** The length of `s[start:stop]` for a sequence of length n. */
  function SliceLength(start: int, stop: int, n: nat): (len: nat)
    ensures len <= n
  {
    var a, b := SliceBound(start, n), SliceBound(stop, n);
    if a < b then b - a else 0
  }

  /**
   * The checks of lines 200-217 for patch i at `pos` of an h x w output: where the patch is painted (the
   * start of the region `output[y_min:y_max, x_min:x_max]`), or the error raised.
   */
  function Placement(patch: Grid<int>, pos: (int, int), h: nat, w: nat, i: nat): (r: Result<(nat, nat), PatchError>)
    ensures r.Ok? ==> r.value.0 + |patch| <= h && r.value.1 + Width(patch) <= w
    ensures r.Ok? && pos.0 >= 0 && pos.1 >= 0 ==> r.value == (pos.0 as nat, pos.1 as nat)
  {
    var ph, pw := |patch|, Width(patch);
    if pos.0 + ph > h || pos.1 + pw > w then Err(ExceedsBounds(i))
    else if SliceLength(pos.0, pos.0 + ph, h) != ph || SliceLength(pos.1, pos.1 + pw, w) != pw then Err(ShapeMismatch(i))
    else Ok((SliceBound(pos.0, h), SliceBound(pos.1, w)))
  }

  /** The patch placed at `at` has a nonzero pixel at (y, x) (the mask `patch > 0` of line 209). */
  predicate Paints(patch: Grid<int>, at: (nat, nat), y: int, x: int) {
    at.0 <= y < at.0 + |patch| && at.1 <= x < at.1 + |patch[y - at.0]| && patch[y - at.0][x - at.1] > 0
  }

  /** `output_image_region[patch_mask] = patch[patch_mask]` (lines 220-223). */
  function Paint(out: Grid<int>, patch: Grid<int>, at: (nat, nat)): (r: Grid<int>)
    ensures SameShape(out, r)
    ensures forall y, x :: 0 <= y < |out| && 0 <= x < |out[y]| ==>
              r[y][x] == if Paints(patch, at, y, x) then patch[y - at.0][x - at.1] else out[y][x]
  {
    seq(|out|, y requires 0 <= y < |out| => seq(|out[y]|, x requires 0 <= x < |out[y]| =>
      if Paints(patch, at, y, x) then patch[y - at.0][x - at.1] else out[y][x]))
  }

  /** The loop of lines 192-223 over the first |ds| patches: the painted output, or the first error. */
  function Combine(patches: seq<Grid<int>>, ds: seq<PatchDescription>, h: nat, w: nat): (r: Result<Grid<int>, PatchError>)
    requires |ds| <= |patches|
    ensures r.Ok? ==> IsRect(r.value, h, w)
  {
    if ds == [] then Ok(Fill(h, w, 0))
    else
      var n := |ds| - 1;
      match Combine(patches, ds[..n], h, w)
      case Err(e) => Err(e)
      case Ok(out) =>
        match Placement(patches[n], ds[n].bboxPosition, h, w, n)
        case Err(e) => Err(e)
        case Ok(at) => Ok(Paint(out, patches[n], at))
  }

  /** Patch k passes the checks and paints pixel (y, x). */
  predicate PaintsAt(patches: seq<Grid<int>>, ds: seq<PatchDescription>, h: nat, w: nat, k: nat, y: int, x: int)
    requires k < |ds| <= |patches|
  {
    var p := Placement(patches[k], ds[k].bboxPosition, h, w, k);
    p.Ok? && Paints(patches[k], p.value, y, x)
  }

  /** The value patch k paints at (y, x). */
  function PaintedValue(patches: seq<Grid<int>>, ds: seq<PatchDescription>, h: nat, w: nat, k: nat, y: int, x: int): int
    requires k < |ds| <= |patches| && PaintsAt(patches, ds, h, w, k, y, x)
  {
    var at := Placement(patches[k], ds[k].bboxPosition, h, w, k).value;
    patches[k][y - at.0][x - at.1]
  }

  /** Once a patch fails its checks, the whole loop fails with that patch's error. */
  lemma {:induction false} CombineErrorSticks(patches: seq<Grid<int>>, ds: seq<PatchDescription>, h: nat, w: nat, i: nat)
    requires i <= |ds| <= |patches|
    requires Combine(patches, ds[..i], h, w).Err?
    ensures Combine(patches, ds, h, w) == Combine(patches, ds[..i], h, w)
    decreases |ds|
  {
    if i < |ds| {
      var n := |ds| - 1;
      assert ds[..n][..i] == ds[..i];
      CombineErrorSticks(patches, ds[..n], h, w, i);
    } else {
      assert ds[..i] == ds;
    }
  }

  /** A patch among the first n descriptions paints the same pixels, with the same values, in the prefix. */
  lemma PrefixPaintsAt(patches: seq<Grid<int>>, ds: seq<PatchDescription>, h: nat, w: nat, n: nat, k: nat, y: int, x: int)
    requires k < n <= |ds| <= |patches|
    ensures PaintsAt(patches, ds[..n], h, w, k, y, x) == PaintsAt(patches, ds, h, w, k, y, x)
    ensures PaintsAt(patches, ds, h, w, k, y, x) ==>
              PaintedValue(patches, ds[..n], h, w, k, y, x) == PaintedValue(patches, ds, h, w, k, y, x)
  {
    assert ds[..n][k] == ds[k];
  }

  /** A pixel of the combined image is 0 exactly when no patch paints it. */
  lemma {:induction false} CombineUnpainted(patches: seq<Grid<int>>, ds: seq<PatchDescription>, h: nat, w: nat, y: nat, x: nat)
    requires |ds| <= |patches| && Combine(patches, ds, h, w).Ok?
    requires y < h && x < w
    ensures Combine(patches, ds, h, w).value[y][x] == 0 <==> forall k :: 0 <= k < |ds| ==> !PaintsAt(patches, ds, h, w, k, y, x)
  {
    var out := Combine(patches, ds, h, w).value;
    if ds != [] {
      var n := |ds| - 1;
      var prev := Combine(patches, ds[..n], h, w);
      if prev.Err? {
        assert false;
      }
      CombineUnpainted(patches, ds[..n], h, w, y, x);
      var at := Placement(patches[n], ds[n].bboxPosition, h, w, n).value;
      assert out == Paint(prev.value, patches[n], at);
      assert PaintsAt(patches, ds, h, w, n, y, x) == Paints(patches[n], at, y, x);
      forall k | 0 <= k < n {
        PrefixPaintsAt(patches, ds, h, w, n, k, y, x);
      }
    }
  }

  /**
   * Each pixel of the combined image holds the value of the last patch, in description order, that is
   * nonzero there, and 0 where no patch is.
   */
  lemma {:induction false} CombineLastWins(patches: seq<Grid<int>>, ds: seq<PatchDescription>, h: nat, w: nat, y: nat, x: nat)
    requires |ds| <= |patches| && Combine(patches, ds, h, w).Ok?
    requires y < h && x < w
    ensures var out := Combine(patches, ds, h, w).value;
            (out[y][x] == 0 <==> forall k :: 0 <= k < |ds| ==> !PaintsAt(patches, ds, h, w, k, y, x)) &&
            forall k :: 0 <= k < |ds| && PaintsAt(patches, ds, h, w, k, y, x) &&
                        (forall j :: k < j < |ds| ==> !PaintsAt(patches, ds, h, w, j, y, x)) ==>
                          out[y][x] == PaintedValue(patches, ds, h, w, k, y, x)
  {
    CombineUnpainted(patches, ds, h, w, y, x);
    var out := Combine(patches, ds, h, w).value;
    if ds != [] {
      var n := |ds| - 1;
      var prev := Combine(patches, ds[..n], h, w);
      if prev.Err? {
        assert false;
      }
      CombineLastWins(patches, ds[..n], h, w, y, x);
      var at := Placement(patches[n], ds[n].bboxPosition, h, w, n).value;
      assert out == Paint(prev.value, patches[n], at);
      var last := Paints(patches[n], at, y, x);
      assert PaintsAt(patches, ds, h, w, n, y, x) == last;
      forall k | 0 <= k < |ds| && PaintsAt(patches, ds, h, w, k, y, x) &&
                 (forall j :: k < j < |ds| ==> !PaintsAt(patches, ds, h, w, j, y, x))
        ensures out[y][x] == PaintedValue(patches, ds, h, w, k, y, x)
      {
        if k == n {
          assert out[y][x] == patches[n][y - at.0][x - at.1];
        } else {
          assert !last;
          PrefixPaintsAt(patches, ds, h, w, n, k, y, x);
          forall j | k < j < n {
            PrefixPaintsAt(patches, ds, h, w, n, j, y, x);
          }
          assert prev.value[y][x] == PaintedValue(patches, ds[..n], h, w, k, y, x);
          assert out[y][x] == prev.value[y][x];
        }
      }
    }
  }

  /** When every position is non-negative, the loop succeeds exactly when every patch fits the output. */
  lemma {:induction false} CombineOkIff(patches: seq<Grid<int>>, ds: seq<PatchDescription>, h: nat, w: nat)
    requires |ds| <= |patches|
    requires forall k :: 0 <= k < |ds| ==> ds[k].bboxPosition.0 >= 0 && ds[k].bboxPosition.1 >= 0
    ensures Combine(patches, ds, h, w).Ok? <==>
            forall k :: 0 <= k < |ds| ==> ds[k].bboxPosition.0 + |patches[k]| <= h && ds[k].bboxPosition.1 + Width(patches[k]) <= w
  {
    if ds != [] {
      var n := |ds| - 1;
      CombineOkIff(patches, ds[..n], h, w);
      assert forall k :: 0 <= k < n ==> ds[..n][k] == ds[k];
    }
  }

  // ---------------------------------------------------------------------------------------------
  // isolate_center_labels
  // ---------------------------------------------------------------------------------------------

  /** `np.where(patch == v, patch, 0)` (line 274). */
  function KeepOnly(g: Grid<int>, v: int): (r: Grid<int>)
    ensures SameShape(g, r)
    ensures forall y, x :: 0 <= y < |g| && 0 <= x < |g[y]| ==> r[y][x] == if g[y][x] == v then v else 0
  {
    seq(|g|, y requires 0 <= y < |g| => seq(|g[y]|, x requires 0 <= x < |g[y]| => if g[y][x] == v then g[y][x] else 0))
  }

  /** The patches after `isolate_center_labels`: each patch with a description keeps only its region label. */
  function Isolate(ps: seq<Grid<int>>, ds: seq<PatchDescription>): (r: seq<Grid<int>>)
    ensures |r| == |ps|
  {
    seq(|ps|, i requires 0 <= i < |ps| => if i < |ds| then KeepOnly(ps[i], ds[i].regionLabel) else ps[i])
  }

  /** An isolated patch holds only 0 and its region label; pixels carrying the label are unchanged. */
  lemma IsolateOnlyRegion(ps: seq<Grid<int>>, ds: seq<PatchDescription>, i: nat)
    requires i < |ps| && i < |ds|
    ensures Values(Isolate(ps, ds)[i]) <= {0, ds[i].regionLabel}
    ensures SameShape(ps[i], Isolate(ps, ds)[i])
    ensures forall y, x :: 0 <= y < |ps[i]| && 0 <= x < |ps[i][y]| && ps[i][y][x] == ds[i].regionLabel ==>
              Isolate(ps, ds)[i][y][x] == ps[i][y][x]
  {
    var g := Isolate(ps, ds)[i];
    forall v | v in Values(g)
      ensures v == 0 || v == ds[i].regionLabel
    {
      var y, x :| 0 <= y < |g| && 0 <= x < |g[y]| && g[y][x] == v;
    }
  }

  /** Running `isolate_center_labels` twice gives what running it once gives. */
  lemma IsolateIdempotent(ps: seq<Grid<int>>, ds: seq<PatchDescription>)
    ensures Isolate(Isolate(ps, ds), ds) == Isolate(ps, ds)
  {
    var once := Isolate(ps, ds);
    forall i | 0 <= i < |ps| && i < |ds|
      ensures KeepOnly(once[i], ds[i].regionLabel) == once[i]
    {
      var g := once[i];
      var gg := KeepOnly(g, ds[i].regionLabel);
      assert forall y :: 0 <= y < |g| ==> gg[y] == g[y];
    }
  }

  /** A nonzero region label is found in the isolated patch exactly when it was found in the patch. */
  lemma IsolateKeepsPresence(g: Grid<int>, v: int)
    requires v != 0
    ensures v in Values(KeepOnly(g, v)) <==> v in Values(g)
  {
    var r := KeepOnly(g, v);
    if v in Values(r) {
      var y, x :| 0 <= y < |r| && 0 <= x < |r[y]| && r[y][x] == v;
    }
  }

  // ---------------------------------------------------------------------------------------------
  // find_patches_with_small_labels
  // ---------------------------------------------------------------------------------------------

  /** The positive labels of one patch with fewer than `minArea` pixels (lines 343-353). */
  function PatchSmallLabels(g: Grid<int>, minArea: int): set<int> {
    set v | v in Values(g) && v > 0 && Count(g, v) < minArea
  }

  /** The labels `find_patches_with_small_labels` collects over patches `ps`. */
  function SmallLabels(ps: seq<Grid<int>>, minArea: int): (s: set<int>)
    ensures forall v :: v in s <==> exists i :: 0 <= i < |ps| && v in Values(ps[i]) && v > 0 && Count(ps[i], v) < minArea
  {
    if ps == [] then {}
    else
      var n := |ps| - 1;
      var init := SmallLabels(ps[..n], minArea);
      assert forall v :: v in init ==> exists i :: 0 <= i < n && v in Values(ps[i]) && v > 0 && Count(ps[i], v) < minArea by {
        forall v | v in init
          ensures exists i :: 0 <= i < n && v in Values(ps[i]) && v > 0 && Count(ps[i], v) < minArea
        {
          var i :| 0 <= i < n && v in Values(ps[..n][i]) && v > 0 && Count(ps[..n][i], v) < minArea;
          assert ps[..n][i] == ps[i];
        }
      }
      assert forall i :: 0 <= i < n ==> ps[..n][i] == ps[i];
      init + PatchSmallLabels(ps[n], minArea)
  }

  /** After `isolate_center_labels`, every small label is the region label of some patch. */
  lemma IsolatedSmallLabelsAreRegions(ps: seq<Grid<int>>, ds: seq<PatchDescription>, minArea: int)
    requires |ps| <= |ds|
    ensures forall v :: v in SmallLabels(Isolate(ps, ds), minArea) ==> exists i :: 0 <= i < |ds| && ds[i].regionLabel == v
  {
    var iso := Isolate(ps, ds);
    forall v | v in SmallLabels(iso, minArea)
      ensures exists i :: 0 <= i < |ds| && ds[i].regionLabel == v
    {
      var i :| 0 <= i < |iso| && v in Values(iso[i]) && v > 0 && Count(iso[i], v) < minArea;
      IsolateOnlyRegion(ps, ds, i);
    }
  }

  // ---------------------------------------------------------------------------------------------
  // drop_labels
  // ---------------------------------------------------------------------------------------------

  /** Indices of the patches `drop_labels` keeps, in order: those whose region label is not dropped (lines 376-389). */
  function Kept(ds: seq<PatchDescription>, drop: set<int>): (kept: seq<nat>)
    ensures forall i: nat :: i in kept <==> i < |ds| && ds[i].regionLabel !in drop
    ensures forall j :: 0 <= j < |kept| ==> kept[j] < |ds| && ds[kept[j]].regionLabel !in drop
    ensures forall j, k :: 0 <= j < k < |kept| ==> kept[j] < kept[k]
  {
    var kept := FilterIndices(|ds|, Keeps(ds, drop));
    assert forall j :: 0 <= j < |kept| ==> kept[j] in kept;
    FilterIndices(|ds|, Keeps(ds, drop))
  }

  /** Whether `drop_labels` keeps patch i. */
  function Keeps(ds: seq<PatchDescription>, drop: set<int>): nat -> bool {
    (i: nat) => i < |ds| && ds[i].regionLabel !in drop
  }

  /** Deciding patch i extends the kept indices by i exactly when its region label is not dropped. */
  lemma KeepsStep(ds: seq<PatchDescription>, drop: set<int>, i: nat)
    requires i < |ds|
    ensures FilterIndices(i + 1, Keeps(ds, drop)) ==
            FilterIndices(i, Keeps(ds, drop)) + (if ds[i].regionLabel !in drop then [i] else [])
  {
  }

  /** The patches of `self` after `drop_labels`: kept patches have their dropped labels zeroed in place (line 384). */
  function DropInPlace(ps: seq<Grid<int>>, ds: seq<PatchDescription>, drop: set<int>): (r: seq<Grid<int>>)
    ensures |r| == |ps|
  {
    seq(|ps|, i requires 0 <= i < |ps| => if i < |ds| && ds[i].regionLabel !in drop then ZeroOut(ps[i], drop) else ps[i])
  }

  /** One more described patch processed by `drop_labels`. */
  lemma DropInPlaceStep(ps: seq<Grid<int>>, ds: seq<PatchDescription>, drop: set<int>, i: nat)
    requires i < |ds| && i < |ps|
    ensures DropInPlace(ps, ds[..i + 1], drop) ==
            DropInPlace(ps, ds[..i], drop)[i := if ds[i].regionLabel !in drop then ZeroOut(ps[i], drop) else ps[i]]
  {
  }

  /** No pixel of a kept patch carries a dropped label other than the background. */
  lemma DroppedLabelsGone(ps: seq<Grid<int>>, ds: seq<PatchDescription>, drop: set<int>, i: nat)
    requires i < |ps| && i < |ds| && ds[i].regionLabel !in drop
    ensures var g := DropInPlace(ps, ds, drop)[i];
            SameShape(ps[i], g) &&
            forall y, x :: 0 <= y < |g| && 0 <= x < |g[y]| ==> g[y][x] == 0 || (g[y][x] !in drop && g[y][x] == ps[i][y][x])
  {
  }

  // ---------------------------------------------------------------------------------------------
  // find_patches_with_missing_labels
  // ---------------------------------------------------------------------------------------------

  /** The region labels, in patch order, of the patches holding no pixel of their own label (lines 416-422). */
  function MissingLabels(ps: seq<Grid<int>>, ds: seq<PatchDescription>): (m: seq<int>)
    requires |ds| <= |ps|
    ensures forall v :: v in m <==> exists i :: 0 <= i < |ds| && ds[i].regionLabel == v && v !in Values(ps[i])
  {
    if ds == [] then []
    else
      var n := |ds| - 1;
      var init := MissingLabels(ps, ds[..n]);
      assert forall i :: 0 <= i < n ==> ds[..n][i] == ds[i];
      init + (if ds[n].regionLabel in Values(ps[n]) then [] else [ds[n].regionLabel])
  }

  /** `isolate_center_labels` does not change which (nonzero) region labels are missing. */
  lemma {:induction false} MissingUnchangedByIsolate(ps: seq<Grid<int>>, ds: seq<PatchDescription>)
    requires |ds| <= |ps|
    requires forall i :: 0 <= i < |ds| ==> ds[i].regionLabel != 0
    ensures MissingLabels(Isolate(ps, ds), ds) == MissingLabels(ps, ds)
  {
    if ds != [] {
      var n := |ds| - 1;
      MissingUnchangedByIsolate(ps, ds[..n]);
      assert forall i :: 0 <= i < n ==> Isolate(ps, ds[..n])[i] == Isolate(ps, ds)[i];
      MissingPrefixAgree(Isolate(ps, ds[..n]), Isolate(ps, ds), ds[..n]);
      IsolateKeepsPresence(ps[n], ds[n].regionLabel);
    }
  }

  /** Missing labels of the first |ds| patches depend only on those patches. */
  lemma {:induction false} MissingPrefixAgree(a: seq<Grid<int>>, b: seq<Grid<int>>, ds: seq<PatchDescription>)
    requires |ds| <= |a| && |ds| <= |b|
    requires forall i :: 0 <= i < |ds| ==> a[i] == b[i]
    ensures MissingLabels(a, ds) == MissingLabels(b, ds)
  {
    if ds != [] {
      MissingPrefixAgree(a, b, ds[..|ds| - 1]);
    }
  }

  /** Every patch is `h` x `w` (the patches of one numpy array). */
  predicate AllRect(ps: seq<Grid<int>>, h: nat, w: nat) {
    forall i :: 0 <= i < |ps| ==> IsRect(ps[i], h, w)
  }

  /** `out` lists the entries of `src` at the indices `idx`, in order (a list built by appending in a loop). */
  ghost predicate Selection<T>(out: seq<T>, src: seq<T>, idx: seq<nat>) {
    |out| == |idx| && forall j :: 0 <= j < |idx| ==> idx[j] < |src| && out[j] == src[idx[j]]
  }

  lemma AllRectAppend(ps: seq<Grid<int>>, g: Grid<int>, h: nat, w: nat)
    requires AllRect(ps, h, w) && IsRect(g, h, w)
    ensures AllRect(ps + [g], h, w)
  {
  }

  lemma SelectionAppend<T>(out: seq<T>, src: seq<T>, idx: seq<nat>, i: nat)
    requires Selection(out, src, idx) && i < |src|
    ensures Selection(out + [src[i]], src, idx + [i])
  {
  }

  // ---------------------------------------------------------------------------------------------
  // The patch container
  // ---------------------------------------------------------------------------------------------

  /**
   * A `SegmentationPatchTiledImage`: the (n_patches, height, width) label array, one description and one
   * position per patch, and the shape of the image the patches were cut from.
   */
  class SegmentationPatchTiledImage {
    const patches: array<Grid<int>>
    const patchHeight: nat
    const patchWidth: nat
    var descriptions: seq<PatchDescription>
    var positions: seq<(int, int)>
    const originalShape: (nat, nat)

    /** The array is (n_patches, patchHeight, patchWidth), with one description and one position per patch. */
    ghost predicate Valid()
      reads this, patches
    {
      patches.Length == |descriptions| == |positions| && AllRect(patches[..], patchHeight, patchWidth)
    }

    /** `from_tiled_array` (lines 141-163) with the patches, positions, original shape and descriptions given. */
    constructor FromTiledArray(ps: seq<Grid<int>>, patchHeight: nat, patchWidth: nat, positions: seq<(int, int)>,
                               originalShape: (nat, nat), descriptions: seq<PatchDescription>)
      requires |ps| == |descriptions| == |positions|
      requires AllRect(ps, patchHeight, patchWidth)
      ensures Valid() && fresh(patches)
      ensures patches[..] == ps && this.patchHeight == patchHeight && this.patchWidth == patchWidth
      ensures this.positions == positions && this.originalShape == originalShape && this.descriptions == descriptions
    {
      patches := new Grid<int>[|ps|](i requires 0 <= i < |ps| => ps[i]);
      this.patchHeight := patchHeight;
      this.patchWidth := patchWidth;
      this.positions := positions;
      this.originalShape := originalShape;
      this.descriptions := descriptions;
    }

    /** The second `combine_tiles` (lines 178-226): paint the patches in order onto a zero image. */
    method CombineTiles() returns (r: Result<Grid<int>, PatchError>)
      requires Valid()
      ensures r == Combine(patches[..], descriptions, originalShape.0, originalShape.1)
    {
      var h, w := originalShape.0, originalShape.1;
      var ps := patches[..];
      var out := Fill(h, w, 0);
      var i := 0;
      while i < |descriptions|
        invariant i <= |descriptions|
        invariant Combine(ps, descriptions[..i], h, w) == Ok(out)
      {
        assert descriptions[..i + 1][..i] == descriptions[..i];
        var placed := Placement(patches[i], descriptions[i].bboxPosition, h, w, i);
        if placed.Err? {
          CombineErrorSticks(ps, descriptions, h, w, i + 1);
          return Err(placed.error);
        }
        out := Paint(out, patches[i], placed.value);
        i := i + 1;
      }
      assert descriptions[..i] == descriptions;
      return Ok(out);
    }

    /** `isolate_center_labels` (lines 260-276): each described patch keeps only its region label, in place. */
    method IsolateCenterLabels()
      requires Valid()
      modifies patches
      ensures Valid()
      ensures patches[..] == Isolate(old(patches[..]), descriptions)
    {
      var i := 0;
      while i < |descriptions|
        invariant i <= |descriptions|
        invariant patches[..] == Isolate(old(patches[..]), descriptions[..i])
        invariant Valid()
      {
        assert patches[i] == old(patches[i]);
        patches[i] := KeepOnly(patches[i], descriptions[i].regionLabel);
        assert patches[..] == Isolate(old(patches[..]), descriptions[..i + 1]);
        i := i + 1;
      }
      assert descriptions[..i] == descriptions;
    }

    /** `find_patches_with_small_labels` (lines 326-355). */
    method FindPatchesWithSmallLabels(minArea: int) returns (small: set<int>)
      requires Valid()
      ensures small == SmallLabels(patches[..], minArea)
    {
      small := {};
      var i := 0;
      while i < patches.Length
        invariant i <= patches.Length
        invariant small == SmallLabels(patches[..i], minArea)
      {
        var patch := patches[i];
        var labels := set v | v in Values(patch) && v > 0;
        ghost var done: set<int> := {};
        ghost var before := small;
        while labels != {}
          invariant labels + done == set v | v in Values(patch) && v > 0
          invariant labels !! done
          invariant small == before + set v | v in done && Count(patch, v) < minArea
          decreases labels
        {
          var v :| v in labels;
          if Count(patch, v) < minArea {
            small := small + {v};
          }
          labels := labels - {v};
          done := done + {v};
        }
        assert patches[..i + 1][..i] == patches[..i];
        assert small == SmallLabels(patches[..i + 1], minArea);
        i := i + 1;
      }
      assert patches[..i] == patches[..];
    }

    /**
     * `drop_labels` (lines 358-404): the patches whose region label is dropped are left out; the others
     * have the dropped labels zeroed, in this container as well, and are rebuilt into a new container.
     */
    method DropLabels(drop: set<int>) returns (r: Result<SegmentationPatchTiledImage, PatchError>)
      requires Valid()
      modifies patches
      ensures Valid()
      ensures patches[..] == DropInPlace(old(patches[..]), descriptions, drop)
      ensures var kept := Kept(descriptions, drop);
              (r.Err? <==> kept == []) && (r.Err? ==> r.error == AllPatchesRemoved) &&
              (r.Ok? ==>
                 fresh(r.value) && fresh(r.value.patches) && r.value.Valid() &&
                 r.value.originalShape == originalShape && r.value.patchHeight == patchHeight &&
                 r.value.patchWidth == patchWidth && r.value.patches.Length == |kept| &&
                 forall j :: 0 <= j < |kept| ==>
                   r.value.patches[j] == patches[kept[j]] && r.value.descriptions[j] == descriptions[kept[j]] &&
                   r.value.positions[j] == positions[kept[j]])
    {
      var newPatches, newDescriptions, newPositions := ZeroDroppedLabels(drop);
      if newPatches == [] {
        return Err(AllPatchesRemoved);
      }
      var rebuilt := new SegmentationPatchTiledImage.FromTiledArray(newPatches, patchHeight, patchWidth, newPositions,
                                                                     originalShape, newDescriptions);
      return Ok(rebuilt);
    }

    /**
     * The loop of `drop_labels` (lines 376-389): zeroes the dropped labels of every kept patch in place and
     * collects the kept patches, descriptions and positions.
     */
    method ZeroDroppedLabels(drop: set<int>) returns (newPatches: seq<Grid<int>>, newDescriptions: seq<PatchDescription>,
                                                      newPositions: seq<(int, int)>)
      requires Valid()
      modifies patches
      ensures Valid()
      ensures patches[..] == DropInPlace(old(patches[..]), descriptions, drop)
      ensures AllRect(newPatches, patchHeight, patchWidth)
      ensures Selection(newPatches, patches[..], Kept(descriptions, drop))
      ensures Selection(newDescriptions, descriptions, Kept(descriptions, drop))
      ensures Selection(newPositions, positions, Kept(descriptions, drop))
    {
      var ds, ps := descriptions, positions;
      var keep := Keeps(ds, drop);
      ghost var target := DropInPlace(patches[..], ds, drop);
      ghost var idx: seq<nat> := [];
      newPatches, newDescriptions, newPositions := [], [], [];
      var i := 0;
      while i < patches.Length
        invariant i <= patches.Length && AllRect(patches[..], patchHeight, patchWidth)
        invariant patches[..] == DropInPlace(old(patches[..]), ds[..i], drop)
        invariant idx == FilterIndices(i, keep)
        invariant AllRect(newPatches, patchHeight, patchWidth)
        invariant Selection(newPatches, target, idx)
        invariant Selection(newDescriptions, ds, idx)
        invariant Selection(newPositions, ps, idx)
      {
        ghost var before := patches[..];
        assert patches[i] == old(patches[i]);
        KeepsStep(ds, drop, i);
        DropInPlaceStep(old(patches[..]), ds, drop, i);
        if ds[i].regionLabel !in drop {
          var cleaned := ZeroOut(patches[i], drop);
          assert cleaned == target[i];
          AllRectAppend(newPatches, cleaned, patchHeight, patchWidth);
          SelectionAppend(newPatches, target, idx, i);
          SelectionAppend(newDescriptions, ds, idx, i);
          SelectionAppend(newPositions, ps, idx, i);
          newPatches := newPatches + [cleaned];
          newDescriptions := newDescriptions + [ds[i]];
          newPositions := newPositions + [ps[i]];
          idx := idx + [i];
          patches[i] := cleaned;
          assert patches[..] == before[i := cleaned];
        }
        i := i + 1;
      }
      assert ds[..i] == ds;
    }

    /** `find_patches_with_missing_labels` (lines 406-424). */
    method FindPatchesWithMissingLabels() returns (missing: seq<int>)
      requires Valid()
      ensures missing == MissingLabels(patches[..], descriptions)
    {
      missing := [];
      var i := 0;
      while i < |descriptions|
        invariant i <= |descriptions|
        invariant missing == MissingLabels(patches[..], descriptions[..i])
      {
        assert descriptions[..i + 1][..i] == descriptions[..i];
        if descriptions[i].regionLabel !in Values(patches[i]) {
          missing := missing + [descriptions[i].regionLabel];
        }
        i := i + 1;
      }
      assert descriptions[..i] == descriptions;
    }
  }
}
