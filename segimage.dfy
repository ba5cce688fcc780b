/**
 * A label raster of the full image (`SegmentationImage`): construction-time
 * validation, cache invalidation on writes, the missing-cell scan and binary
 * masking of labels.
 */
module SegImage {
  import opened Wrappers
  import opened Grids

  /** Python exceptions the operations raise, with their messages. */
  datatype ImageError =
    | TypeError(message: string)
    | ValueError(message: string)
    | IndexError(message: string)
    | NameError(message: string)

  /** The numpy dtype families the constructor distinguishes. */
  datatype DType = SignedInteger | UnsignedInteger | Boolean | Floating | ComplexFloating | OtherDType

  /** `np.issubdtype(dtype, np.integer) or dtype == np.bool_`. */
  predicate AcceptedDType(d: DType) {
    d.SignedInteger? || d.UnsignedInteger? || d.Boolean?
  }

  /** What the constructor is handed: some non-array object, or an ndarray of a shape and dtype. */
  datatype Input =
    | NotAnArray
    | NdArray(shape: seq<nat>, dtype: DType, pixels: Grid<int>)

  /** An ndarray whose data agrees with its shape when it is two-dimensional. */
  predicate WellFormedInput(input: Input) {
    input.NdArray? && |input.shape| == 2 ==> IsRect(input.pixels, input.shape[0], input.shape[1])
  }

  const NotAnArrayMessage := "Input must be a numpy array"
  const NotTwoDimensionalMessage := "Input must be a 2D numpy array"
  const BadDTypeMessage := "Input array must have integer or boolean data type"

  /**
   * The checks of `SegmentationImage.__new__`, in the order the source makes
   * them; an accepted input yields its pixels and dtype.
   */
  function Validate(input: Input): (r: Result<(Grid<int>, DType), ImageError>)
    requires WellFormedInput(input)
    ensures input.NotAnArray? ==> r == Err(TypeError(NotAnArrayMessage))
    ensures input.NdArray? && |input.shape| != 2 ==> r == Err(ValueError(NotTwoDimensionalMessage))
    ensures input.NdArray? && |input.shape| == 2 && !AcceptedDType(input.dtype) ==> r == Err(TypeError(BadDTypeMessage))
    ensures r.Ok? <==> input.NdArray? && |input.shape| == 2 && AcceptedDType(input.dtype)
    ensures r.Ok? ==> r.value == (input.pixels, input.dtype) && IsRect(r.value.0, input.shape[0], input.shape[1])
  {
    if input.NotAnArray? then Err(TypeError(NotAnArrayMessage))
    else if |input.shape| != 2 then Err(ValueError(NotTwoDimensionalMessage))
    else if !AcceptedDType(input.dtype) then Err(TypeError(BadDTypeMessage))
    else Ok((input.pixels, input.dtype))
  }

  /** The value numpy stores when `v` is assigned into an array of dtype `d`. */
  function Stored(d: DType, v: int): (s: int)
    ensures d.Boolean? ==> (s == 0 || s == 1) && (s == 1 <==> v != 0)
    ensures !d.Boolean? ==> s == v
  {
    if d.Boolean? then (if v != 0 then 1 else 0) else v
  }

  /** `np.where(mask, v, g)`: the raster after `g[mask] = v`. */
  function Assigned(g: Grid<int>, mask: Grid<bool>, v: int): (r: Grid<int>)
    requires SameShape(g, mask)
    ensures SameShape(g, r)
    ensures forall y, x :: 0 <= y < |g| && 0 <= x < |g[y]| ==> r[y][x] == if mask[y][x] then v else g[y][x]
  {
    seq(|g|, y requires 0 <= y < |g| => seq(|g[y]|, x requires 0 <= x < |g[y]| => if mask[y][x] then v else g[y][x]))
  }

  /** `np.isin(g, labels)`. */
  function IsIn(g: Grid<int>, labels: set<int>): (m: Grid<bool>)
    ensures SameShape(g, m)
    ensures forall y, x :: 0 <= y < |g| && 0 <= x < |g[y]| ==> (m[y][x] <==> g[y][x] in labels)
  {
    seq(|g|, y requires 0 <= y < |g| => seq(|g[y]|, x requires 0 <= x < |g[y]| => g[y][x] in labels))
  }

  /** Two rasters of one shape with the same pixels are the same raster. */
  lemma GridsEqual(a: Grid<int>, b: Grid<int>, h: nat, w: nat)
    requires IsRect(a, h, w) && IsRect(b, h, w)
    requires forall y, x :: 0 <= y < h && 0 <= x < w ==> a[y][x] == b[y][x]
    ensures a == b
  {
    forall y | 0 <= y < h
      ensures a[y] == b[y]
    {
      assert forall x :: 0 <= x < w ==> a[y][x] == b[y][x];
    }
  }

  /** `new_image[np.isin(self, labels)] = 0` is the same raster as zeroing those labels. */
  lemma AssignedZeroIsZeroOut(g: Grid<int>, labels: set<int>, h: nat, w: nat)
    requires IsRect(g, h, w)
    ensures Assigned(g, IsIn(g, labels), 0) == ZeroOut(g, labels)
  {
    GridsEqual(Assigned(g, IsIn(g, labels), 0), ZeroOut(g, labels), h, w);
  }

  // ---------------------------------------------------------------------------
  // has_missing_cells

  /** Some nonzero label that occurs in the raster has no pixel. */
  predicate HasMissing(g: Grid<int>) {
    exists v :: v in Values(g) && v != 0 && Count(g, v) == 0
  }

  /** Every label read off the raster has a pixel, so the scan never finds a missing cell. */
  lemma NeverMissing(g: Grid<int>)
    ensures !HasMissing(g)
  {
    forall v | v in Values(g) && v != 0
      ensures Count(g, v) > 0
    {
      CountPositive(g, v);
    }
  }

  // ---------------------------------------------------------------------------
  // apply_binary_mask

  /** The `binary_mask` argument: a `SegmentationImage` (its pixels, shape and whether its dtype is bool) or anything else. */
  datatype MaskArg =
    | NotAnImage
    | MaskImage(pixels: Grid<int>, h: nat, w: nat, isBool: bool)

  predicate WellFormedMask(m: MaskArg) {
    m.MaskImage? ==> IsRect(m.pixels, m.h, m.w) && (m.isBool ==> Values(m.pixels) <= {0, 1})
  }

  /**
   * The guard in front of the warning: the mask's distinct values are not
   * exactly `[0, 1]` and its dtype is not bool.
   */
  predicate NotStrictlyBinary(m: MaskArg)
    requires m.MaskImage?
  {
    Values(m.pixels) != {0, 1} && !m.isBool
  }

  const MaskTypeMessage := "binary_mask must be a SegmentationImage instance."
  const WarnUndefinedMessage := "name 'warn' is not defined"
  const NoCentroidsMessage := "centroid_overlap requires execution of calculate_centroids() prior to applying the mask."
  const ShapeMismatchMessage := "boolean index did not match indexed array"
  const CentroidOutOfBoundsMessage := "index is out of bounds for the mask"

  function InvalidMethodMessage(mode: string): string {
    "Invalid method '" + mode + "'. Choose from 'centroid_overlap', 'all_in', 'any_in'."
  }

  predicate KnownMethod(mode: string) {
    mode == "centroid_overlap" || mode == "all_in" || mode == "any_in"
  }

  /** Every pixel of label `v` lies where the mask is > 0. */
  predicate AllInside(img: Grid<int>, mask: Grid<int>, h: nat, w: nat, v: int)
    requires IsRect(img, h, w) && IsRect(mask, h, w)
  {
    forall y, x :: 0 <= y < h && 0 <= x < w && img[y][x] == v ==> mask[y][x] > 0
  }

  /** Some pixel of label `v` lies where the mask is > 0. */
  predicate AnyInside(img: Grid<int>, mask: Grid<int>, h: nat, w: nat, v: int)
    requires IsRect(img, h, w) && IsRect(mask, h, w)
  {
    exists y, x :: 0 <= y < h && 0 <= x < w && img[y][x] == v && mask[y][x] > 0
  }

  /** `np.unique(self[~binary_mask_bool])`: labels with a pixel where the mask is 0. */
  function FalseAreaLabels(img: Grid<int>, mask: Grid<int>, h: nat, w: nat): set<int>
    requires IsRect(img, h, w) && IsRect(mask, h, w)
  {
    set y, x | 0 <= y < h && 0 <= x < w && mask[y][x] <= 0 :: img[y][x]
  }

  /** `np.unique(self[binary_mask_bool])`: labels with a pixel where the mask is > 0. */
  function TrueAreaLabels(img: Grid<int>, mask: Grid<int>, h: nat, w: nat): set<int>
    requires IsRect(img, h, w) && IsRect(mask, h, w)
  {
    set y, x | 0 <= y < h && 0 <= x < w && mask[y][x] > 0 :: img[y][x]
  }

  /** Python's `int(r)`, which truncates toward zero. */
  function Trunc(r: real): (i: int)
    ensures r >= 0.0 ==> i == r.Floor
    ensures r < 0.0 ==> i == -((-r).Floor)
  {
    if r >= 0.0 then r.Floor else -((-r).Floor)
  }

  /** A Python integer index into an axis of length `n`, negative ones counting from the end; `None` when it raises `IndexError`. */
  function AxisIndex(i: int, n: nat): (r: Option<nat>)
    ensures r.Some? <==> -(n as int) <= i < n
    ensures r.Some? ==> r.value < n && (r.value == i || r.value == n + i)
  {
    if 0 <= i < n then Some(i) else if -(n as int) <= i < 0 then Some(n + i) else None
  }

  /** The decimal digits of `n`, as Python's `str` writes a non-negative integer. */
  function NatDigits(n: nat): (s: string)
    ensures |s| >= 1 && forall k :: 0 <= k < |s| ==> '0' <= s[k] <= '9'
    decreases n
  {
    var d := ['0' + (n % 10) as char];
    if n < 10 then d else NatDigits(n / 10) + d
  }

  /** Python's `str` of an integer. */
  function IntString(i: int): string {
    if i < 0 then "-" + NatDigits(-i) else NatDigits(i)
  }

  /** numpy's IndexError message for an integer index outside an axis. */
  function OutOfBoundsMessage(i: int, axis: nat, n: nat): string {
    "index " + IntString(i) + " is out of bounds for axis " + IntString(axis) + " with size " + IntString(n)
  }

  /**
   * Where `a[y, x]` lands in an h x w array: both indices resolved as Python indices,
   * or the IndexError for the first axis whose index does not fit.
   */
  function PixelIndex(y: int, x: int, h: nat, w: nat): (r: Result<(nat, nat), ImageError>)
    ensures r.Ok? <==> -(h as int) <= y < h && -(w as int) <= x < w
    ensures r.Ok? ==> r.value.0 < h && r.value.1 < w
    ensures !(-(h as int) <= y < h) ==> r == Err(IndexError(OutOfBoundsMessage(y, 0, h)))
    ensures -(h as int) <= y < h && !(-(w as int) <= x < w) ==> r == Err(IndexError(OutOfBoundsMessage(x, 1, w)))
  {
    match (AxisIndex(y, h), AxisIndex(x, w))
    case (None, _) => Err(IndexError(OutOfBoundsMessage(y, 0, h)))
    case (Some(_), None) => Err(IndexError(OutOfBoundsMessage(x, 1, w)))
    case (Some(i), Some(j)) => Ok((i, j))
  }

  /** A non-negative index in range addresses itself; `-k` addresses the k-th pixel from the far end. */
  lemma PixelIndexWraps(y: int, x: int, h: nat, w: nat)
    requires -(h as int) <= y < h && -(w as int) <= x < w
    ensures var r := PixelIndex(y, x, h, w);
            r.Ok? && r.value == (if y < 0 then h + y else y, if x < 0 then w + x else x)
  {
  }

  /** `binary_mask[int(c[0]), int(c[1])]`, or `None` when that index raises. */
  function MaskAt(mask: Grid<int>, h: nat, w: nat, c: (real, real)): Option<int>
    requires IsRect(mask, h, w)
  {
    var y, x := AxisIndex(Trunc(c.0), h), AxisIndex(Trunc(c.1), w);
    if y.Some? && x.Some? then Some(mask[y.value][x.value]) else None
  }

  /** Some centroid indexes outside the mask. */
  predicate CentroidOffMask(mask: Grid<int>, h: nat, w: nat, centroids: map<int, (real, real)>)
    requires IsRect(mask, h, w)
  {
    exists l :: l in centroids && MaskAt(mask, h, w, centroids[l]).None?
  }

  /** The label's centroid falls on a mask pixel that is not > 0. */
  predicate CentroidOnBackground(mask: Grid<int>, h: nat, w: nat, centroids: map<int, (real, real)>, l: int)
    requires IsRect(mask, h, w)
  {
    l in centroids && MaskAt(mask, h, w, centroids[l]).Some? && MaskAt(mask, h, w, centroids[l]).value <= 0
  }

  /**
   * The labels each method sets to zero, or the error the method raises
   * before any pixel is written.
   */
  function LabelsToZero(img: Grid<int>, h: nat, w: nat, mask: MaskArg, mode: string,
                        centroids: Option<map<int, (real, real)>>): (r: Result<set<int>, ImageError>)
    requires IsRect(img, h, w) && WellFormedMask(mask) && mask.MaskImage?
  {
    if mode == "centroid_overlap" then
      if centroids.None? then Err(ValueError(NoCentroidsMessage))
      else if CentroidOffMask(mask.pixels, mask.h, mask.w, centroids.value) then Err(IndexError(CentroidOutOfBoundsMessage))
      else Ok(set l | l in centroids.value && CentroidOnBackground(mask.pixels, mask.h, mask.w, centroids.value, l))
    else if mode == "all_in" then
      if (mask.h, mask.w) != (h, w) then Err(IndexError(ShapeMismatchMessage))
      else Ok(FalseAreaLabels(img, mask.pixels, h, w))
    else if mode == "any_in" then
      if (mask.h, mask.w) != (h, w) then Err(IndexError(ShapeMismatchMessage))
      else Ok(Values(img) - TrueAreaLabels(img, mask.pixels, h, w))
    else Err(ValueError(InvalidMethodMessage(mode)))
  }

  /**
   * `apply_binary_mask` as written: a non-image mask is a `TypeError`; a mask
   * that is not strictly {0, 1} reaches the call of the undefined `warn`;
   * otherwise the chosen labels are zeroed in a copy.
   */
  function MaskResult(img: Grid<int>, h: nat, w: nat, mask: MaskArg, mode: string,
                           centroids: Option<map<int, (real, real)>>): (r: Result<Grid<int>, ImageError>)
    requires IsRect(img, h, w) && WellFormedMask(mask)
    ensures r.Ok? ==> IsRect(r.value, h, w)
    ensures r.Ok? ==> forall y, x :: 0 <= y < h && 0 <= x < w ==> r.value[y][x] == img[y][x] || r.value[y][x] == 0
  {
    if mask.NotAnImage? then Err(TypeError(MaskTypeMessage))
    else if NotStrictlyBinary(mask) then Err(NameError(WarnUndefinedMessage))
    else ApplyMaskedLabels(img, h, w, mask, mode, centroids)
  }

  /** Everything after the guard in front of the warning: pick the labels, zero them. */
  function ApplyMaskedLabels(img: Grid<int>, h: nat, w: nat, mask: MaskArg, mode: string,
                             centroids: Option<map<int, (real, real)>>): (r: Result<Grid<int>, ImageError>)
    requires IsRect(img, h, w) && WellFormedMask(mask) && mask.MaskImage?
    ensures r.Ok? ==> IsRect(r.value, h, w)
    ensures r.Ok? ==> forall y, x :: 0 <= y < h && 0 <= x < w ==> r.value[y][x] == img[y][x] || r.value[y][x] == 0
  {
    match LabelsToZero(img, h, w, mask, mode, centroids)
    case Err(e) => Err(e)
    case Ok(labels) => Ok(ZeroOut(img, labels))
  }

  /** `apply_binary_mask` as its docstring describes it: any mask, nonzero meaning true, with at most a warning. */
  function MaskResultIntended(img: Grid<int>, h: nat, w: nat, mask: MaskArg, mode: string,
                                   centroids: Option<map<int, (real, real)>>): (r: Result<Grid<int>, ImageError>)
    requires IsRect(img, h, w) && WellFormedMask(mask)
    ensures mask.MaskImage? && !NotStrictlyBinary(mask) ==> r == MaskResult(img, h, w, mask, mode, centroids)
    ensures mask.NotAnImage? ==> r == Err(TypeError(MaskTypeMessage))
  {
    if mask.NotAnImage? then Err(TypeError(MaskTypeMessage))
    else ApplyMaskedLabels(img, h, w, mask, mode, centroids)
  }

  /** The exceptions `apply_binary_mask` raises about its mask, each exactly when its condition holds. */
  lemma ApplyBinaryMaskMaskErrors(img: Grid<int>, h: nat, w: nat, mask: MaskArg, mode: string,
                                  centroids: Option<map<int, (real, real)>>)
    requires IsRect(img, h, w) && WellFormedMask(mask)
    ensures var r := MaskResult(img, h, w, mask, mode, centroids);
      && (r == Err(TypeError(MaskTypeMessage)) <==> mask.NotAnImage?)
      && (r == Err(NameError(WarnUndefinedMessage)) <==> mask.MaskImage? && NotStrictlyBinary(mask))
  {
  }

  /** The `ValueError`s of `apply_binary_mask`, each exactly when its condition holds. */
  lemma ApplyBinaryMaskValueErrors(img: Grid<int>, h: nat, w: nat, mask: MaskArg, mode: string,
                                   centroids: Option<map<int, (real, real)>>)
    requires IsRect(img, h, w) && WellFormedMask(mask)
    ensures var r := MaskResult(img, h, w, mask, mode, centroids);
      && (r == Err(ValueError(InvalidMethodMessage(mode))) <==>
            mask.MaskImage? && !NotStrictlyBinary(mask) && !KnownMethod(mode))
      && (r == Err(ValueError(NoCentroidsMessage)) <==>
            mask.MaskImage? && !NotStrictlyBinary(mask) && mode == "centroid_overlap" && centroids.None?)
  {
    InvalidMethodDiffers(mode);
  }

  /** `apply_binary_mask` returns an image exactly when no check fails. */
  lemma ApplyBinaryMaskOkIff(img: Grid<int>, h: nat, w: nat, mask: MaskArg, mode: string,
                             centroids: Option<map<int, (real, real)>>)
    requires IsRect(img, h, w) && WellFormedMask(mask)
    ensures MaskResult(img, h, w, mask, mode, centroids).Ok? <==>
      && mask.MaskImage? && !NotStrictlyBinary(mask) && KnownMethod(mode)
      && (mode == "centroid_overlap" ==> centroids.Some? && !CentroidOffMask(mask.pixels, mask.h, mask.w, centroids.value))
      && (mode != "centroid_overlap" ==> (mask.h, mask.w) == (h, w))
  {
  }

  /** No method name produces the message of the missing-centroids error. */
  lemma InvalidMethodDiffers(mode: string)
    ensures InvalidMethodMessage(mode) != NoCentroidsMessage
  {
    var m, c := InvalidMethodMessage(mode), NoCentroidsMessage;
    assert m[|m| - 2] == '\'';
    assert c[|c| - 2] == 'k';
  }

  /** A label is in the false area exactly when some pixel of it lies where the mask is not > 0. */
  lemma FalseAreaLabelsIff(img: Grid<int>, mask: Grid<int>, h: nat, w: nat, v: int)
    requires IsRect(img, h, w) && IsRect(mask, h, w)
    ensures v in FalseAreaLabels(img, mask, h, w) <==> !AllInside(img, mask, h, w, v)
  {
    if !AllInside(img, mask, h, w, v) {
      var y, x :| 0 <= y < h && 0 <= x < w && img[y][x] == v && !(mask[y][x] > 0);
      assert img[y][x] in FalseAreaLabels(img, mask, h, w);
    }
  }

  /** A label is in the true area exactly when some pixel of it lies where the mask is > 0. */
  lemma TrueAreaLabelsIff(img: Grid<int>, mask: Grid<int>, h: nat, w: nat, v: int)
    requires IsRect(img, h, w) && IsRect(mask, h, w)
    ensures v in TrueAreaLabels(img, mask, h, w) <==> AnyInside(img, mask, h, w, v)
  {
    if AnyInside(img, mask, h, w, v) {
      var y, x :| 0 <= y < h && 0 <= x < w && img[y][x] == v && mask[y][x] > 0;
      assert img[y][x] in TrueAreaLabels(img, mask, h, w);
    }
  }

  /** A strictly binary mask of the image's shape; the precondition of the three modes below. */
  predicate UsableMask(mask: MaskArg, h: nat, w: nat) {
    WellFormedMask(mask) && mask.MaskImage? && !NotStrictlyBinary(mask)
  }

  /** `all_in`: a pixel keeps its label exactly when every pixel of that label lies inside the mask. */
  lemma AllInKeepsExactly(img: Grid<int>, h: nat, w: nat, mask: MaskArg, centroids: Option<map<int, (real, real)>>)
    requires IsRect(img, h, w) && UsableMask(mask, h, w) && (mask.h, mask.w) == (h, w)
    ensures var r := MaskResult(img, h, w, mask, "all_in", centroids);
      r.Ok? && forall y, x :: 0 <= y < h && 0 <= x < w ==>
        r.value[y][x] == if AllInside(img, mask.pixels, h, w, img[y][x]) then img[y][x] else 0
  {
    forall y, x | 0 <= y < h && 0 <= x < w
      ensures img[y][x] in FalseAreaLabels(img, mask.pixels, h, w) <==> !AllInside(img, mask.pixels, h, w, img[y][x])
    {
      FalseAreaLabelsIff(img, mask.pixels, h, w, img[y][x]);
    }
  }

  /** `any_in`: a pixel keeps its label exactly when some pixel of that label lies inside the mask. */
  lemma AnyInKeepsExactly(img: Grid<int>, h: nat, w: nat, mask: MaskArg, centroids: Option<map<int, (real, real)>>)
    requires IsRect(img, h, w) && UsableMask(mask, h, w) && (mask.h, mask.w) == (h, w)
    ensures var r := MaskResult(img, h, w, mask, "any_in", centroids);
      r.Ok? && forall y, x :: 0 <= y < h && 0 <= x < w ==>
        r.value[y][x] == if AnyInside(img, mask.pixels, h, w, img[y][x]) then img[y][x] else 0
  {
    forall y, x | 0 <= y < h && 0 <= x < w
      ensures img[y][x] in Values(img) - TrueAreaLabels(img, mask.pixels, h, w) <==> !AnyInside(img, mask.pixels, h, w, img[y][x])
    {
      TrueAreaLabelsIff(img, mask.pixels, h, w, img[y][x]);
      assert img[y][x] in Values(img);
    }
  }

  /** `centroid_overlap`: a pixel is zeroed exactly when its label's centroid falls on the mask's background. */
  lemma CentroidOverlapZeroesExactly(img: Grid<int>, h: nat, w: nat, mask: MaskArg, centroids: map<int, (real, real)>)
    requires IsRect(img, h, w) && UsableMask(mask, h, w)
    requires !CentroidOffMask(mask.pixels, mask.h, mask.w, centroids)
    ensures var r := MaskResult(img, h, w, mask, "centroid_overlap", Some(centroids));
      r.Ok? && forall y, x :: 0 <= y < h && 0 <= x < w ==>
        r.value[y][x] == if CentroidOnBackground(mask.pixels, mask.h, mask.w, centroids, img[y][x]) then 0 else img[y][x]
  {
  }

  /** A label survives a masking exactly when one of its pixels keeps it (nonzero labels only: 0 is the background). */
  lemma SurvivesIff(img: Grid<int>, r: Grid<int>, h: nat, w: nat, keep: int -> bool, v: int)
    requires IsRect(img, h, w) && IsRect(r, h, w) && v != 0
    requires forall y, x :: 0 <= y < h && 0 <= x < w ==> r[y][x] == if keep(img[y][x]) then img[y][x] else 0
    ensures v in Values(r) <==> v in Values(img) && keep(v)
  {
    if v in Values(r) {
      var y, x :| 0 <= y < |r| && 0 <= x < |r[y]| && r[y][x] == v;
      assert img[y][x] == v;
    }
    if v in Values(img) && keep(v) {
      var y, x :| 0 <= y < |img| && 0 <= x < |img[y]| && img[y][x] == v;
      assert r[y][x] == v;
    }
  }

  /** `all_in` keeps a nonzero label iff all of its pixels lie inside the mask. */
  lemma AllInLabelsKept(img: Grid<int>, h: nat, w: nat, mask: MaskArg, v: int)
    requires IsRect(img, h, w) && UsableMask(mask, h, w) && (mask.h, mask.w) == (h, w) && v != 0
    ensures var r := MaskResult(img, h, w, mask, "all_in", None);
      r.Ok? && (v in Values(r.value) <==> v in Values(img) && AllInside(img, mask.pixels, h, w, v))
  {
    AllInKeepsExactly(img, h, w, mask, None);
    var r := MaskResult(img, h, w, mask, "all_in", None);
    SurvivesIff(img, r.value, h, w, u => AllInside(img, mask.pixels, h, w, u), v);
  }

  /** `any_in` keeps a nonzero label iff at least one of its pixels lies inside the mask. */
  lemma AnyInLabelsKept(img: Grid<int>, h: nat, w: nat, mask: MaskArg, v: int)
    requires IsRect(img, h, w) && UsableMask(mask, h, w) && (mask.h, mask.w) == (h, w) && v != 0
    ensures var r := MaskResult(img, h, w, mask, "any_in", None);
      r.Ok? && (v in Values(r.value) <==> v in Values(img) && AnyInside(img, mask.pixels, h, w, v))
  {
    AnyInKeepsExactly(img, h, w, mask, None);
    var r := MaskResult(img, h, w, mask, "any_in", None);
    SurvivesIff(img, r.value, h, w, u => AnyInside(img, mask.pixels, h, w, u), v);
  }

  /** A mask whose every pixel is 1, with an integer dtype, reaches the undefined `warn` and raises. */
  lemma AllForegroundMaskRaises()
    ensures MaskResult([[5]], 1, 1, MaskImage([[1]], 1, 1, false), "all_in", None)
         == Err(NameError(WarnUndefinedMessage))
  {
    var m: Grid<int> := [[1]];
    assert m[0][0] == 1;
    assert Values(m) == {1};
  }

  /** Under the intended behaviour, `all_in` with a mask that is > 0 everywhere keeps the image as it is. */
  lemma IntendedAllForegroundKeepsAll(img: Grid<int>, h: nat, w: nat, mask: MaskArg)
    requires IsRect(img, h, w) && WellFormedMask(mask) && mask.MaskImage? && (mask.h, mask.w) == (h, w)
    requires forall y, x :: 0 <= y < h && 0 <= x < w ==> mask.pixels[y][x] > 0
    ensures MaskResultIntended(img, h, w, mask, "all_in", None) == Ok(img)
  {
    var r := MaskResultIntended(img, h, w, mask, "all_in", None);
    assert FalseAreaLabels(img, mask.pixels, h, w) == {};
    GridsEqual(r.value, img, h, w);
  }

  // ---------------------------------------------------------------------------
  // The image object

  /** A handle on a mask argument as the method receives it. */
  datatype MaskOperand = ImageOperand(image: SegmentationImage) | OtherOperand

  /**
   * A label raster with its property caches. The pixels live in a fixed-size
   * buffer written in place; a write clears the region-property caches.
   */
  class SegmentationImage {
    const pixels: array2<int>
    const dtype: DType
    var centroidsCache: Option<map<int, (real, real)>>
    var areaCache: Option<map<int, nat>>
    var minorAxisLengthCache: Option<map<int, real>>
    var majorAxisLengthCache: Option<map<int, real>>
    var extentCache: Option<map<int, real>>
    var solidityCache: Option<map<int, real>>
    var eccentricityCache: Option<map<int, real>>
    var orientationCache: Option<map<int, real>>
    var segmentPatchesCache: Option<map<int, Grid<int>>>

    /** The buffer holds what its dtype can store. */
    ghost predicate Valid()
      reads pixels
    {
      dtype.Boolean? ==> forall y, x :: 0 <= y < pixels.Length0 && 0 <= x < pixels.Length1 ==> 0 <= pixels[y, x] <= 1
    }

    /** The pixels as a raster value. */
    function Contents(): (g: Grid<int>)
      reads pixels
      ensures IsRect(g, pixels.Length0, pixels.Length1)
      ensures forall y, x :: 0 <= y < pixels.Length0 && 0 <= x < pixels.Length1 ==> g[y][x] == pixels[y, x]
    {
      seq(pixels.Length0, y requires 0 <= y < pixels.Length0 reads pixels =>
        seq(pixels.Length1, x requires 0 <= x < pixels.Length1 reads pixels => pixels[y, x]))
    }

    /** Every property cache is empty. */
    predicate CachesCleared()
      reads this
    {
      centroidsCache.None? && areaCache.None? && minorAxisLengthCache.None? && majorAxisLengthCache.None?
      && extentCache.None? && solidityCache.None? && eccentricityCache.None? && orientationCache.None?
    }

    /** The object `__new__` builds from an accepted array: its pixels and no cached properties. */
    constructor FromGrid(g: Grid<int>, h: nat, w: nat, d: DType)
      requires IsRect(g, h, w)
      requires d.Boolean? ==> forall y, x :: 0 <= y < h && 0 <= x < w ==> 0 <= g[y][x] <= 1
      ensures fresh(pixels) && pixels.Length0 == h && pixels.Length1 == w && dtype == d
      ensures Contents() == g && Valid()
      ensures CachesCleared() && segmentPatchesCache.None?
    {
      pixels := new int[h, w]((y, x) requires 0 <= y < h && 0 <= x < w => g[y][x]);
      dtype := d;
      centroidsCache, areaCache := None, None;
      minorAxisLengthCache, majorAxisLengthCache := None, None;
      extentCache, solidityCache, eccentricityCache, orientationCache := None, None, None, None;
      segmentPatchesCache := None;
      new;
      GridsEqual(Contents(), g, h, w);
    }

    /** `SegmentationImage(input_array)`: the validation of `__new__`, then a fresh image. */
    static method Create(input: Input) returns (r: Result<SegmentationImage, ImageError>)
      requires WellFormedInput(input)
      requires input.NdArray? && input.dtype.Boolean? ==> Values(input.pixels) <= {0, 1}
      ensures r.Err? <==> Validate(input).Err?
      ensures r.Err? ==> r.error == Validate(input).error
      ensures r.Ok? ==> fresh(r.value) && fresh(r.value.pixels) && r.value.Valid()
      ensures r.Ok? ==> r.value.Contents() == input.pixels && r.value.dtype == input.dtype
      ensures r.Ok? ==> r.value.CachesCleared() && r.value.segmentPatchesCache.None?
    {
      var checked := Validate(input);
      if checked.Err? {
        return Err(checked.error);
      }
      var g := checked.value.0;
      forall y, x | 0 <= y < input.shape[0] && 0 <= x < input.shape[1] && input.dtype.Boolean?
        ensures 0 <= g[y][x] <= 1
      {
        assert g[y][x] in Values(g);
      }
      var image := new SegmentationImage.FromGrid(g, input.shape[0], input.shape[1], input.dtype);
      r := Ok(image);
    }

    /** `_invalidate_cache`: the eight region-property caches become empty; the patch cache is left alone. */
    method InvalidateCache()
      modifies this
      ensures CachesCleared()
      ensures segmentPatchesCache == old(segmentPatchesCache)
    {
      centroidsCache, areaCache := None, None;
      minorAxisLengthCache, majorAxisLengthCache := None, None;
      extentCache, solidityCache, eccentricityCache, orientationCache := None, None, None, None;
    }

    /**
     * `self[y, x] = v` with Python integer indices: numpy resolves negative indices from the end and
     * raises IndexError for one outside an axis, before the caches are touched. Otherwise the pixel is
     * written, cast to the dtype, and then the caches are cleared.
     */
    method SetItem(y: int, x: int, v: int) returns (r: Result<(), ImageError>)
      requires Valid()
      modifies this, pixels
      ensures Valid()
      ensures var at := PixelIndex(y, x, pixels.Length0, pixels.Length1);
              (r.Err? <==> at.Err?) && (r.Err? ==> r.error == at.error)
      ensures r.Err? ==> unchanged(this) && unchanged(pixels)
      ensures r.Ok? ==> var at := PixelIndex(y, x, pixels.Length0, pixels.Length1).value;
              Contents() == old(Contents())[at.0 := old(Contents())[at.0][at.1 := Stored(dtype, v)]]
      ensures r.Ok? ==> CachesCleared() && segmentPatchesCache == old(segmentPatchesCache)
    {
      var at := PixelIndex(y, x, pixels.Length0, pixels.Length1);
      if at.Err? {
        return Err(at.error);
      }
      var (i, j) := at.value;
      ghost var before := Contents();
      pixels[i, j] := Stored(dtype, v);
      InvalidateCache();
      GridsEqual(Contents(), before[i := before[i][j := Stored(dtype, v)]], pixels.Length0, pixels.Length1);
      r := Ok(());
    }

    /** `self[mask] = v` with a boolean mask of the image's shape, then the caches are cleared. */
    method SetMasked(mask: Grid<bool>, v: int)
      requires Valid() && IsRect(mask, pixels.Length0, pixels.Length1)
      modifies this, pixels
      ensures Valid()
      ensures Contents() == Assigned(old(Contents()), mask, Stored(dtype, v))
      ensures CachesCleared() && segmentPatchesCache == old(segmentPatchesCache)
    {
      ghost var before := Contents();
      var h, w := pixels.Length0, pixels.Length1;
      var s := Stored(dtype, v);
      var y := 0;
      while y < h
        invariant 0 <= y <= h
        invariant forall i, j :: 0 <= i < h && 0 <= j < w ==>
          pixels[i, j] == if i < y && mask[i][j] then s else before[i][j]
        invariant segmentPatchesCache == old(segmentPatchesCache)
      {
        var x := 0;
        while x < w
          invariant 0 <= x <= w
          invariant forall i, j :: 0 <= i < h && 0 <= j < w ==>
            pixels[i, j] == if (i < y || (i == y && j < x)) && mask[i][j] then s else before[i][j]
          invariant segmentPatchesCache == old(segmentPatchesCache)
        {
          if mask[y][x] {
            pixels[y, x] := s;
          }
          x := x + 1;
        }
        y := y + 1;
      }
      InvalidateCache();
      GridsEqual(Contents(), Assigned(before, mask, s), h, w);
    }

    /** `has_missing_cells`: scan the distinct labels for a nonzero one without pixels. */
    method HasMissingCells() returns (missing: bool)
      ensures missing == HasMissing(Contents())
    {
      var g := Contents();
      var labels := Values(g);
      ghost var done: set<int> := {};
      while labels != {}
        invariant labels + done == Values(g) && labels !! done
        invariant forall v :: v in done && v != 0 ==> Count(g, v) > 0
      {
        var candidate :| candidate in labels;
        if candidate != 0 && Count(g, candidate) == 0 {
          return true;
        }
        labels, done := labels - {candidate}, done + {candidate};
      }
      return false;
    }

    /**
     * `apply_binary_mask`: the checks of the source, then the chosen labels are
     * zeroed in a copy through a masked write, and a new image is built from the copy.
     * `centroids` is what the `centroids` property yields for `centroid_overlap`.
     */
    method ApplyBinaryMask(mask: MaskOperand, mode: string, centroids: Option<map<int, (real, real)>>)
      returns (r: Result<SegmentationImage, ImageError>)
      requires Valid() && (mask.ImageOperand? ==> mask.image.Valid())
      ensures var spec := MaskResult(Contents(), pixels.Length0, pixels.Length1, Arg(mask), mode, centroids);
        && (r.Err? <==> spec.Err?)
        && (r.Err? ==> r.error == spec.error)
        && (r.Ok? ==> fresh(r.value) && fresh(r.value.pixels) && r.value.Valid() && r.value.dtype == dtype
                      && r.value.Contents() == spec.value && r.value.CachesCleared())
    {
      var g, h, w := Contents(), pixels.Length0, pixels.Length1;
      var arg := Arg(mask);
      if arg.NotAnImage? {
        return Err(TypeError(MaskTypeMessage));
      }
      if NotStrictlyBinary(arg) {
        return Err(NameError(WarnUndefinedMessage));
      }
      var labels := LabelsToZero(g, h, w, arg, mode, centroids);
      if labels.Err? {
        return Err(labels.error);
      }
      ghost var spec := MaskResult(g, h, w, arg, mode, centroids);
      assert spec == Ok(ZeroOut(g, labels.value));
      var copy := new SegmentationImage.FromGrid(g, h, w, dtype);
      copy.SetMasked(IsIn(g, labels.value), 0);
      AssignedZeroIsZeroOut(g, labels.value, h, w);
      var image := new SegmentationImage.FromGrid(copy.Contents(), h, w, dtype);
      r := Ok(image);
      assert Contents() == g && Arg(mask) == arg;
    }

    /** The mask argument as the specification sees it. */
    static function Arg(mask: MaskOperand): (m: MaskArg)
      reads if mask.ImageOperand? then {mask.image.pixels} else {}
      requires mask.ImageOperand? ==> mask.image.Valid()
      ensures WellFormedMask(m)
      ensures m.NotAnImage? <==> mask.OtherOperand?
    {
      match mask
      case OtherOperand => NotAnImage
      case ImageOperand(image) =>
        var g := image.Contents();
        assert image.dtype.Boolean? ==> Values(g) <= {0, 1};
        MaskImage(g, image.pixels.Length0, image.pixels.Length1, image.dtype.Boolean?)
    }
  }
}
