/** The two box-to-pixel steps around inpainting and OCR crops: the clamp in
    `crop_out_box` (identical in the OpenCV and Pillow versions) and the
    mask of `create_inpainting_mask`. */
module ImageBoxes {
  import opened Common
  import opened Boxes

  /** `crop_out_box`'s clamp: lift the minima to 0 and cap the maxima at
      the image's width and height. */
  function ClampToImage(box: FlatBox, width: int, height: int): (r: FlatBox)
    ensures 0 <= r.xMin && 0 <= r.yMin && r.xMax <= width && r.yMax <= height
    ensures 0 <= box.xMin ==> r.xMin == box.xMin
    ensures 0 <= box.yMin ==> r.yMin == box.yMin
    ensures box.xMax <= width ==> r.xMax == box.xMax
    ensures box.yMax <= height ==> r.yMax == box.yMax
  {
    FlatBox(MaxInt(0, box.xMin), MaxInt(0, box.yMin), MinInt(width, box.xMax), MinInt(height, box.yMax))
  }

  /** Clamping twice is clamping once, and a box inside the image is left
      as it is. */
  lemma ClampIdempotent(box: FlatBox, width: int, height: int)
    ensures ClampToImage(ClampToImage(box, width, height), width, height) == ClampToImage(box, width, height)
    ensures 0 <= box.xMin && 0 <= box.yMin && box.xMax <= width && box.yMax <= height
            ==> ClampToImage(box, width, height) == box
  {
  }

  /** Where a NumPy slice bound lands on an axis of length `n`: a negative
      bound counts from the end, and the result is kept in [0, n]. */
  function SliceBound(i: int, n: nat): (r: nat)
    ensures r <= n
    ensures 0 <= i <= n ==> r == i
  {
    if i < 0 then MaxInt(0, i + n) else MinInt(i, n)
  }

  /** Index `k` falls in the slice `[lo:hi]` of an axis of length `n`. */
  predicate InSlice(k: int, lo: int, hi: int, n: nat)
  {
    SliceBound(lo, n) <= k < SliceBound(hi, n)
  }

  /** `create_inpainting_mask`: an `h` x `w` grid of zeros with
      `mask[ymin:ymax, xmin:xmax] = 255`, NumPy slice rules included. */
  function InpaintingMask(h: nat, w: nat, box: FlatBox): (mask: seq<seq<int>>)
    ensures |mask| == h && forall y :: 0 <= y < h ==> |mask[y]| == w
    ensures forall y, x :: 0 <= y < h && 0 <= x < w ==> mask[y][x] == 0 || mask[y][x] == 255
  {
    seq(h, y requires 0 <= y < h =>
      seq(w, x requires 0 <= x < w =>
        if InSlice(y, box.yMin, box.yMax, h) && InSlice(x, box.xMin, box.xMax, w) then 255 else 0))
  }

  /** One cell of the mask: 255 when its row and its column both fall in
      the box's slices. */
  lemma MaskCell(h: nat, w: nat, box: FlatBox, y: int, x: int)
    requires 0 <= y < h && 0 <= x < w
    ensures InpaintingMask(h, w, box)[y][x]
            == if InSlice(y, box.yMin, box.yMax, h) && InSlice(x, box.xMin, box.xMax, w) then 255 else 0
  {
    var row := InpaintingMask(h, w, box)[y];
    assert row[x] == if InSlice(y, box.yMin, box.yMax, h) && InSlice(x, box.xMin, box.xMax, w) then 255 else 0;
  }

  /** For a box inside the image, the mask is 255 exactly on
      [ymin, ymax) x [xmin, xmax) and 0 everywhere else. */
  lemma MaskMarksBox(h: nat, w: nat, box: FlatBox, y: int, x: int)
    requires 0 <= box.yMin <= box.yMax <= h && 0 <= box.xMin <= box.xMax <= w
    requires 0 <= y < h && 0 <= x < w
    ensures InpaintingMask(h, w, box)[y][x] == 255
            <==> box.yMin <= y < box.yMax && box.xMin <= x < box.xMax
    ensures InpaintingMask(h, w, box)[y][x] == 0
            <==> !(box.yMin <= y < box.yMax && box.xMin <= x < box.xMax)
  {
    MaskCell(h, w, box, y, x);
  }

  /** A negative lower row bound is read from the far edge, as NumPy does:
      with `ymin` in [-h, 0) the mask marks the rows from `h + ymin` up to
      where `ymax` lands, in the columns the box's x-slice selects. */
  lemma MaskNegativeBound(h: nat, w: nat, box: FlatBox, y: int, x: int)
    requires -(h as int) <= box.yMin < 0
    requires 0 <= y < h && 0 <= x < w
    ensures InpaintingMask(h, w, box)[y][x] == 255
            <==> h + box.yMin <= y < SliceBound(box.yMax, h) && InSlice(x, box.xMin, box.xMax, w)
  {
    MaskCell(h, w, box, y, x);
  }

  /** On a 100-row image a mask over `[-10:100, ...]` marks the last 10
      rows. */
  lemma MaskLastRows(w: nat, box: FlatBox, y: int, x: int)
    requires box.yMin == -10 && box.yMax == 100 && 0 <= box.xMin <= x < box.xMax <= w
    requires 0 <= y < 100
    ensures InpaintingMask(100, w, box)[y][x] == 255 <==> y >= 90
  {
    MaskNegativeBound(100, w, box, y, x);
  }
}
