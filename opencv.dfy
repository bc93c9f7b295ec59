/**
  The OpenCV routines the detector calls. The thresholding step is given its
  documented per-pixel meaning; the other stages are library code whose
  internals are not part of this model, so they are the fields of a record of
  functions that every detector operation takes as a parameter.
 */
module OpenCv {
  import opened Colors

  /** An HSV image, row by row. */
  type Image = seq<seq<Hsv>>

  /** One 8-bit channel. */
  type Gray = x: int | 0 <= x <= 255

  /** A single-channel 8-bit raster (a mask or an edge map), row by row. */
  type Raster = seq<seq<Gray>>

  /** The value `inRange` writes for a pixel inside the bounds. */
  const MaskSet: Gray := 255
  /** The value `inRange` writes for a pixel outside them. */
  const MaskUnset: Gray := 0

  datatype Point = Point(x: int, y: int)

  /** A contour, as `findContours` returns it: its boundary points. */
  type Contour = seq<Point>

  datatype MorphOp = MorphOpen | MorphClose
  datatype RetrievalMode = RetrExternal
  datatype ApproxMethod = ChainApproxSimple

  /** The library stages after thresholding. */
  datatype Stages = Stages(
    morphologyEx: (Raster, MorphOp, Raster) -> Raster,
    gaussianBlur: (Raster, int, int, int) -> Raster,   // source, kernel width, kernel height, sigma
    canny: (Raster, int, int) -> Raster,               // source, first and second threshold
    findContours: (Raster, RetrievalMode, ApproxMethod) -> seq<Contour>,
    contourArea: Contour -> real
  )

  /** A pixel lies within `[lower, upper]` when each channel does, both ends included. */
  predicate InBounds(p: Hsv, lower: Hsv, upper: Hsv) {
    lower.h <= p.h <= upper.h && lower.s <= p.s <= upper.s && lower.v <= p.v <= upper.v
  }

  /** `cv2.inRange`: a raster of the image's shape, set where the pixel is within the bounds. */
  function InRange(img: Image, lower: Hsv, upper: Hsv): (m: Raster)
    ensures |m| == |img|
    ensures forall i :: 0 <= i < |img| ==> |m[i]| == |img[i]|
    ensures forall i, j :: 0 <= i < |img| && 0 <= j < |img[i]| ==>
              (m[i][j] == MaskSet <==> InBounds(img[i][j], lower, upper))
    ensures forall i, j :: 0 <= i < |img| && 0 <= j < |img[i]| ==>
              (m[i][j] == MaskSet || m[i][j] == MaskUnset)
  {
    seq(|img|, i requires 0 <= i < |img| =>
      seq(|img[i]|, j requires 0 <= j < |img[i]| =>
        if InBounds(img[i][j], lower, upper) then MaskSet else MaskUnset))
  }

  /** Both bound triples are inside the range; a pixel one unit beyond either
      end of any channel is outside it, whatever its other channels hold. */
  lemma InBoundsEdges(lower: Hsv, upper: Hsv, p: Hsv)
    requires Le(lower, upper)
    ensures InBounds(lower, lower, upper) && InBounds(upper, lower, upper)
    ensures p.h == lower.h - 1 || p.h == upper.h + 1
         || p.s == lower.s - 1 || p.s == upper.s + 1
         || p.v == lower.v - 1 || p.v == upper.v + 1
         ==> !InBounds(p, lower, upper)
  {
  }

  /** The all-ones `n` by `n` structuring element, `np.ones((n, n), np.uint8)`. */
  function Ones(n: nat): (k: Raster)
    ensures |k| == n
    ensures forall i :: 0 <= i < n ==> |k[i]| == n
    ensures forall i, j :: 0 <= i < n && 0 <= j < n ==> k[i][j] == 1
  {
    seq(n, i => seq(n, j => 1))
  }
}
