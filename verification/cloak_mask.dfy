/**
 * The colour classification of `get_cloak_mask`: a fixed table of inclusive
 * HSV bounds per cloak colour, OpenCV's `inRange` test, and the raw mask
 * built from them before any morphological cleaning.
 */
module CloakMask {
  import opened Images

  /** A pair of inclusive per-channel bounds, as passed to `cv2.inRange`. */
  datatype Bounds = Bounds(lower: Hsv, upper: Hsv)

  // The colour table. Red wraps around the hue circle and needs two bands.
  const RedLowBand := Bounds(Hsv(0, 120, 70), Hsv(10, 255, 255))
  const RedHighBand := Bounds(Hsv(170, 120, 70), Hsv(180, 255, 255))
  const BlueBand := Bounds(Hsv(94, 80, 2), Hsv(126, 255, 255))
  const GreenBand := Bounds(Hsv(36, 50, 70), Hsv(89, 255, 255))

  /** Every channel of `p` lies within the bounds, both ends included. */
  predicate Within(p: Hsv, b: Bounds)
  {
    && b.lower.h <= p.h <= b.upper.h
    && b.lower.s <= p.s <= b.upper.s
    && b.lower.v <= p.v <= b.upper.v
  }

  /** `cv2.inRange` on one pixel: 255 inside the bounds, 0 outside. */
  function InRangePixel(p: Hsv, b: Bounds): Byte
  {
    if Within(p, b) then 255 else 0
  }

  /** `cv2.inRange` on a whole image. */
  function InRange(hsv: Image<Hsv>, b: Bounds): (m: Image<Byte>)
    ensures SameShape(m, hsv)
    ensures forall y, x :: 0 <= y < |hsv| && 0 <= x < |hsv[y]| ==> m[y][x] == InRangePixel(hsv[y][x], b)
  {
    seq(|hsv|, y requires 0 <= y < |hsv| =>
      seq(|hsv[y]|, x requires 0 <= x < |hsv[y]| => InRangePixel(hsv[y][x], b)))
  }

  /** NumPy `uint8` addition, which wraps around modulo 256. */
  function AddWrapping(a: Byte, b: Byte): Byte
  {
    (a + b) % 256
  }

  /** The `+` of two masks of the same shape, element by element. */
  function AddMasks(a: Image<Byte>, b: Image<Byte>): (m: Image<Byte>)
    requires SameShape(a, b)
    ensures SameShape(m, a)
    ensures forall y, x :: 0 <= y < |a| && 0 <= x < |a[y]| ==> m[y][x] == AddWrapping(a[y][x], b[y][x])
  {
    seq(|a|, y requires 0 <= y < |a| =>
      seq(|a[y]|, x requires 0 <= x < |a[y]| => AddWrapping(a[y][x], b[y][x])))
  }

  /** `np.zeros_like(hsv[:,:,0])`: an all-zero mask of the image's height and width. */
  function ZerosLike(hsv: Image<Hsv>): (m: Image<Byte>)
    ensures SameShape(m, hsv)
    ensures forall y, x :: 0 <= y < |hsv| && 0 <= x < |hsv[y]| ==> m[y][x] == 0
  {
    seq(|hsv|, y requires 0 <= y < |hsv| => seq(|hsv[y]|, x requires 0 <= x < |hsv[y]| => 0))
  }

  /** The colour names the table has an entry for. */
  predicate KnownColour(colour: string)
  {
    colour == "red" || colour == "blue" || colour == "green"
  }

  /**
   * The colour table written out as plain comparisons: the hue, saturation
   * and value ranges that count as cloak for each colour name. Saturation
   * and value have no upper bound below 255, and names outside the table
   * match nothing.
   */
  predicate IsCloakColour(colour: string, p: Hsv)
  {
    if colour == "red" then (p.h <= 10 || 170 <= p.h <= 180) && p.s >= 120 && p.v >= 70
    else if colour == "blue" then 94 <= p.h <= 126 && p.s >= 80 && p.v >= 2
    else if colour == "green" then 36 <= p.h <= 89 && p.s >= 50 && p.v >= 70
    else false
  }

  /**
   * The two red bands never both accept a pixel, so the `uint8` sum of
   * their masks is an ordinary sum: 255 where either band accepts, 0
   * elsewhere, and never a wrapped-around value.
   */
  lemma RedSumDoesNotWrap(p: Hsv)
    ensures !(Within(p, RedLowBand) && Within(p, RedHighBand))
    ensures AddWrapping(InRangePixel(p, RedLowBand), InRangePixel(p, RedHighBand))
         == InRangePixel(p, RedLowBand) + InRangePixel(p, RedHighBand)
    ensures AddWrapping(InRangePixel(p, RedLowBand), InRangePixel(p, RedHighBand))
         == if Within(p, RedLowBand) || Within(p, RedHighBand) then 255 else 0
  {
  }

  /**
   * Every table entry accepts some pixel, so for a known colour the
   * threshold is a real test, unlike the all-zero mask of an unknown name.
   */
  lemma KnownColourAcceptsSomePixel(colour: string)
    requires KnownColour(colour)
    ensures exists p :: IsCloakColour(colour, p)
  {
    var p := if colour == "red" then Hsv(0, 120, 70)
             else if colour == "blue" then Hsv(94, 80, 2)
             else Hsv(36, 50, 70);
    assert IsCloakColour(colour, p);
  }

  /**
   * The mask `get_cloak_mask` thresholds before cleaning it: the union of
   * the two red bands for "red", one band for "blue" and "green", and all
   * zeros for any other name. It has the image's shape, holds only 0 and
   * 255, and marks exactly the pixels the colour table calls cloak.
   */
  function RawCloakMask(hsv: Image<Hsv>, colour: string): (m: Image<Byte>)
    ensures SameShape(m, hsv)
    ensures forall y, x :: 0 <= y < |hsv| && 0 <= x < |hsv[y]| ==> m[y][x] == 0 || m[y][x] == 255
    ensures forall y, x :: 0 <= y < |hsv| && 0 <= x < |hsv[y]| ==>
              (m[y][x] == 255 <==> IsCloakColour(colour, hsv[y][x]))
    ensures !KnownColour(colour) ==>
              forall y, x :: 0 <= y < |hsv| && 0 <= x < |hsv[y]| ==> m[y][x] == 0
  {
    if colour == "red" then
      var m := AddMasks(InRange(hsv, RedLowBand), InRange(hsv, RedHighBand));
      assert forall y, x :: 0 <= y < |hsv| && 0 <= x < |hsv[y]| ==>
               m[y][x] == if Within(hsv[y][x], RedLowBand) || Within(hsv[y][x], RedHighBand) then 255 else 0
      by {
        forall y, x | 0 <= y < |hsv| && 0 <= x < |hsv[y]| {
          RedSumDoesNotWrap(hsv[y][x]);
        }
      }
      m
    else if colour == "blue" then
      InRange(hsv, BlueBand)
    else if colour == "green" then
      InRange(hsv, GreenBand)
    else
      ZerosLike(hsv)
  }
}
