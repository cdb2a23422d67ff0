/**
 * The compositing step of the main loop: the cloak region is taken from the
 * background, the rest from the live frame, and the two are summed with
 * OpenCV's saturating addition.
 */
module Compositing {
  import opened Images

  /** `cv2.bitwise_not` on a `uint8` mask value. */
  function BitwiseNot(m: Byte): Byte
  {
    255 - m
  }

  /**
   * `cv2.bitwise_and(src, src, mask=m)` at one pixel: `src & src` is `src`,
   * written where the mask is nonzero; the freshly allocated output is zero
   * elsewhere.
   */
  function MaskedCopy(p: Bgr, m: Byte): Bgr
  {
    if m != 0 then p else Bgr(0, 0, 0)
  }

  /** `cv2.add` on `uint8`: the sum clamps at 255 instead of wrapping. */
  function AddSaturating(a: Byte, b: Byte): Byte
  {
    if a + b > 255 then 255 else a + b
  }

  function AddPixels(p: Bgr, q: Bgr): Bgr
  {
    Bgr(AddSaturating(p.b, q.b), AddSaturating(p.g, q.g), AddSaturating(p.r, q.r))
  }

  /** The masked background plus the frame masked by the inverted mask. */
  function CompositePixel(frame: Bgr, background: Bgr, m: Byte): Bgr
  {
    AddPixels(MaskedCopy(background, m), MaskedCopy(frame, BitwiseNot(m)))
  }

  /**
   * For a mask value of 0 or 255 the two masked copies never hold a nonzero
   * channel at the same pixel, so the addition never clamps, and the
   * composite is a plain select: the background under the cloak (255), the
   * frame elsewhere (0).
   */
  lemma CompositeSelects(frame: Bgr, background: Bgr, m: Byte)
    requires m == 0 || m == 255
    ensures MaskedCopy(background, m) == Bgr(0, 0, 0) || MaskedCopy(frame, BitwiseNot(m)) == Bgr(0, 0, 0)
    ensures MaskedCopy(background, m).b + MaskedCopy(frame, BitwiseNot(m)).b <= 255
    ensures MaskedCopy(background, m).g + MaskedCopy(frame, BitwiseNot(m)).g <= 255
    ensures MaskedCopy(background, m).r + MaskedCopy(frame, BitwiseNot(m)).r <= 255
    ensures CompositePixel(frame, background, m) == if m == 255 then background else frame
  {
  }

  /**
   * The output image of the effect. The three images have one shape, as
   * OpenCV's masked operations demand. Wherever the mask is 0 or 255 the
   * output pixel is the background pixel under the cloak and the frame
   * pixel elsewhere.
   */
  function Composite(frame: Frame, background: Frame, mask: Image<Byte>): (out: Frame)
    requires SameShape(background, frame) && SameShape(mask, frame)
    ensures SameShape(out, frame)
    ensures forall y, x :: 0 <= y < |frame| && 0 <= x < |frame[y]| && mask[y][x] == 255 ==>
              out[y][x] == background[y][x]
    ensures forall y, x :: 0 <= y < |frame| && 0 <= x < |frame[y]| && mask[y][x] == 0 ==>
              out[y][x] == frame[y][x]
  {
    var out := seq(|frame|, y requires 0 <= y < |frame| =>
      seq(|frame[y]|, x requires 0 <= x < |frame[y]| => CompositePixel(frame[y][x], background[y][x], mask[y][x])));
    assert forall y, x :: 0 <= y < |frame| && 0 <= x < |frame[y]| && (mask[y][x] == 0 || mask[y][x] == 255) ==>
             out[y][x] == if mask[y][x] == 255 then background[y][x] else frame[y][x]
    by {
      forall y, x | 0 <= y < |frame| && 0 <= x < |frame[y]| && (mask[y][x] == 0 || mask[y][x] == 255) {
        CompositeSelects(frame[y][x], background[y][x], mask[y][x]);
      }
    }
    out
  }
}
