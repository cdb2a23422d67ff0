/**
 * Pixel and image values shared by the cloak pipeline.
 *
 * OpenCV images are NumPy arrays of unsigned 8-bit channels. An image is
 * modelled as a sequence of rows, each row a sequence of pixels; a
 * single-channel mask is an image of bytes.
 */
module Images {

  /** An unsigned 8-bit channel value (NumPy `uint8`). */
  type Byte = x: int | 0 <= x < 256

  /** A pixel of an HSV image, as OpenCV stores it: hue, saturation, value. */
  datatype Hsv = Hsv(h: Byte, s: Byte, v: Byte)

  /** A pixel of a camera frame, in OpenCV's blue-green-red channel order. */
  datatype Bgr = Bgr(b: Byte, g: Byte, r: Byte)

  /** An image as rows of pixels (row-major, like a NumPy array). */
  type Image<T> = seq<seq<T>>

  /** A camera frame or a background picture. */
  type Frame = Image<Bgr>

  datatype Option<T> = None | Some(value: T)

  /** True when `a` and `b` have the same number of rows and equally long rows. */
  predicate SameShape<S, T>(a: Image<S>, b: Image<T>)
  {
    |a| == |b| && forall y :: 0 <= y < |a| ==> |a[y]| == |b[y]|
  }

  /** The reversal of one row. */
  function Reverse<T>(row: seq<T>): (r: seq<T>)
    ensures |r| == |row|
    ensures forall x :: 0 <= x < |row| ==> r[x] == row[|row| - 1 - x]
  {
    seq(|row|, x requires 0 <= x < |row| => row[|row| - 1 - x])
  }

  /** `cv2.flip(img, 1)`: mirror an image around its vertical axis. */
  function Flip<T>(img: Image<T>): (r: Image<T>)
    ensures SameShape(r, img)
    ensures forall y, x :: 0 <= y < |img| && 0 <= x < |img[y]| ==> r[y][x] == img[y][|img[y]| - 1 - x]
  {
    seq(|img|, y requires 0 <= y < |img| => Reverse(img[y]))
  }
}
