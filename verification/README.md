# Invisibility cloak: a Dafny model of its pixel rules and main loop

The program shows a live camera picture in which a cloak of a chosen colour
(red, blue or green) is replaced by a previously captured background. This
project models the logic the program itself contributes around its OpenCV
calls, and proves what that logic guarantees:

- **Cloak-colour classification** (`cloak_mask.dfy`, module `CloakMask`). A
  fixed table maps each colour name to inclusive HSV bounds. `cv2.inRange`
  becomes a per-pixel inclusive test giving 255 or 0. Red is the `uint8` sum of
  two hue bands, modelled with NumPy's wrap-around addition. Any other name
  gives an all-zero mask. `RawCloakMask` is proved against an independent
  statement of the table (`IsCloakColour`): the mask has the image's shape,
  holds only 0 and 255, and is 255 exactly on the pixels the table calls
  cloak. The two red bands are disjoint, so the sum never wraps.
- **Small-region removal** (`small_regions.dfy`, module `SmallRegions`). A
  fresh zero buffer (`array2`) is filled with 255, label by label, for every
  foreground component whose area is strictly above 1500. The label image and
  the per-label areas are inputs. The method is proved to set each pixel to
  `Kept(label, areas)`. That value is 255 exactly for a label of 1 or more whose
  area exceeds 1500, and 0 otherwise.
- **Compositing** (`compositing.dfy`, module `Compositing`). The steps are the
  inverted mask, two masked copies (`bitwise_and` with a mask, zero outside
  it) and the saturating `cv2.add`. For a 0/255 mask, the masked copies never
  overlap, the addition never clamps, and the output pixel is the background
  under the cloak and the frame elsewhere.
- **Main loop** (`cloak_app.dfy`, module `CloakApp`). The loop's variables are
  `background`, `CURRENT_COLOR`, `USE_BACKGROUND_IMAGE` and whether the loop
  still runs. `Init`, `Step` and `Run` are pure functions that specify them.
  The class `CloakLoop` holds the variables as fields, and its methods (the
  setup, the twenty-read capture loop, one loop iteration, the whole loop)
  are proved to follow those functions. Each iteration gets its inputs as an
  `Event`: the frame read, the key code (`waitKey(1) & 0xFF`) and the twenty
  reads a capture would make. Key `b` captures a background when none exists.
  Once a background exists, `b` replaces it only when no static background
  picture is in use. `1`, `2`, `3` pick red, blue, green in both modes. `q`
  quits. Other keys change nothing.

A capture keeps only its last read. `ret, bg = cap.read()` assigns `bg` even
when the read fails: it becomes None, and the loop continues. So a capture
whose last read fails ends in `bg.copy()` on None, which raises. The model
keeps that path as the status `Crashed` instead of excluding it. The same
status records the other uncaught error of an iteration: compositing with a
background whose size differs from the frame's.

Images are sequences of rows. Pixels are byte triples (`Hsv`, `Bgr`), and
masks are images of bytes (0..255).

## Model

| member | source | states |
|---|---|---|
| `Images.Flip` | harrry.py:162-163 | `cv2.flip(img, 1)`: same shape, each row read right to left |
| `CloakMask.InRange` | harrry.py:100-108 | `cv2.inRange`: a mask of the image's shape that is 255 inside the inclusive bounds and 0 outside |
| `CloakMask.AddMasks` | harrry.py:100 | `uint8` `+` of two masks: same shape, each element the sum modulo 256 |
| `CloakMask.ZerosLike` | harrry.py:109-110 | `np.zeros_like(hsv[:,:,0])`: a mask of the frame's height and width, all zero |
| `CloakMask.RedSumDoesNotWrap` | harrry.py:96-100 | the two red bands never both accept a pixel; their `uint8` sum equals the plain sum and is 255 iff either band accepts |
| `CloakMask.KnownColourAcceptsSomePixel` | harrry.py:95-108 | each of the three table entries accepts at least one pixel |
| `CloakMask.RawCloakMask` | harrry.py:94-110 | the raw mask has the image's shape and holds only 0 and 255. It is 255 iff the pixel lies in the colour's table range: red hue 0..10 or 170..180 with s >= 120 and v >= 70; blue hue 94..126 with s >= 80 and v >= 2; green hue 36..89 with s >= 50 and v >= 70. An unknown colour gives all zeros |
| `SmallRegions.FillLabel` | harrry.py:122 | `clean_mask[labels == i] = 255`: pixels of label i become 255, every other pixel keeps its value |
| `SmallRegions.RemoveSmallRegions` | harrry.py:119-123 | returns a fresh buffer of the label image's shape. Every pixel is 0 or 255, and it is 255 iff its label is >= 1 and that label's area is > 1500, so label 0 and a component of exactly 1500 pixels are never kept |
| `Compositing.CompositeSelects` | harrry.py:175-179 | for a 0/255 mask value, the masked background and the masked frame never both have a nonzero channel; no channel sum exceeds 255; the result is the background at 255 and the frame at 0 |
| `Compositing.Composite` | harrry.py:175-179 | the output has the frame's shape; it takes the background pixel where the mask is 255 and the frame pixel where it is 0 |
| `CloakApp.ColourOf` | harrry.py:169 | key `1` gives "red", `2` gives "blue", `3` gives "green" |
| `CloakApp.CaptureKeepsLastRead` | harrry.py:158-163 | after the capture loop, `bg` depends only on the last read: mirrored on success, None on failure; earlier reads are not averaged in |
| `CloakApp.Capture` | harrry.py:157-164 | a capture whose last read succeeds sets the background to that read mirrored and changes nothing else; one whose last read fails crashes and changes nothing else |
| `CloakApp.Init` | harrry.py:83-90 | the loop starts running with colour "red". A background exists iff the static picture was requested and loaded, and then it is that picture. A failed load leaves no background and clears the static-picture flag |
| `CloakApp.Step` | harrry.py:138-199 | one iteration. A failed frame read ends the loop. With a background whose size differs from the frame's, compositing crashes before the key is read. Otherwise `q` quits and `1`/`2`/`3` set red/blue/green. `b` captures when there is no background or no static picture is in use, and otherwise does nothing. Any other key changes nothing. A stopped loop does not change. The flag never changes, and a background never returns to None. A static background is never replaced, and the colour stays a table colour |
| `CloakApp.StoppedIsFinal` | harrry.py:155-156 | once the loop has stopped, no further events change the state |
| `CloakApp.BackgroundNeverUnset` | harrry.py:150-199 | over any sequence of iterations, a background that exists keeps existing |
| `CloakApp.StaticBackgroundFixed` | harrry.py:191 | over any sequence of iterations, a loaded static background is never replaced and the flag stays set |
| `CloakApp.ColourStaysKnown` | harrry.py:168-169 | from the initial state, after any sequence of iterations the colour is red, blue or green, a table entry that accepts some pixel |
| `CloakApp.CloakLoop.constructor` | harrry.py:83-90 | the loop variables before the loop are `Init` of the options and the loaded picture |
| `CloakApp.CloakLoop.CaptureBackground` | harrry.py:193-199 | the twenty-read loop followed by `background = bg.copy()` yields `Capture` of the old state |
| `CloakApp.CloakLoop.Iterate` | harrry.py:139-199 | one pass of the loop body, including the crash of a size mismatch at compositing, yields `Step` of the old state |
| `CloakApp.CloakLoop.RunLoop` | harrry.py:138-199 | the `while True` loop over a sequence of events yields `Run` of the old state, stopping at the first quit, failed read or crash |

## Left out

- Opening the camera and exiting when it cannot be opened (harrry.py:71-74), and setting the resolution (harrry.py:78-79): camera I/O.
- `cv2.imread` and `cv2.resize` of the static picture (harrry.py:85, 90): the loaded picture is an input to `Init`, taken as already resized to 640x480.
- `cv2.cvtColor` from BGR to HSV (harrry.py:173): a library colour transform with its own rounding; the HSV image is an input.
- Morphological open, close and dilate (harrry.py:113-115) and `cv2.connectedComponentsWithStats` (harrry.py:118): library algorithms. `RemoveSmallRegions` takes the label image and the per-label areas as inputs, so the model does not connect them to `RawCloakMask`.
- The per-frame output (harrry.py:143-148, 173-182): `Step` and `Iterate` do not compute the mirrored frame, the mask or the output image; the pixel rules are modelled on their own in `CloakMask`, `SmallRegions` and `Compositing`. Of that path, the loop model keeps only its one effect on the loop: compositing with a background of another size than the frame raises (harrry.py:177-179), which `Step` and `Iterate` model as the status `Crashed`.
- `putText`, `imshow`, `waitKey` timing, `print`, `cap.release` and `destroyAllWindows`: user-interface glue.
- Composite: requires the frame, background and mask to have one shape. OpenCV raises on a mismatch, for example a static picture of 640x480 with a camera of another size; that error is modelled in `CloakApp.Step` (status `Crashed`), not in `Composite`.
- Composite: states the output only where the mask is 0 or 255. For other values the output is the clamped sum of both masked copies. The mask produced by `RemoveSmallRegions` holds only 0 and 255.
- `Images.Flip` models `cv2.flip(img, 1)` by its definition (reverse every row); OpenCV's implementation is not part of this model.
