# Invisibility cloak pipeline, modelled in Dafny

This project models the per-frame pixel pipeline of the "Harry Potter
invisibility cloak" OpenCV script (`demo.py`). Images are immutable grids of
pixels (`seq<seq<Pixel>>`), and masks are grids of bytes whose values are 0
or 255. The pipeline's steps are pure functions:

- **Colour segmentation** (`Segmenter`). `cv2.inRange` is modelled against
  two closed HSV boxes. One covers red just above hue 0 and the other covers
  red just below the top of the hue axis. The two masks are combined by
  numpy's 8-bit addition, which wraps modulo 256.
- **Mask refinement** (`Morphology`). Erosion takes the minimum over the
  3x3 neighbourhood and dilation takes the maximum. The opening with
  `iterations=2` is erode, erode, dilate, dilate, the order OpenCV documents.
  One more dilation follows.
- **Inversion and compositing** (`Compositor`). `cv2.bitwise_not` and
  `cv2.bitwise_and` work bit by bit on 8-bit values.
  `cv2.bitwise_and(src, src, mask=m)` keeps `src` where `m` is non-zero and
  is black elsewhere. `cv2.addWeighted(a, 1, b, 1, 0)` is a
  per-channel sum clipped at 255.
- **Horizontal flip** (`Mirror`). `cv2.flip(img, 1)` is modelled on every
  captured frame.
- **Control loop** (`Controller`). This covers the 60-read background
  capture, one loop iteration (read, process, key dispatch), the whole loop,
  and the script (initial capture, then the loop). Camera reads and key codes
  are abstract input sequences. A read past the end of the given sequence
  fails. The BGR-to-HSV conversion is a parameter `toHsv`.

Files: `grids.dfy` (bytes, pixels, grids, shapes, pointwise order),
`outcomes.dfy` (`Option`, `Result`), `mirror.dfy`, `segmenter.dfy`,
`morphology.dfy`, `compositor.dfy`, `controller.dfy`.

Border assumption for erosion and dilation: neighbours outside the grid are
ignored. Erosion pads with 255 and dilation pads with 0. This is an
assumption of the model, not a claim about library internals.

Two behaviours of the script differ from what a cleaner design would do. The
model follows the script in both:

- A capture keeps only the result of its last read. If that read fails,
  `cap.read()` returns `(False, None)` and the background becomes `None`, even
  when earlier reads succeeded. The last good frame is not retained.
- A composite whose inputs differ in size, or whose background is `None`,
  raises inside OpenCV. The exception is not caught, so the script ends. The
  model stops the loop with `Crashed`. It does not skip the tick and carry on.

## Model

| member | source | states |
|---|---|---|
| Mirror.Flip | demo.py:41 | keeps the shape; the pixel at column `c` of a row moves to column `W-1-c` |
| Mirror.FlipInvolution | demo.py:41 | flipping twice gives back the original image |
| Segmenter.InRange | demo.py:47-48 | the range mask has the image's shape, only the values 0 and 255, and is 255 exactly where the pixel lies in the box |
| Segmenter.AddMasks | demo.py:49 | the uint8 sum of two masks keeps their shape; each value is the exact sum when it is below 256 and the sum minus 256 otherwise |
| Segmenter.SegmentTwo | demo.py:47-49 | the two-box mask has the image's shape; a pixel in one box is 255, in neither 0, and in both 254 (255 + 255 wrapped) |
| Segmenter.CloakMask | demo.py:47-49 | a pixel is 255 in `cloak_mask` exactly when its HSV triple lies in [0,120,70]..[10,255,255] or in [170,120,70]..[180,255,255], and 0 otherwise |
| Segmenter.RedBoxesDisjoint | demo.py:27-30 | no HSV triple lies in both red boxes |
| Segmenter.DisjointSumIsUnion | demo.py:49 | adding two binary masks that are never both 255 equals their pointwise OR (max), and the sum is binary |
| Segmenter.CloakMaskIsUnion | demo.py:47-49 | `mask1 + mask2` equals the union of the two single-box masks |
| Segmenter.OverlappingBoxesWrap | demo.py:49 | were the boxes to overlap, a pixel in both would get 255+255, which wraps to 254 |
| Segmenter.RedScenario | demo.py:27-30 | (175,200,200) is selected and (90,200,200) is not |
| Morphology.Erode | demo.py:53 | one erosion pass keeps the grid's shape; its values are the neighbourhood minimum by ErodeBelow and ErodeGreatest |
| Morphology.Dilate | demo.py:53-54 | one dilation pass keeps the grid's shape; its values are the neighbourhood maximum by DilateAbove and DilateLeast |
| Morphology.ErodeBelow | demo.py:53 | an eroded value is at most every in-grid value of its 3x3 neighbourhood |
| Morphology.ErodeGreatest | demo.py:53 | any lower bound of the in-grid 3x3 neighbourhood is at most the eroded value, so erosion is the neighbourhood minimum |
| Morphology.DilateAbove | demo.py:54 | a dilated value is at least every in-grid value of its 3x3 neighbourhood |
| Morphology.DilateLeast | demo.py:54 | any upper bound of the in-grid 3x3 neighbourhood bounds the dilated value, so dilation is the neighbourhood maximum |
| Morphology.ErodeTimes | demo.py:53 | iterated erosion keeps the grid's shape |
| Morphology.DilateTimes | demo.py:53-54 | iterated dilation keeps the grid's shape |
| Morphology.Opening | demo.py:53 | the opening keeps the grid's shape |
| Morphology.Refine | demo.py:53-54 | refinement keeps the grid's shape |
| Morphology.ErodeBinary | demo.py:53 | erosion keeps a binary mask binary |
| Morphology.DilateBinary | demo.py:54 | dilation keeps a binary mask binary |
| Morphology.RefineBinary | demo.py:53-54 | refinement keeps the shape and keeps every value in {0,255} |
| Morphology.ErodeMonotone | demo.py:53 | erosion preserves the pointwise order |
| Morphology.DilateMonotone | demo.py:54 | dilation preserves the pointwise order |
| Morphology.DilateErodeBelow | demo.py:53 | dilating an erosion never exceeds the original mask |
| Morphology.ErodeDilateAbove | demo.py:53 | eroding a dilation never goes below the original mask |
| Morphology.ErodeTimesMonotone | demo.py:53 | `n` erosions preserve the pointwise order |
| Morphology.DilateTimesMonotone | demo.py:53 | `n` dilations preserve the pointwise order |
| Morphology.DilateBelowIfUnderErode | demo.py:53 | a mask below the erosion of `z` dilates to a mask below `z` |
| Morphology.DilateTimesBelowIfUnderErodeTimes | demo.py:53 | the same adjunction for `n` passes: a mask below `n` erosions of `y` dilates `n` times to a mask below `y` |
| Morphology.OpeningBelow | demo.py:53 | opening is anti-extensive: the opened mask is a subset of the input, for any iteration count |
| Morphology.ClosingAbove | demo.py:53 | `n` dilations then `n` erosions never remove a pixel |
| Morphology.OpeningIdempotent | demo.py:53 | opening the opened mask again changes nothing |
| Morphology.DilateExtensive | demo.py:54 | a dilation never lowers a value: every pixel lies in its own 3x3 neighbourhood |
| Morphology.RefineAboveOpening | demo.py:54 | the final dilation is extensive: every pixel kept by the opening is still selected |
| Morphology.IsolatedPixelRemoved | demo.py:52-53 | a selected pixel whose in-grid neighbours (at least one) are all unselected is 0 after the opening |
| Morphology.LonePixelSurvives | demo.py:52-53 | the one exception: a selected pixel filling a 1x1 grid survives the opening |
| Compositor.NotBitsComplement | demo.py:57 | complementing every bit of a `w`-bit value `x` gives `2^w - 1 - x` |
| Compositor.AndBitsSelf | demo.py:60-61 | a `w`-bit value and-ed bit by bit with itself is unchanged |
| Compositor.BitNotIsComplement | demo.py:57 | the 8-bit complement of `x` is `255 - x` |
| Compositor.Invert | demo.py:57 | `mask_inv` has the mask's shape |
| Compositor.InvertInvolution | demo.py:57 | inverting twice restores the mask |
| Compositor.InvertPartition | demo.py:57 | for a binary mask the inverse is binary, and every pixel is selected in exactly one of `cloak_mask` and `mask_inv` |
| Compositor.BitAndSelf | demo.py:60-61 | `x & x == x`, so `bitwise_and(src, src)` copies `src` |
| Compositor.MaskedCopy | demo.py:60-61 | a masked copy equals the source where the mask is non-zero and is black elsewhere |
| Compositor.AddImages | demo.py:62 | the weighted sum keeps the shape |
| Compositor.MixCases | demo.py:60-62 | per pixel, a mask value of 255 shows the background, 0 shows the frame, and anything else the clipped sum of both |
| Compositor.Blend | demo.py:60-62 | for equally shaped inputs the composite keeps the shape, and each pixel combines the masked background with the frame masked by the inverse |
| Compositor.Composite | demo.py:60-62 | fails exactly when the shapes disagree; otherwise shows the background where the mask is 255, the frame where it is 0, and the clipped sum of both for intermediate values |
| Compositor.CompositeNeverClips | demo.py:60-62 | with a binary mask one part is black at every pixel, so no channel sum exceeds 255 |
| Compositor.CompositeSelects | demo.py:60-62 | with a binary mask, each output pixel is the background's where the mask is 255 and the frame's where it is 0 |
| Compositor.CompositeEmptyMask | demo.py:60-62 | an all-zero mask yields `frame` exactly |
| Compositor.CompositeFullMask | demo.py:60-62 | an all-255 mask yields `background` exactly |
| Compositor.CompositeSameImage | demo.py:60-62 | identical background and frame yield that image for any binary mask |
| Compositor.CompositeMismatchScenario | demo.py:60-62 | a 2x2 background and a 1x1 frame cannot be composited |
| Controller.Captured | demo.py:20-22 | one capture read gives no background exactly when it fails; a good frame gives an image of the frame's shape that flips back to the frame |
| Controller.Capture | demo.py:19-22 | after an `n`-read capture (`n > 0`), the background is the `n`-th read flipped if it succeeded and `None` if it failed; exactly `n` reads are consumed |
| Controller.FailedLastCaptureReadLosesBackground | demo.py:19-22 | 59 good frames followed by a failed read leave no background, and the next frame then fails |
| Controller.ShapesAgree | demo.py:60-62 | the composite's shape check passes exactly when the background and the HSV image have the frame's shape |
| Controller.FrameMask | demo.py:44-54 | the refined cloak mask of a frame has the frame's shape and only the values 0 and 255 |
| Controller.Process | demo.py:41-62 | with no background the frame fails; otherwise it succeeds exactly when the background has the frame's shape, and each output pixel is the background's where the refined mask is 255 and the flipped frame's elsewhere |
| Controller.Step | demo.py:35-80 | a failed read ends the loop with nothing shown; an unprocessable frame ends it; key 27 ends it after showing the output; key 'b' replaces the background by the capture of the next 60 reads; any other key leaves the background unchanged and consumes one read |
| Controller.KeyCode | demo.py:70 | `& 0xFF` gives the value in 0..255 congruent to the raw code modulo 256 |
| Controller.NoKeyChangesNothing | demo.py:70 | "no key" (-1) masks to 255, neither ESC nor 'b' |
| Controller.Run | demo.py:35-80 | the loop shows at most one output per read; it stops on ESC only after showing a frame, and only if some key event is ESC |
| Controller.Program | demo.py:19-80 | the script shows at most one output per read after the first 60; with 60 reads or fewer it shows nothing and stops on a failed read |

## Left out

- The BGR-to-HSV conversion (demo.py:44) depends on OpenCV's rounding and division. It is the parameter `toHsv`, and the segmenter takes HSV triples. Of `cv2.cvtColor` the model keeps only that it returns an image of its input's shape (`Controller.KeepsShape`), which the controller requires.
- Camera access is device I/O: `cv2.VideoCapture`, the `isOpened` checks, `release` and `time.sleep`. The `while cap.isOpened()` condition is taken as always true; a closed camera behaves like a failed read.
- Window output is UI I/O: `imshow` and `destroyAllWindows`. The shown frames are collected in `Session.shown`.
- `print` messages and the emoji window titles are left out.
- The real timing of `waitKey(1)` is left out. Keys are an abstract sequence of raw codes, one consumed per shown frame; an exhausted sequence means no key.
- Frames are not restricted to rectangular, non-empty grids. The camera only delivers such frames; every contract here holds for any grid, so the larger domain costs nothing.
- OpenCV's border policy for erode and dilate is not modelled; the model assumes out-of-grid neighbours are ignored.
- OpenCV's 8-bit hue range is 0..179. The model accepts any byte as hue; the upper bound 180 of the second box is kept as written.
- `addWeighted` computes in floating point. The model fixes the weights at 1 and 1 with offset 0, where the result is the exact integer sum clipped to 255.
- The contents of the exception OpenCV raises are not modelled. A failing composite is `Crashed(fault)` with a `Fault` value.
- Clamping non-zero mask values to "selected" is not something the script does, so it is not modelled. Intermediate mask values are composited as the script would composite them.
- Controller.Run: states only the bounds on what is shown and when ESC can stop the loop; the per-iteration behaviour is stated by Controller.Step.
- Controller.Program: states only how much can be shown and the behaviour for 60 reads or fewer; the loop itself is described by Controller.Run and Controller.Step.
