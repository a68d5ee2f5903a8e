# Integer pixel kernels of the gecv corner pipeline, modelled in Dafny

This project models three integer-only image kernels of gecv, the early BoofCV, and proves what
they compute.

- **Unrolled 16-bit separable convolution** (`ConvolveImageUnrolled_I16_I16`).
  - The `horizontal` and `vertical` dispatchers.
  - The ten unrolled passes `horizontal3..11` and `vertical3..11`.
  - Each pass is proved to leave the destination equal to one generic definition: the `(short)`
    of the exact dot product Σ kernel[k] · src over a row or column window.
  - So every unrolled width agrees with the reference kernel loop, for all inputs. Java's
    wrapping `int` accumulation is modelled step by step.
- **FAST-12 corner intensity for 8-bit images.** This is the `process` method the generator
  emits for `ImageInt8`, together with the constructor state.
  - The model is a class, `FastCorner12`. It holds the intensity image, the candidate queue,
    `pixelTol` and `minCont`.
  - Its `Process` walks the interior of the image and writes each pixel's score. It queues the
    corners, doubling the queue when it is full.
  - It is proved to leave the intensity image equal to a per-pixel specification (`Evaluate`),
    and the queue equal to exactly the declared corners, in row-major order.
  - The specification is then shown to have the properties the detector promises, and the
    quirks it has.
- **Hessian blob intensity, 16-bit variant.**
  - `determinant` stores dxx·dyy − dxy², and `trace` stores |dxx + dyy|, at every pixel of the
    XX derivative's extent.
  - Both are proved exact: 16-bit inputs never overflow Java `int`.

Modules:

- `Ints` has Java's `byte`/`short`/`int` and two's-complement arithmetic (`Wrap32`, `Wrap16`,
  `Add32`, `Sub32`, `Mul32`, `Neg32`, `Abs32`, `Unsigned` for `& 0xFF`).
- `Images` has the strided image header (`width`, `height`, `stride`, `startIndex`). It also has
  a generic row-major "paint" of a rectangular window, which all three kernels share.
  `PaintedSoFar` is the loop invariant and `Paint` is the final state.
- `ConvolveSpec` and `ConvolveImageUnrolled` hold the convolution.
- `HessianBlobIntensity` holds the Hessian.
- `QueueCorners` has the candidate queue: a sequence plus a capacity.
- `FastSpec` holds the per-pixel FAST decision as functions and the whole-image results
  (`IntensityImage`, `Corners`), with the lemmas about them.
- `FastCorners` holds the imperative detector class.

The Java loop body of `process` is one long inline block. In the model it is split into methods
that keep the loops and branches as written:

- `QuickTest`;
- the counter loops `ForwardRun`, `BackwardRun` and `FindStart`;
- the two branches `ScanWrap` and `ScanFirstRun`;
- the per-pixel `ScorePixel`, and the final stores `StoreScore`;
- the row and pixel loops `ProcessRows`, `ProcessRow` and `ProcessPixel`.

Each method is proved against the matching specification function.

Quirks of the generated FAST code that the model reproduces, each with a lemma:

- Java's `&&` binds tighter than `||` at line 222, so a dark candidate with a *bright* first
  sample enters the wrap-around branch. This can declare a corner that has no 12-sample dark arc
  (`WrapQuirkFalseCorner`, `BrightFirstSamplesHaveNoArc`).
- In the first-run branch, the start sample's difference is not summed
  (`StartDifferenceNotSummed`).
- When no sample qualifies, start is 16 and stop is 17 (`NoQualifyingSample`).
- Only the first run is measured (`OnlyFirstRunMeasured`).

## Model

| member | source | states |
|---|---|---|
| Ints.Unsigned | core/src/gecv/alg/detect/corner/impl/GenerateFastCorner.java:49 | `b & 0xFF` of a byte is the value in [0, 256) congruent to b modulo 256 |
| Ints.Wrap16OfWrap32 | core/src/gecv/alg/filter/convolve/impl/ConvolveImageUnrolled_I16_I16.java:124-128 | the `(short)` of a wrapped `int` sum equals the `(short)` of the exact sum, so `int` overflow in the accumulation never changes an output |
| ConvolveSpec.RowDotAt | core/src/gecv/alg/filter/convolve/impl/ConvolveImageUnrolled_I16_I16.java:123-126 | reading `dataSrc[indexSrc++]` and adding its product to the `int` total keeps the total equal to the wrapped exact prefix of the row dot product; the next read stays in the row |
| ConvolveSpec.ColDotAt | core/src/gecv/alg/filter/convolve/impl/ConvolveImageUnrolled_I16_I16.java:331-337 | stepping `indexSrc` by the stride keeps the total equal to the wrapped exact prefix of the column dot product; the next read stays in the image |
| ConvolveSpec.HorizontalStep | core/src/gecv/alg/filter/convolve/impl/ConvolveImageUnrolled_I16_I16.java:128 | storing `(short)total` at `indexDst` advances the horizontal pass by exactly one destination pixel |
| ConvolveSpec.VerticalStep | core/src/gecv/alg/filter/convolve/impl/ConvolveImageUnrolled_I16_I16.java:339 | the same for the vertical pass |
| ConvolveSpec.HorizontalImageAt | core/src/gecv/alg/filter/convolve/impl/ConvolveImageUnrolled_I16_I16.java:117-128 | after a horizontal pass, each pixel (x, i) with radius ≤ x < width − radius and yBorder ≤ i < height − yBorder holds `(short)` Σ_k kernel[k] · src(x − radius + k, i) |
| ConvolveSpec.HorizontalImageElsewhere | core/src/gecv/alg/filter/convolve/impl/ConvolveImageUnrolled_I16_I16.java:117-130 | a horizontal pass changes no destination element outside that window |
| ConvolveSpec.VerticalImageAt | core/src/gecv/alg/filter/convolve/impl/ConvolveImageUnrolled_I16_I16.java:318-339 | after a vertical pass, each pixel (x, y) with xBorder ≤ x < W − xBorder and radius ≤ y < H − radius of the destination holds `(short)` Σ_k kernel[k] · src(x, y − radius + k) |
| ConvolveSpec.VerticalImageElsewhere | core/src/gecv/alg/filter/convolve/impl/ConvolveImageUnrolled_I16_I16.java:318-341 | a vertical pass changes no destination element outside that window |
| ConvolveImageUnrolled.Horizontal | core/src/gecv/alg/filter/convolve/impl/ConvolveImageUnrolled_I16_I16.java:40-68 | returns true exactly for widths 3, 5, 7, 9, 11, and then the destination is the horizontal convolution; otherwise the destination is untouched |
| ConvolveImageUnrolled.Vertical | core/src/gecv/alg/filter/convolve/impl/ConvolveImageUnrolled_I16_I16.java:70-98 | the same for the vertical dispatcher |
| ConvolveImageUnrolled.RowTotal3 | core/src/gecv/alg/filter/convolve/impl/ConvolveImageUnrolled_I16_I16.java:123-126 | the unrolled width-3 `int` total is the wrapped exact row dot product |
| ConvolveImageUnrolled.RowTotal5 | core/src/gecv/alg/filter/convolve/impl/ConvolveImageUnrolled_I16_I16.java:158-164 | the same for width 5 |
| ConvolveImageUnrolled.RowTotal7 | core/src/gecv/alg/filter/convolve/impl/ConvolveImageUnrolled_I16_I16.java:197-205 | the same for width 7 |
| ConvolveImageUnrolled.RowTotal9 | core/src/gecv/alg/filter/convolve/impl/ConvolveImageUnrolled_I16_I16.java:240-250 | the same for width 9 |
| ConvolveImageUnrolled.RowTotal11 | core/src/gecv/alg/filter/convolve/impl/ConvolveImageUnrolled_I16_I16.java:287-299 | the same for width 11 |
| ConvolveImageUnrolled.Horizontal3 | core/src/gecv/alg/filter/convolve/impl/ConvolveImageUnrolled_I16_I16.java:100-131 | the width-3 pass leaves the destination equal to the generic horizontal convolution of the old destination |
| ConvolveImageUnrolled.Horizontal5 | core/src/gecv/alg/filter/convolve/impl/ConvolveImageUnrolled_I16_I16.java:133-168 | the same for width 5 |
| ConvolveImageUnrolled.Horizontal7 | core/src/gecv/alg/filter/convolve/impl/ConvolveImageUnrolled_I16_I16.java:170-209 | the same for width 7 |
| ConvolveImageUnrolled.Horizontal9 | core/src/gecv/alg/filter/convolve/impl/ConvolveImageUnrolled_I16_I16.java:211-254 | the same for width 9 |
| ConvolveImageUnrolled.Horizontal11 | core/src/gecv/alg/filter/convolve/impl/ConvolveImageUnrolled_I16_I16.java:256-303 | the same for width 11 |
| ConvolveImageUnrolled.ColTotal3 | core/src/gecv/alg/filter/convolve/impl/ConvolveImageUnrolled_I16_I16.java:331-337 | the unrolled width-3 column total is the wrapped exact column dot product |
| ConvolveImageUnrolled.ColTotal5 | core/src/gecv/alg/filter/convolve/impl/ConvolveImageUnrolled_I16_I16.java:372-383 | the same for width 5 |
| ConvolveImageUnrolled.ColTotal7 | core/src/gecv/alg/filter/convolve/impl/ConvolveImageUnrolled_I16_I16.java:419-434 | the same for width 7 |
| ConvolveImageUnrolled.ColTotal9 | core/src/gecv/alg/filter/convolve/impl/ConvolveImageUnrolled_I16_I16.java:472-491 | the same for width 9 |
| ConvolveImageUnrolled.ColTotal11 | core/src/gecv/alg/filter/convolve/impl/ConvolveImageUnrolled_I16_I16.java:531-554 | the same for width 11 |
| ConvolveImageUnrolled.Vertical3 | core/src/gecv/alg/filter/convolve/impl/ConvolveImageUnrolled_I16_I16.java:305-342 | the width-3 pass leaves the destination equal to the generic vertical convolution of the old destination |
| ConvolveImageUnrolled.Vertical5 | core/src/gecv/alg/filter/convolve/impl/ConvolveImageUnrolled_I16_I16.java:344-387 | the same for width 5 |
| ConvolveImageUnrolled.Vertical7 | core/src/gecv/alg/filter/convolve/impl/ConvolveImageUnrolled_I16_I16.java:389-438 | the same for width 7 |
| ConvolveImageUnrolled.Vertical9 | core/src/gecv/alg/filter/convolve/impl/ConvolveImageUnrolled_I16_I16.java:440-495 | the same for width 9 |
| ConvolveImageUnrolled.Vertical11 | core/src/gecv/alg/filter/convolve/impl/ConvolveImageUnrolled_I16_I16.java:497-558 | the same for width 11 |
| HessianBlobIntensity.DeterminantExact | feature/src/gecv/alg/detect/intensity/impl/GenerateImplHessianBlobIntensity.java:102-106 | Java's `int` dxx·dyy − dxy·dxy of 16-bit derivatives is the exact integer value |
| HessianBlobIntensity.TraceExact | feature/src/gecv/alg/detect/intensity/impl/GenerateImplHessianBlobIntensity.java:132-135 | Java's `Math.abs(dxx + dyy)` of 16-bit derivatives is the exact, non-negative \|dxx + dyy\| |
| HessianBlobIntensity.Determinant | feature/src/gecv/alg/detect/intensity/impl/GenerateImplHessianBlobIntensity.java:86-109 | the intensity buffer becomes the old buffer with the XX extent painted with the exact determinant |
| HessianBlobIntensity.Trace | feature/src/gecv/alg/detect/intensity/impl/GenerateImplHessianBlobIntensity.java:117-138 | the intensity buffer becomes the old buffer with the XX extent painted with the exact \|dxx + dyy\| |
| HessianBlobIntensity.DeterminantImageAt | feature/src/gecv/alg/detect/intensity/impl/GenerateImplHessianBlobIntensity.java:94-106 | every (x, y) of the XX extent, addressed through each buffer's own start and stride, holds dxx·dyy − dxy·dxy |
| HessianBlobIntensity.TraceImageAt | feature/src/gecv/alg/detect/intensity/impl/GenerateImplHessianBlobIntensity.java:125-135 | every (x, y) of the XX extent holds \|dxx + dyy\|, which is ≥ 0 |
| HessianBlobIntensity.DeterminantImageElsewhere | feature/src/gecv/alg/detect/intensity/impl/GenerateImplHessianBlobIntensity.java:99-106 | no element outside the width×height region changes |
| HessianBlobIntensity.TraceImageElsewhere | feature/src/gecv/alg/detect/intensity/impl/GenerateImplHessianBlobIntensity.java:129-135 | no element outside the width×height region changes |
| QueueCorners.QueueCorner.constructor | core/src/gecv/alg/detect/corner/impl/GenerateFastCorner.java:118 | a new queue is empty, with the given capacity |
| QueueCorners.QueueCorner.Reset | core/src/gecv/alg/detect/corner/impl/GenerateFastCorner.java:140 | reset empties the queue and keeps the capacity |
| QueueCorners.QueueCorner.Resize | core/src/gecv/alg/detect/corner/impl/GenerateFastCorner.java:285-287 | resizing changes the capacity and keeps every earlier entry in order |
| QueueCorners.QueueCorner.Add | core/src/gecv/alg/detect/corner/impl/GenerateFastCorner.java:288 | add appends (x, y) at the end |
| FastSpec.ForwardStop | core/src/gecv/alg/detect/corner/impl/GenerateFastCorner.java:227-235 | the forward loop stops at the first sample from i on that does not qualify (or 16); every sample before it qualifies |
| FastSpec.BackwardStop | core/src/gecv/alg/detect/corner/impl/GenerateFastCorner.java:241-248 | the backward loop stops at the first sample from 15 down that does not qualify (or −1); every sample after it qualifies |
| FastSpec.FirstQualifying | core/src/gecv/alg/detect/corner/impl/GenerateFastCorner.java:259-265 | the start loop stops at the first qualifying sample, or at 16; no sample before it qualifies |
| FastSpec.ClassifyThreeOfFour | core/src/gecv/alg/detect/corner/impl/GenerateFastCorner.java:172-207 | action is −1 exactly when at least three compass samples are below center − pixelTol; it is +1 exactly when no dark pair holds and at least three are above center + pixelTol |
| FastSpec.QuickTestComplete | core/src/gecv/alg/detect/corner/impl/GenerateFastCorner.java:172-207 | a pixel with a 12-sample arc of one polarity is never rejected by the quick test, and gets that polarity |
| FastSpec.CandidateHasQualifyingSample | core/src/gecv/alg/detect/corner/impl/GenerateFastCorner.java:259-265 | for a candidate, the start loop finds a qualifying sample |
| FastSpec.JoinedRunArc | core/src/gecv/alg/detect/corner/impl/GenerateFastCorner.java:237-251 | when the wrap branch joins the backward and forward runs into a corner, they form one cyclic arc of minCont samples |
| FastSpec.FirstRunArc | core/src/gecv/alg/detect/corner/impl/GenerateFastCorner.java:257-278 | `stop − start ≥ minCont` means the samples from start form an arc of minCont qualifying samples |
| FastSpec.CornerHasArc | core/src/gecv/alg/detect/corner/impl/GenerateFastCorner.java:221-279 | every declared corner outside the precedence quirk has a cyclic arc of minCont samples of its polarity |
| FastSpec.RunSumSigned | core/src/gecv/alg/detect/corner/impl/GenerateFastCorner.java:226-275 | summed differences of dark samples are negative, and of bright samples positive |
| FastSpec.CornerIntensityPositive | core/src/gecv/alg/detect/corner/impl/GenerateFastCorner.java:282-283 | `action == -1 ? -totalDiff : totalDiff` is positive for a declared corner outside the precedence quirk |
| FastSpec.StartDifferenceNotSummed | core/src/gecv/alg/detect/corner/impl/GenerateFastCorner.java:258-276 | in the first-run branch, totalDiff is the run's sum minus the start sample's difference |
| FastSpec.NoQualifyingSample | core/src/gecv/alg/detect/corner/impl/GenerateFastCorner.java:259-278 | with no qualifying sample, start = 16 and stop = 17: a corner exactly when minCont ≤ 1, with totalDiff 0 |
| FastSpec.RunSumBound | core/src/gecv/alg/detect/corner/impl/GenerateFastCorner.java:226-275 | a run of n differences sums to at most 255·n in magnitude |
| FastSpec.WrapScanBounded | core/src/gecv/alg/detect/corner/impl/GenerateFastCorner.java:221-254 | the wrap branch's totalDiff is within ±8160 |
| FastSpec.FirstRunScanBounded | core/src/gecv/alg/detect/corner/impl/GenerateFastCorner.java:256-279 | the first-run branch's totalDiff is within ±3825 |
| FastSpec.TotalDiffBounded | core/src/gecv/alg/detect/corner/impl/GenerateFastCorner.java:218-283 | every totalDiff is within ±8160, so the `int` sum never overflows and the `float` store is exact |
| FastSpec.WrapQuirkFalseCorner | core/src/gecv/alg/detect/corner/impl/GenerateFastCorner.java:222 | a concrete dark candidate with a bright first sample enters the wrap branch and is declared a 12-corner with intensity 550 |
| FastSpec.BrightFirstSamplesHaveNoArc | core/src/gecv/alg/detect/corner/impl/GenerateFastCorner.java:222 | that candidate has no 12-sample dark arc |
| FastSpec.OnlyFirstRunMeasured | core/src/gecv/alg/detect/corner/impl/GenerateFastCorner.java:256-279 | a concrete candidate with a 12-sample dark arc after a shorter first run is not declared a corner |
| FastSpec.IntensityImageAt | core/src/gecv/alg/detect/corner/impl/GenerateFastCorner.java:157-162 | every pixel at least 3 from each border holds its own score in the intensity image |
| FastSpec.IntensityImageElsewhere | core/src/gecv/alg/detect/corner/impl/GenerateFastCorner.java:157-162 | no intensity element outside the interior window changes |
| FastSpec.NotInteriorNoCorner | core/src/gecv/alg/detect/corner/impl/GenerateFastCorner.java:157-162 | pixels closer than 3 to a border are never corners and have no score |
| FastSpec.RowSelectedMembers | core/src/gecv/alg/detect/corner/impl/GenerateFastCorner.java:162-288 | the corners queued in a row are exactly its corners from column 3 up to the current column |
| FastSpec.RowsSelectedMembers | core/src/gecv/alg/detect/corner/impl/GenerateFastCorner.java:157-288 | the corners queued by earlier rows are exactly their corners |
| FastSpec.CornersExactly | core/src/gecv/alg/detect/corner/impl/GenerateFastCorner.java:140-288 | after `process`, a point is queued exactly when it is a declared corner |
| FastSpec.RowSelectedOrdered | core/src/gecv/alg/detect/corner/impl/GenerateFastCorner.java:162-288 | a row's corners are queued left to right |
| FastSpec.RowsSelectedOrdered | core/src/gecv/alg/detect/corner/impl/GenerateFastCorner.java:157-288 | the rows' corners are queued top to bottom |
| FastSpec.CornersInScanOrder | core/src/gecv/alg/detect/corner/impl/GenerateFastCorner.java:157-288 | after `process`, the queue is in strict row-major order, so no corner appears twice |
| FastSpec.RowAsWritten | core/src/gecv/alg/detect/corner/impl/GenerateFastCorner.java:160-162 | as generated, once a row's walk has passed column 3, the element of pixel (3, y) holds the score of the last pixel walked, x − 1: every pixel of the row writes to that one element |
| FastSpec.RowsAsWrittenLast | core/src/gecv/alg/detect/corner/impl/GenerateFastCorner.java:157-162 | as generated, after the walk of the rows before y, each walked row i has the score of its last interior pixel (W − 4, i) in element (3, i) |
| FastSpec.IntensityAsWrittenRows | core/src/gecv/alg/detect/corner/impl/GenerateFastCorner.java:157-162 | as generated, after the whole walk, element (3, y) of every interior row holds the score of pixel (W − 4, y) |
| FastSpec.RowAsWrittenKeeps | core/src/gecv/alg/detect/corner/impl/GenerateFastCorner.java:160-162 | as generated, a row's walk writes only the element of pixel (3, y) |
| FastSpec.RowsAsWrittenKeep | core/src/gecv/alg/detect/corner/impl/GenerateFastCorner.java:157-162 | as generated, no element outside column 3 is ever written |
| FastSpec.AsWrittenDiffers | core/src/gecv/alg/detect/corner/impl/GenerateFastCorner.java:160-162 | the generated walk's buffer differs from the per-pixel intensity image whenever pixel (4, 3)'s score differs from its old value |
| FastCorners.FastCorner12.constructor | core/src/gecv/alg/detect/corner/impl/GenerateFastCorner.java:112-119 | stores pixelTol and minCont; a zeroed intensity image of the image size; an empty queue with room for one row |
| FastCorners.FastCorner12.QuickTest | core/src/gecv/alg/detect/corner/impl/GenerateFastCorner.java:172-207 | the nested `if`s compute the quick test, including the wrapped threshold `center ± pixelTol` |
| FastCorners.FastCorner12.ForwardRun | core/src/gecv/alg/detect/corner/impl/GenerateFastCorner.java:227-235 | the forward counter loop ends at ForwardStop, and totalDiff grows by the run's differences |
| FastCorners.FastCorner12.BackwardRun | core/src/gecv/alg/detect/corner/impl/GenerateFastCorner.java:241-248 | the backward loop from 15 ends at BackwardStop, with the run's differences summed |
| FastCorners.FastCorner12.FindStart | core/src/gecv/alg/detect/corner/impl/GenerateFastCorner.java:259-265 | the start loop ends at FirstQualifying |
| FastCorners.FastCorner12.ScanWrap | core/src/gecv/alg/detect/corner/impl/GenerateFastCorner.java:221-254 | the wrap branch: corner iff frontLength ≥ minCont or 15 − i + frontLength ≥ minCont, with the differences of both runs summed |
| FastCorners.FastCorner12.ScanFirstRun | core/src/gecv/alg/detect/corner/impl/GenerateFastCorner.java:256-279 | the first-run branch: corner iff stop − start ≥ minCont, with the differences after start summed |
| FastCorners.FastCorner12.ScorePixel | core/src/gecv/alg/detect/corner/impl/GenerateFastCorner.java:165-280 | the body of the pixel loop yields the specification's verdict on the pixel's 16 unsigned samples (quick reject, then the branch the first sample selects) |
| FastCorners.FastCorner12.ScorePixelAt | core/src/gecv/alg/detect/corner/impl/GenerateFastCorner.java:165-280 | at an interior pixel the verdict gives that pixel's score and corner test, and a rejected pixel is never a corner |
| FastCorners.FastCorner12.StoreScore | core/src/gecv/alg/detect/corner/impl/GenerateFastCorner.java:282-291 | a rejected pixel (the store at lines 210-213) or a non-corner stores 0; a corner stores ∓totalDiff and is appended; the capacity is exactly doubled when the queue was full before that corner, and kept otherwise; nothing else in either changes |
| FastCorners.FastCorner12.Process | core/src/gecv/alg/detect/corner/impl/GenerateFastCorner.java:139-162 | `process` resets the queue; afterwards the intensity image holds every interior pixel's score, the rest is kept, and the queue holds exactly the corners in scan order |
| FastCorners.FastCorner12.ProcessRows | core/src/gecv/alg/detect/corner/impl/GenerateFastCorner.java:157-162 | the row loop paints rows 3 … H − 4 and queues their corners row by row |
| FastCorners.FastCorner12.ProcessRow | core/src/gecv/alg/detect/corner/impl/GenerateFastCorner.java:158-162 | one row's pixel loop paints columns 3 … W − 4 and appends that row's corners |
| FastCorners.FastCorner12.ProcessPixel | core/src/gecv/alg/detect/corner/impl/GenerateFastCorner.java:162-291 | one pixel advances the paint by one element and the queue by that pixel, if it is a corner; the capacity doubles exactly when a corner meets a full queue |

## Left out

- Code generation: the `PrintStream` output, `createFile`, `createAll`, the preamble string
  assembly and `main`. These are file I/O; the model is the emitted `ImageInt8` class and the
  emitted S16 Hessian routines.
- The `float` variants: `create_F32`, the F32 Hessian routines and the F32 convolution. These are
  floating-point numerics.
- The `int` to `float` store into `ImageFloat32`. Intensity images are arrays of exact integers.
  For FAST this is exact, because a score is within ±8160 (`TotalDiffBounded`). A Hessian
  determinant beyond 2^24 in magnitude would be rounded by Java's `float`; that rounding is not
  modelled.
- The Hessian's allocate-if-null branch. It allocates a local image that the `void` method never
  returns, so the model takes a destination array.
- `DiscretizedCircle.imageOffsets` is not part of this model. The circle is a parameter: 16
  offsets (dx, dy) with |dx|, |dy| ≤ 3, turned into element offsets dy·stride + dx.
- `QueueCorner`, `Kernel1D_I32`, `ImageInt8`, `ImageInt16` and `ImageFloat32` are not part of
  this model. The queue is a sequence plus a capacity. A kernel is a sequence of `int`s whose
  radius is width / 2. An image is a header `Geometry(width, height, stride, start)` beside its
  data array.
- The getters `getIntensity`, `getCandidates` and `getRadius`. They are the fields
  `featureIntensity`, `candidates` and the constant `Border` (3).
- Array-index exceptions. The preconditions exclude them:
  - every buffer's header must describe it;
  - a convolution destination must cover the source's extent (horizontal), or the source the
    destination's (vertical);
  - each Hessian buffer must cover the XX extent;
  - a FAST image must be no larger than the intensity image the detector was built for.
- Source and destination of a convolution must be distinct arrays. With aliasing, Java would read
  already-written outputs.
- FastCorners.FastCorner12.StoreScore: requires a non-zero capacity when it queues a corner,
  because doubling a zero capacity leaves the queue full. `Process` always meets this: a corner
  needs an image at least 7 wide, and the queue holds at least one intensity-image row.
- FastSpec.ClassifyThreeOfFour: stated for tolerances with |pixelTol| ≤ 2^31 − 256, where
  center ± pixelTol does not wrap. `Classify` and `QuickTest` compute the wrapped threshold for
  every tolerance.
- FastSpec.QuickTestComplete: stated for such moderate tolerances that are also non-negative.
- FastSpec.CandidateHasQualifyingSample: stated for moderate tolerances.
- FastSpec.CornerHasArc: stated for moderate tolerances, for minCont ≤ 16, and outside the
  precedence quirk, where it fails (`WrapQuirkFalseCorner`).
- FastSpec.RunSumSigned: stated for moderate non-negative tolerances, where a qualifying dark
  difference is negative and a bright one positive.
- FastSpec.CornerIntensityPositive: stated for moderate non-negative tolerances and
  minCont ≥ 2, outside the precedence quirk.
- FastCorners.FastCorner12.Process: models the evidently intended per-pixel store. The
  generated code's single element per row is modelled separately (see Findings).
- FastCorners.FastCorner12.Process: states the queue's final capacity only as at least its old
  capacity. The exact doubling is stated per corner by `StoreScore` and `ProcessPixel`.
- FastCorners.FastCorner12.ProcessRows: paints every interior pixel's own element, the corrected
  store; the generated row loop writes only column 3 of each row (see Findings).
- FastCorners.FastCorner12.ProcessRow: advances the intensity index with the image index, the
  corrected store; the generated code never advances it (see Findings).
- FastCorners.FastCorner12.ProcessPixel: is given the pixel's own intensity element, the
  corrected store; the generated code passes the element of pixel (3, y) (see Findings).
- FastSpec.IntensityImageAt: describes the corrected per-pixel store; the store as generated is
  `IntensityAsWritten` (see Findings).
- The context files are not modelled: `CornerDetectorGradient`, `WrapperNonMaxCandidate`, the
  geometry test and the image playback. They orchestrate code that is not in this model, or are
  unrelated to the kernels.

## Findings

| source | as written | input that shows it | evidently intended | confidence | as-written member | corrected member |
|---|---|---|---|---|---|---|
| core/src/gecv/alg/detect/corner/impl/GenerateFastCorner.java:160-162 | `intenIndex` is set to pixel (3, y) once per row and never advanced, so every pixel of the row writes its score into that one element; the rest of row y is never written | any image at least 8 wide and 7 high whose pixel (4, 3) has a score different from the old intensity value at (4, 3) (for example, a corner at (4, 3) over a zeroed intensity image) | `intenIndex` advances with `index`, so each interior pixel's score lands in its own element | not executed | FastSpec.AsWrittenDiffers | FastCorners.FastCorner12.Process |
