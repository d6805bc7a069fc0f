# Multi-channel volume viewer: histogram and segmentation-mask core

A Dafny model of the two pieces of real logic in the multi-channel OSPRay
viewer:

- **`Histogram::makeImage`** builds a 32 x 32 joint histogram of two voxel
  channels. It scans each channel for its minimum and maximum. It bins every
  sample pair with `floor((v - min) / ((max - min) / 32))`, clamped to 31.
  It counts visits per bin. It tone-maps each count to RGBA: grey when the
  intensity `count / 1000 * 255` truncates to 0, else a red/blue blend.
  Module `Histogram`.
- **The segmentation panel of `GLFWOSPWindow::buildUI`** edits two parallel
  flat RGBA rasters, the mask (`segImage`) and the output (`image`). It has
  a focus pass (alpha 255 where the mask has the active colour, 0
  elsewhere), a right-click re-focus, a region recolour, a disc-shaped brush, and the click handler that picks
  between them. Module `SegMask`, on the raster helpers of module `Pixels`.
  The frame-counted blink that follows a focus click is module `Blinking`.
  The rebuilt list of channels to render is module `Attributes`.

Samples are `real`, counts are `nat`, bytes are the subset type
`Pixels.Byte`, and colours are byte triples. The rasters are immutable
`seq<Byte>` values, and every operation is a pure function.

Where the code and the design description disagree, the model follows the
code:

- A grey histogram bin keeps its previous alpha byte; only coloured bins
  write alpha 255. `MakeImage` therefore takes the previous histogram.
- A degenerate channel range (max == min) is not guarded. The code divides
  by zero, so `MakeImage` requires non-degenerate ranges whenever there is a
  sample to bin.
- The tone-map ceiling is the constant 1000, not a parameter. The scanned
  maximum count is overwritten before use.
- The colour edit of the active segment recolours the mask as well as the
  output.
- The blink counter counts up from 0 to the duration 10. The end-of-blink
  check sits inside the segmentation panel, which is drawn only in blend
  mode 5 with its tree node open, while the tick runs on every frame. So the
  counter can pass 10, and the restore then waits for the next drawn frame.

`MakeImage` takes the range seeds as an explicit `Seeds` value, and every
property about it holds for any finite seeds. `SourceSeeds` gives the seeds as
written, with an arbitrary value for the uninitialised one. `OwnSeeds` gives
the corrected seeds. The click handler uses the corrected clamps
(`ClickPixel`, `BrushPixel`) and the right-click re-focus without its stale
guard (`Refocus`). See "## Findings".

## Model

| member | source | states |
|---|---|---|
| Pixels.PixelIndexBound | examples/multivariant.cpp:652-653 | For x < width, y < height and k < 4, `y*width*4 + x*4` is `(y*width + x)*4` and `y*width*4 + x*4 + k` lies in `[0, width*height*4)` |
| Histogram.ScanRange | examples/Histogram.cpp:27-32 | After the min/max scan the lower bound is at most every scanned sample and at most its seed, the upper bound at least every sample and its seed, whatever the seeds; each bound is its seed or a sample |
| Histogram.ChannelRanges | examples/Histogram.cpp:23-32 | Both channel ranges bound every one of the first `voxels[0].size()` samples of their channel |
| Histogram.OwnSeedsTight | examples/Histogram.cpp:23-32 | With the corrected seeds each bound of each range is attained by one of the scanned samples |
| Histogram.BinIndex | examples/Histogram.cpp:37-44 | For a non-degenerate range containing v, the truncated, clamped bin index lies in `[0, size)` |
| Histogram.BinInterval | examples/Histogram.cpp:37-40 | Bin b contains v: `lo + b*step <= v`, and `v < lo + (b+1)*step` unless b is the last bin |
| Histogram.BinMonotone | examples/Histogram.cpp:37-44 | A larger sample never gets a smaller bin index |
| Histogram.MaximumNeedsClamp | examples/Histogram.cpp:43-44 | The range maximum truncates to exactly `size`, one past the grid, and the clamp maps it to `size - 1` |
| Histogram.SampleBin | examples/Histogram.cpp:35-44 | Every sample pair's cell (row from channel 1, column from channel 0) lies inside the 32 x 32 grid, so every increment is in bounds |
| Histogram.Increment | examples/Histogram.cpp:45 | One increment raises exactly one cell by 1, leaves the others, and raises the grid total by 1 |
| Histogram.CountSamples | examples/Histogram.cpp:34-47 | Each cell holds the number of sample pairs binned into it, and the cells sum to the number of samples: each sample is counted exactly once |
| Histogram.EverySampleCountedOnce | examples/Histogram.cpp:34-47 | The per-cell hit counts of a rebuild add up to `voxels[0].size()` |
| Histogram.Intensity | examples/Histogram.cpp:62 | The intensity `min(count/1000*255, 255)`, truncated, lies in `[0, 255]` |
| Histogram.IntensityFormula | examples/Histogram.cpp:57-62 | The intensity equals the integer `min(count*255/1000, 255)`; the ceiling is 1000, not the observed maximum |
| Histogram.IntensityZeroIff | examples/Histogram.cpp:62-63 | The intensity is 0 exactly when the count is below 4, so near-empty bins are grey too |
| Histogram.IntensityFullIff | examples/Histogram.cpp:57-62 | The intensity is 255 exactly when the count is at least 1000 |
| Histogram.IntensityMonotone | examples/Histogram.cpp:62 | A larger count never gives a lower intensity |
| Histogram.ToneMap | examples/Histogram.cpp:62-72 | Fewer than 4 visits give RGB (100,100,100) with the alpha byte untouched; otherwise (c, 0, 255-c, 255) with c the intensity, so red + blue = 255 |
| Histogram.MakeImage | examples/Histogram.cpp:4-82 | The rebuilt image is 32 x 32; each cell is grey with the previous alpha when its hit count is below 4, else (c, 0, 255-c, 255) for its count; the stored channel indices equal the arguments |
| Histogram.SourceSeedsShiftBins | examples/Histogram.cpp:24-25 | As written, channels [5,6] and [0,1] give channel 0 the range [0,6], and its minimum sample lands in column 26 instead of 0 |
| Histogram.OwnSeedsSpanGrid | examples/Histogram.cpp:24-25 | With the corrected seeds a channel's minimum sample lands in bin 0, its maximum in bin 31, and some sample lands in bin 0 |
| Blinking.Frame | examples/multivariant.cpp:471-812 | A frame keeps the state consistent (idle with counter 0, or blinking with counter >= 1), and a frame that draws the panel brings the counter back to at most 10; it restores exactly when the panel is drawn and a blink is running with counter >= 10, and after a restore the window is idle unless the same frame's click starts a new blink; a running blink that does not end advances its counter by exactly one, drawn or not; a blink starts exactly on a left click with paint mode off in a drawn frame that finds no blink running after the check (from idle or just restored), standing at 1 after the frame's tick; an idle window without such a click is unchanged |
| Blinking.ClickDuringBlinkIgnored | examples/multivariant.cpp:594 | While a blink is running and not yet due, a click changes nothing |
| Blinking.RunAppend | examples/multivariant.cpp:471-812 | Splitting a run of frames anywhere, the restores add up and the second part starts from the state the first part ends in |
| Blinking.IdleStaysIdle | examples/multivariant.cpp:562-570 | Without focus clicks an idle window never restores and stays idle, whether or not the panel is drawn |
| Blinking.BlinkRestoresOnce | examples/multivariant.cpp:562-570 | A running blink left for k drawn frames without clicks restores exactly once if k exceeds the frames it has left (on the first drawn frame if its counter is already >= 10), and is then idle; otherwise it stands at counter + k |
| Blinking.HiddenDelaysRestore | examples/multivariant.cpp:471-812 | While the panel is not drawn a running blink never restores and its counter rises by one per frame, past 10 if need be |
| Blinking.ClickThenWait | examples/multivariant.cpp:594-596 | From idle, a focus click followed by k drawn quiet frames restores once if k >= 10 and never otherwise |
| Blinking.ClickHideThenShow | examples/multivariant.cpp:471-812 | From idle, a focus click and k hidden frames leave the counter at k + 1 with no restore; the next drawn frame restores exactly when k + 1 >= 10 |
| SegMask.FocusUpTo | examples/multivariant.cpp:597-610 | After the first m pixels are processed, their alpha is 255/0 by mask-colour match and nothing else has changed |
| SegMask.Focus | examples/multivariant.cpp:597-610 | Every output alpha is 255 iff the pixel's mask RGB equals the active colour and 0 otherwise; output RGB and the whole mask are unchanged |
| SegMask.FocusIdempotent | examples/multivariant.cpp:597-610 | Focusing twice on the same colour equals focusing once |
| SegMask.RefocusAsWritten | examples/multivariant.cpp:619-639 | As written, a right click leaves the output as it is when the focus colour equals the active colour and otherwise runs exactly the focus pass on the active colour; afterwards focus == active and the mask is unchanged |
| SegMask.StaleGuardLeavesUnfocused | examples/multivariant.cpp:619-622 | As written, a 1 x 1 mask of colour (1,2,3) whose output alpha was restored to 7, with focus == active == (1,2,3), is left unchanged by a right click and stays unfocused |
| SegMask.Refocus | examples/multivariant.cpp:619-639 | Corrected re-focus: the output keeps its size and every RGB, every alpha becomes 255 iff the pixel's mask colour is the active colour and 0 iff it is not, focus becomes active, and the mask is unchanged |
| SegMask.RefocusEstablishesFocus | examples/multivariant.cpp:619-639 | From any alpha state, the output is focused on the focus colour after a right click |
| SegMask.RefocusAgreesWhenGuardSound | examples/multivariant.cpp:619-639 | Whenever the output is already focused on the focus colour in the case the guard skips, the corrected and the as-written re-focus agree |
| SegMask.RefocusIdempotent | examples/multivariant.cpp:619-639 | A second right click with the same active colour changes nothing |
| SegMask.RecolorUpTo | examples/multivariant.cpp:670-684 | Among the first m pixels, those with mask colour `from` get `to` in mask and output; all other pixels and all alpha bytes are unchanged |
| SegMask.Recolor | examples/multivariant.cpp:669-686 | Every pixel whose mask RGB is the active colour gets the new RGB in both rasters, all other pixels and all alpha bytes are unchanged, and the active colour becomes the new colour |
| SegMask.RecolorIdempotent | examples/multivariant.cpp:670-684 | Repeating a recolour with the same colours changes nothing more |
| SegMask.RecolorMovesRegion | examples/multivariant.cpp:669-686 | After recolouring to a different colour no mask pixel has the old colour, and a pixel has the new colour iff it had the old or the new one |
| SegMask.Clamp | examples/multivariant.cpp:650-651 | The clamped value lies in `[lo, hi]`; it equals the input when the input already does, is `lo` for inputs below `lo` and `hi` for inputs above `hi` |
| SegMask.BrushPixel | examples/multivariant.cpp:650-653 | Corrected clamp: the pixel every brush offset writes lies inside the image |
| SegMask.PaintColumn | examples/multivariant.cpp:649-660 | The inner loop paints the RGB of exactly the pixels hit by disc offsets of its column and writes no alpha |
| SegMask.PaintColumns | examples/multivariant.cpp:648-661 | The outer loop paints the RGB of exactly the pixels hit by disc offsets of the processed columns and writes no alpha |
| SegMask.Paint | examples/multivariant.cpp:648-661 | In both rasters a pixel's RGB becomes the paint colour iff some offset (i,j) in [0,2r)^2 with (i-r)^2+(j-r)^2 < r^2 targets it; every other RGB and every alpha byte is unchanged |
| SegMask.PaintIdempotent | examples/multivariant.cpp:648-661 | Stamping the same brush twice equals stamping once |
| SegMask.CursorCovered | examples/multivariant.cpp:650-655 | The centre offset (r, r) of a brush of radius >= 1 covers the same pixel a click at the brush position reads |
| SegMask.PaintCoversCursor | examples/multivariant.cpp:648-661 | A brush of radius >= 1 paints, in the mask and the output image, the pixel a click at the same position would pick as active colour |
| SegMask.DiscExcludesCorners | examples/multivariant.cpp:648-655 | The brush is a disc, not its bounding box: the corner offset (0, 0) is never painted, the centre offset (r, r) always is |
| SegMask.ClickPixel | examples/multivariant.cpp:575-577 | Corrected clamp: the pixel read under the cursor lies inside the image |
| SegMask.Click | examples/multivariant.cpp:573-667 | For a press with a button down: the active colour becomes the mask colour under the cursor and no session field other than the active and focus colours changes; only a paint click changes the mask; only a focus click changes the blink state, starting it at 0, setting focus == active, keeping every RGB and making the alpha 255 exactly on the pixels of the clicked colour and 0 on all others, the clicked pixel included; otherwise a right click in focus mode re-focuses and leaves the output focused on the clicked colour, a left click in paint mode stamps the brush of the session's radius and colour at the cursor, and any other press (such as a left click during a blink with paint mode off) changes no image, no focus and no blink |
| SegMask.ClickAgreesWithFrame | examples/multivariant.cpp:562-596 | A click taken after the frame's blink check, followed by the tick, gives the blink state `Blinking.Frame` gives a drawn frame whose focus click is a left click with paint mode off |
| SegMask.PaintAsWrittenOverruns | examples/multivariant.cpp:650-653 | As written, a radius-5 stamp at the top edge of a 100 x 100 mask writes byte 40200 of a 40000-byte raster; column `width` wraps to the next row |
| SegMask.ClickAsWrittenOverruns | examples/multivariant.cpp:575-577 | As written, a cursor on the top edge reads at or past the end of the raster for every image size |
| SegMask.ClampedIndicesInBounds | examples/multivariant.cpp:577 | With the corrected clamps every byte the brush writes and the click reads is inside the raster |
| Attributes.RenderAttributes | examples/multivariant.cpp:403-407 | The rebuilt list is strictly ascending, holds i iff i < n and channel i is selected, and has one entry per selected channel |
| Attributes.AllSelected | examples/multivariant.cpp:403-407 | With every channel selected the list is 0, 1, ..., n-1 |
| Attributes.ToggleOnlyAffectsChannel | examples/multivariant.cpp:403-407 | Toggling channel c's box changes only c's membership in the list |

## Left out

- Image I/O and the mask store's own methods: `loadImage`, `loadDistImage`, `applyDistAsAlpha`, `setOutputImageFromSegImage`, `getSegColWithAlphaModifier`, `colorSegIDMap`, `writeImage` and `recreateImageTexture`. Their class is not part of this model. The blink's alpha restore is reported by `Blinking.Frame` as a flag, not performed.
- The "set segment of this color invisible" check box (multivariant.cpp:696-719). It only calls `setOutputImageFromSegImage`, which is outside the model. The `colImage` colour it reads is left out with it.
- The "reset image" button and the focus-mode check box's restore (multivariant.cpp:553-560, 723-729). Both only reload or restore through the store's I/O methods.
- Blinking.Frame: the blink counter is an unbounded integer. In the source it is a C `int` (multivariant.cpp:130), which would overflow after about 2^31 frames with the panel hidden during a blink; that overflow is not modelled.
- The float mapping from the mouse to the mask pixel (multivariant.cpp:574-576). `SegMask.Mouse` carries the truncated integer coordinates, already clamped to `[0, width]` x `[0, height]`.
- The float colour round trip (`x/255.f` then `int(x*255)`). Colours are byte triples.
- IEEE float behaviour of the histogram: rounding of the bin quotient, and float counts that stop being exact above 2^24 visits. Samples are reals and counts naturals.
- Histogram.SourceSeeds: the never-initialised `range1[1]` (Histogram.cpp:25) is modelled as an arbitrary finite real. A NaN there survives the max scan and makes every channel-1 bin a NaN-to-unsigned conversion, which is undefined; an infinity makes the step infinite and puts every sample in row 0. Neither is modelled.
- The maximum-count scan (Histogram.cpp:49-55). It is overwritten by the constant 1000 before use and has no effect.
- `Histogram::createImageTexture`, and all OpenGL, GLFW, ImGui, OSPRay and renderer-parameter code.
- The weight update through `tan`, the ratio line geometry, the disabled opacity-function branch, the voxel generator, the renderer plugin and the material marshalling.

## Findings

| source | as written | input that shows it | evidently intended | confidence | as-written member | corrected member |
|---|---|---|---|---|---|---|
| examples/multivariant.cpp:650-653 | brush targets are clamped to `[0, width]` and `[0, height]`, inclusive | 100 x 100 mask, radius 5, cursor (50, 100), offset (5, 9): write at byte 40200 of a 40000-byte raster | clamp to `width - 1` and `height - 1` | high; not executed | SegMask.PaintAsWrittenOverruns | SegMask.BrushPixel |
| examples/multivariant.cpp:575-577 | the flipped row `height - clamp(y, 0, height)` can be `height` | cursor on the top edge of the mask view: row `height`, read at byte `width*height*4` or later | clamp to `height - 1` (and `width - 1`) | low; not executed | SegMask.ClickAsWrittenOverruns | SegMask.ClickPixel |
| examples/multivariant.cpp:619-622 | the right-click pass is skipped when the remembered focus colour equals the active one, but the blink's alpha restore (:566) and unticking focus mode (:555) reset the alpha without forgetting that colour | focus click on colour c, wait for the blink to end, right-click c again: alpha stays restored; as a 1 x 1 mask (1,2,3) with alpha 7 | a right click in focus mode always focuses the output on the active colour | medium; not executed | SegMask.StaleGuardLeavesUnfocused | SegMask.Refocus |
| examples/Histogram.cpp:24-25 | `range0[0]` is reseeded from channel `ch_index_1` and `range1[1]` is never initialised | channel 0 = [5, 6], channel 1 = [0, 1]: channel 0's range is [0, 6] and its minimum lands in column 26 | seed each range from its own channel's first sample | high; not executed | Histogram.SourceSeedsShiftBins | Histogram.OwnSeedsSpanGrid |
