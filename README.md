# N-dimensional windowed-neighbourhood engine of dip-nd-benchmark, in Dafny

This project models the core that the benchmark's SYCL and VisionGL back-ends run over
N-dimensional 8-bit images. It covers these parts:

- **Per-element kernels.** Invert (`255 - x`) and threshold (`x > t ? max : 0`) each write
  exactly one output slot per work item.
- **The window overlay `WindowKernel::map`.** It takes a flat index and splits it into
  per-axis coordinates by walking the stride table from the outermost axis down to axis 1.
  It shifts those coordinates by `(shape[d] - 1) / 2`, the half-width rounded down. Then it lays every nonzero
  window weight over the image. Window axes are clamped into the image. Axes above the
  window's own dimension count keep the centre. Each visit is reported as an
  `(image_index, window_index)` pair.
- **Erosion.** A running minimum, starting from 255, over the samples the overlay visits.
- **The separable ("split") controllers.** These run N one-dimensional passes, one per
  axis. Buffer roles alternate: input to aux, then output to aux for odd passes and aux to
  output for even passes. When N is odd, a fix-up copy follows.
- **Per-axis windows.** The shape loop builds, for each axis i, a 3 × 1 × … window
  along axis i.

Conventions of the model:

- Images are `seq<uint8>` (or `array<uint8>` where the code writes in place).
- Shapes and strides are `seq<int>` in VisionGL's layout. Entry 0 is the channel stride,
  axis 1 is the innermost axis, and `offset[d] * shape[d] == offset[d + 1]`.
- A `parallel_for` over independent items is a sequential `for` loop. Its work items read
  one buffer and write one slot of another, so their order does not matter.
- The `map` visitor callback is modelled as the list of `Tap(imageIndex, windowIndex)`
  visits it would receive, in order.
- Every stride is positive and every extent is at least 1, so all divisions are on
  non-negative operands. There, C's truncating `/` agrees with Dafny's.

The modules are:

- `Layout`: the image and window records, stride predicates, `Clamp` and `Min`.
- `StrideIndexer`: index ↔ coordinates, with both round trips.
- `WindowOverlay`: `map` as a method, and the specification of its visits.
- `Kernels`: invert, threshold and erode, per item and over a whole image.
- `Separable`: the ping-pong, generic over the pass, and the two fix-ups.
- `AxisWindows`: the per-axis window construction, and what an axis window reaches.
- `Scenarios`: concrete one-dimensional cases.
- `CubeSplit`: the N axis passes give the same image as one erosion with the cube window.

The code tests `dimensions & 1`, so the fix-up copy also runs for N = 1, as for every
other odd N (sycl/src/benchmark.cpp:256-257, visiongl/src/benchmark.cpp:83-84).

## Model

| member | source | states |
|---|---|---|
| Layout.Clamp | sycl/src/benchmark.cpp:98 | the clamped coordinate lies in `[lo, hi]`: it is `lo` below the range, `hi` above it, and the input itself inside it |
| Layout.Min | sycl/src/benchmark.cpp:118 | `min` is at most both arguments and is one of them |
| StrideIndexer.DecomposeReconstructs | sycl/src/benchmark.cpp:72-80 | index → coordinates → index: the coordinates recombine with the strides to the index minus a remainder in `[0, offset[1])` |
| StrideIndexer.CoordsInRange | sycl/src/benchmark.cpp:75-80 | every coordinate of an index below the image size lies in `[0, shape[d])` |
| StrideIndexer.LinearDecomposes | sycl/src/benchmark.cpp:93-101 | coordinates → index → coordinates: splitting the recombination of in-range coordinates gives them back, and gives back the channel remainder |
| StrideIndexer.LinearInBounds | sycl/src/benchmark.cpp:100 | in-range coordinates recombine to an index inside the image |
| WindowOverlay.ShiftedCentre | sycl/src/benchmark.cpp:75-80 | the first loop fills `image_coord[d]` with the centre's coordinate on axis d minus `(window.shape[d] - 1) / 2` |
| WindowOverlay.OverlayIndex | sycl/src/benchmark.cpp:87-101 | the per-weight loop nest computes the image index of window index k: outer axes at the shifted centre, window axes clamped |
| WindowOverlay.Map | sycl/src/benchmark.cpp:67-105 | `map` reports exactly the visit list `Taps`: one visit per nonzero weight, in window-index order |
| WindowOverlay.TapsUpToSound | sycl/src/benchmark.cpp:83-85 | every visit is of a nonzero weight and carries that weight's own image index, and window indices strictly increase |
| WindowOverlay.TapsUpToComplete | sycl/src/benchmark.cpp:83-85 | every nonzero weight is visited |
| WindowOverlay.VisitsActiveTapsInOrder | sycl/src/benchmark.cpp:83-104 | window index k is visited iff its weight is nonzero (both directions), each visit once and in increasing order, with the right image index |
| WindowOverlay.NoActiveNoTaps | sycl/src/benchmark.cpp:84-85 | a window whose weights are all zero makes no visit |
| WindowOverlay.TapCoordsInRange | sycl/src/benchmark.cpp:90-98 | with the centre inside the image, every tap coordinate is inside the image on every axis (clamped axes, and outer axes where the window has extent 1 or 2) |
| WindowOverlay.TapIndexInBounds | sycl/src/benchmark.cpp:90-101 | every image index the overlay computes lies in `[0, size)` |
| WindowOverlay.TapsInBounds | sycl/src/benchmark.cpp:103 | every image index passed to the visitor lies in `[0, size)` |
| WindowOverlay.CentreTapCoord | sycl/src/benchmark.cpp:79-98 | the window index whose digit on axis d is the half-width lands on the centre's own coordinate on axis d |
| WindowOverlay.CentreTapIsCentre | sycl/src/benchmark.cpp:75-101 | the window's centre cell maps back to the centre index (up to the channel remainder) |
| Kernels.Invert | sycl/src/benchmark.cpp:32 | the inverted sample and the sample sum to 255 |
| Kernels.InvertInvolutive | src/sycl/benchmark.cpp:33 | inverting a sample twice gives it back |
| Kernels.InvertImageInvolutive | src/sycl/benchmark.cpp:31-34 | inverting a whole image twice gives it back |
| Kernels.InvertKernel | sycl/src/benchmark.cpp:29-33 | one work item writes `255 - input[index]` to `output[index]` and changes nothing else |
| Kernels.InvertAll | sycl/src/benchmark.cpp:243 | the dispatch over every item leaves output equal to the inverted input |
| Kernels.Threshold | sycl/src/benchmark.cpp:49-53 | the result is 0 or the high value, and (for a nonzero high value) it is the high value exactly when the sample exceeds the threshold |
| Kernels.ThresholdDefaults | src/sycl/benchmark.cpp:43 | the default threshold is 127 and the default high value 255, so a sample becomes 255 iff it exceeds 127 |
| Kernels.ThresholdKernel | sycl/src/benchmark.cpp:49-53 | one work item writes the thresholded sample to `output[index]` only |
| Kernels.ThresholdAll | sycl/src/benchmark.cpp:244 | the dispatch leaves output equal to the thresholded input |
| Kernels.MinSample | sycl/src/benchmark.cpp:115-119 | the running minimum from 255 is at most every visited sample, is one of them or 255, and is 255 with no visit |
| Kernels.ErodeKernel | sycl/src/benchmark.cpp:112-122 | one work item writes the minimum over the overlay's visits to `output[index]` and changes nothing else |
| Kernels.ErodeAll | sycl/src/benchmark.cpp:245-246 | the dispatch leaves output equal to the eroded input |
| Kernels.ErodeBelowReached | sycl.cpp:92-111 | the eroded value is at most every sample reached through a nonzero weight |
| Kernels.ErodeIsReached | sycl.cpp:92-111 | when some weight is nonzero, the eroded value is one of the samples reached through a nonzero weight |
| Kernels.ErodeIsMinimum | sycl/src/benchmark.cpp:112-122 | erosion is the minimum over the reached samples: a lower bound on all of them, attained by one, and 255 for an all-zero window |
| Kernels.ErodeConstant | src/sycl/benchmark.cpp:104-113 | a constant image erodes to itself when the window has a nonzero weight |
| Separable.PassDest | sycl/src/benchmark.cpp:250-255 | no pass writes the input buffer |
| Separable.PassSource | sycl/src/benchmark.cpp:250-255 | pass i never reads the buffer it writes, and every pass after the first reads what the previous pass wrote |
| Separable.SplitState | sycl/src/benchmark.cpp:250-255 | the passes never write the input buffer |
| Separable.SplitChain | sycl/src/benchmark.cpp:250-255 | after i passes, the buffer pass i wrote holds passes 1..i composed over the input, for any pass |
| Separable.VglSplitDelivers | visiongl/src/benchmark.cpp:75-86 | with the aux → output fix-up, output holds all N passes composed over the input for every N ≥ 1, and the input is untouched |
| Separable.SyclSplitResult | sycl/src/benchmark.cpp:247-260 | with `memcpy(aux, output)`, output holds the full chain only for even N; for odd N aux and output both hold output's pre-copy contents (N - 1 passes, or the initial output for N = 1) |
| Separable.SyclFixupLosesResult | sycl/src/benchmark.cpp:256-257 | on `[10, 200, 10]` with N = 1, the eroded line is `[10, 10, 10]` but the SYCL output ends `[0, 0, 0]` |
| Separable.ErodePassesChain | sycl/src/benchmark.cpp:250-255 | chaining the erosion passes equals eroding with windows 1, 2, …, N in turn |
| Separable.Memcpy | visiongl/src/benchmark.cpp:83-84 | the whole-buffer copy leaves the destination equal to the source |
| Separable.Pass | sycl/src/benchmark.cpp:250-255 | pass i erodes its source buffer into its destination buffer with window i, and changes nothing else |
| Separable.Passes | sycl/src/benchmark.cpp:250-255 | the N passes leave the buffers in `SplitState` after N passes |
| Separable.SplitErode | visiongl/src/benchmark.cpp:75-86 | the split erosion with the VisionGL fix-up: output ends equal to the N-fold chained erosion of the input (which `CubeSplit.SplitErodeIsCubeErode` equates with the cube erosion) |
| Separable.SplitErodeSycl | sycl/src/benchmark.cpp:247-260 | the split erosion as the SYCL back-end writes it: the buffers end in the SYCL fix-up state |
| AxisWindows.AxisShapes | visiongl/src/benchmark.cpp:25-39 | the shape loop yields, for each axis i in 1..N, a table of the fixed array length that is 3 on axis i and 1 elsewhere |
| AxisWindows.AxisWindowBytes | sycl/src/benchmark.cpp:201-209 | the SYCL axis window holds 12 floats, the first 3 the copied weights and the other 9 unset, and its size is 12 |
| AxisWindows.AxisWindowBytesOverreads | sycl/src/benchmark.cpp:83-85 | over that window the tap loop visits the 3 weights and, for k in 3..11, visits index k exactly when unset float k - 3 is nonzero; each such visit bounds the eroded value |
| AxisWindows.AxisWindowBytesChangesErosion | sycl/src/benchmark.cpp:201-209 | on the line `[200, 200, 10]` with the first unset float 1, the 12-float window erodes sample 0 to at most 10, the 3-weight window to 200 |
| AxisWindows.AxisStrides | visiongl/src/benchmark.cpp:33-34 | an axis-i shape has stride 1 up to axis i and 3 above it |
| AxisWindows.AxisWindowFits | visiongl/src/benchmark.cpp:32-36 | an axis window of 3 weights fits the image, has no shift on the other axes, and has exactly 3 cells |
| AxisWindows.AxisWindowTaps | sycl/src/benchmark.cpp:250-255 | window index k of the axis-i window reaches `clamp(c[i] + k - 1)` on axis i and the centre's own coordinate on every other axis |
| AxisWindows.AxisErodeIsLineMin | sycl/src/benchmark.cpp:250-255 | one cube pass along axis i gives each sample the minimum of its three neighbours (-1, 0, +1, clamped) along axis i |
| Scenarios.Line3TapIndex | sycl/src/benchmark.cpp:93-101 | on a 3-sample line with the 3-tap window, window index k reaches `clamp(i + k - 1, 0, 2)` |
| Scenarios.Line3Taps | sycl/src/benchmark.cpp:83-104 | the visits from sample i are window indices 0, 1, 2 at `i - 1`, `i`, `i + 1` clamped |
| Scenarios.ErodeLineScenario | sycl/src/benchmark.cpp:112-122 | eroding `[10, 200, 10]` with `[1, 1, 1]` gives `[10, 10, 10]` |
| Scenarios.ErodeLineAt | sycl/src/benchmark.cpp:112-122 | each sample of that erosion is 10 |
| Scenarios.MinOfThree | sycl/src/benchmark.cpp:115-119 | the running minimum over three visits is the nested minimum of the three samples |
| Scenarios.InvertScenario | sycl/src/benchmark.cpp:32 | inverting `[0, 255, 128]` gives `[255, 0, 127]` |
| CubeSplit.TapIndexCoords | sycl/src/benchmark.cpp:93-101 | the image index of a tap splits back into the tap's coordinates, with channel part 0 |
| CubeSplit.AxisPassBoxMin | sycl/src/benchmark.cpp:250-255 | a pass along axis j turns per-sample minima over boxes of axes 1..j-1 into minima over boxes of axes 1..j |
| CubeSplit.ChainBoxMin | sycl/src/benchmark.cpp:249-255 | after m axis passes each sample is the minimum of the clamped 3-wide box on axes 1..m around it |
| CubeSplit.CubeReachesNear | sycl/src/benchmark.cpp:83-101 | every point of the clamped 3 × … × 3 box around the centre is reached by some index of the cube window |
| CubeSplit.CubeTapNear | sycl/src/benchmark.cpp:83-101 | every index of the cube window reaches a point of that box |
| CubeSplit.CubeBoxMin | sycl/src/benchmark.cpp:246 | one erosion with the cube window gives each sample the minimum of its full box |
| CubeSplit.SplitErodeIsCubeErode | sycl/src/benchmark.cpp:246-255 | the N axis passes (split-erode-cube) give exactly the image one cube erosion (erode-cube) gives |
| Scenarios.ThresholdScenario | sycl/src/benchmark.cpp:244 | threshold 128 with high value 255 maps `[0, 128, 200]` to `[0, 0, 255]` |

## Left out

- Convolution (`ConvolveKernel`, `vglClNdConvolution`) uses floating point and is not
  modelled. The split-convolve controllers share the ping-pong: `Separable.SplitState`,
  `Chain`, `SplitChain`, `VglSplitDelivers` and `SyclSplitResult` hold for any pass
  function, so they cover the split-convolve buffer order. The convolution arithmetic
  itself is not covered.
- Copy, upload and download are plain device transfers and are not modelled. The fix-up
  copy is `Separable.Memcpy`.
- The SYCL queue, device allocation and concurrent execution of `parallel_for` are not
  modelled. Work items are independent, so a sequential loop stands for the dispatch.
- The VisionGL library (`vglClNdErode`, `vglClNdNot`, `vglClNdThreshold`, `vglClNdCopy`)
  is not part of this model. Its erosion passes are modelled by the same erosion kernel,
  and its copy by `Memcpy`.
- `VglShape`'s stride computation is not part of this model. Strides are inputs that
  satisfy the nesting predicate `NestedStrides`.
- `ires` is a 32-bit `int` and `image_index` a `size_t` in the source
  (sycl/src/benchmark.cpp:72, 82). Overflow of `ires` for images of 2^31 or more samples is
  not modelled, because the model's integers are unbounded.
- Window weights are `float` in the source and `real` in the model. Only the test
  `weight != 0` matters for erosion.
- The model takes `Window.size` to be the number of weights. The SYCL set-up passes a
  byte count; this is listed under Findings, and `AxisWindows.AxisWindowBytesOverreads`
  models it as written.
- Windows of fewer axes than the image are modelled only when they have extent 1 or 2 on
  the image's extra axes (`Broadcasts`, zero centring shift there). With a larger extent
  the source keeps the shifted centre unclamped on those axes and can compute an index
  outside the image (sycl/src/benchmark.cpp:90-91). No back-end builds such a window: every
  window gets the image's own dimension count (sycl/src/benchmark.cpp:189-191, 223).
- CubeSplit.SplitErodeIsCubeErode: the tap index carries no channel part, so on a
  multi-channel layout both sides read channel 0; the theorem covers that case as the
  code computes it, not a per-channel erosion.
- An image with 0 dimensions is excluded (`ValidLayout` requires at least one axis). The
  split controllers would otherwise use entry 1 of a per-axis array the shape loop never
  filled: the unset pointer `window_cube_array_d[1]` in sycl/src/benchmark.cpp:204, 250,
  the unset `strel_cube_array[1]` in visiongl/src/benchmark.cpp:22, 77, and a
  default-constructed window of size 0 in `window_cube_array` at
  src/sycl/benchmark.cpp:179, 263.
- Setup defects outside the engine are not modelled:
  - `sycl.cpp:135-136` copies the shape table into the offset buffer and the offset table
    into the shape buffer.
  - `sycl.cpp:147-155` copies float weights into a `uint8_t` buffer.
  - `src/sycl/benchmark.cpp:235` passes host addresses (`&input`) to device kernels.
- Timing, the command line, image loading and saving, and plotting are not modelled.

## Findings

| source | as written | input that shows it | evidently intended | confidence | as-written member | corrected member |
|---|---|---|---|---|---|---|
| sycl/src/benchmark.cpp:256-257 | for odd N the fix-up is `memcpy(d_aux_data, d_output_data, size)`: destination first, so output is copied into aux and output never receives the last pass (the same code appears at sycl/src/benchmark.cpp:277-278 and src/sycl/benchmark.cpp:267 and 285) | N = 1, input `[10, 200, 10]`, 3-tap cube window, output initially `[0, 0, 0]`: output ends `[0, 0, 0]`, the erosion is `[10, 10, 10]`. In the benchmark output still holds the preceding erode-cube result, which for N = 1 would equal the intended one (`CubeSplit.SplitErodeIsCubeErode`) only if window sizes were weight counts (see the next row); for N = 3 output keeps two passes only | copy aux into output, as the VisionGL back-end does with `vglClNdCopy(tmp, output)` | not executed | Separable.SyclFixupLosesResult | Separable.VglSplitDelivers |
| sycl/src/benchmark.cpp:201-209 | each axis window gets size `3 * sizeof(float)` = 12, a byte count; the device buffer is allocated as 12 floats but only 3 are copied in, and `map` loops `window_index` over all 12 (the full windows at sycl/src/benchmark.cpp:175-185 and src/sycl/benchmark.cpp:161 are built the same way) | any axis window: the 9 unset floats of the 12-float allocation decide whether window indices 3..11 are visited, and each one visited lowers the erosion to at most the sample it reaches; on the line `[200, 200, 10]` with the first unset float 1, sample 0 erodes to at most 10 instead of 200 | size = number of weights, as `sycl.cpp:145` does | not executed | AxisWindows.AxisWindowBytesChangesErosion | AxisWindows.AxisWindowFits |
