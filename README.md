# Integer segmentation pipeline of the FPGA brain-tumour segmenter

This project models, in Dafny, the integer core of the FPGA brain-tumour
segmentation system. All images are 256 x 256 grey-level images of 65536
bytes, stored row-major. The modelled code is:

- **HLS accelerator** (`otsu_threshold.cpp`, `image_stats.cpp`):
  - the 256-bin histogram;
  - Otsu's threshold sweep, which keeps the first threshold of maximal
    between-class variance;
  - binarisation to a 0/255 mask;
  - 3x3 erosion, dilation, opening and closing;
  - the `otsu_threshold_top` kernel with its FAST / NORMAL / CAREFUL modes
    and the CAREFUL "mean + 0.6 std" fall-back;
  - the one-pass image statistics and the rule-based mode selector.
- **MicroBlaze firmware** (`adaptive_controller.c`, `watershed.c`,
  `energy_analyzer.c`, `uart_debug.c`):
  - the two-pass software statistics and the software mode selector;
  - 4-connected component labelling by a BFS over a ring queue, filling
    per-region area, centroid and bounding box;
  - the processor-only Otsu baseline used for the speed-up comparison;
  - the UART text formatting helpers.

Modules, one file each:

| module | file |
|---|---|
| `Platform` | `platform.dfy` |
| `IntSqrt` | `isqrt.dfy` |
| `Histogram` | `histogram.dfy` |
| `ImageStatsHls` | `image_stats.dfy` |
| `AdaptiveController` | `adaptive_controller.dfy` |
| `Otsu` | `otsu.dfy` |
| `Morphology` | `morphology.dfy` |
| `OtsuTop` | `otsu_top.dfy` |
| `EnergyBaseline` | `energy_baseline.dfy` |
| `Watershed` | `watershed.dfy` |
| `UartDebug` | `uart_debug.dfy` |

The loops of the C and C++ code are methods with loop invariants. Each
method is proved equal to a specification function of its inputs (a
histogram, a sweep, a mask, a statistics record). Lemmas then prove what
those functions mean:

- Otsu's threshold is the lowest maximiser of the between-class variance;
- the labelling marks exactly the 4-connected components;
- the decimal and hexadecimal texts parse back to the printed value.

State the source updates in place is modelled in place:

- the ring queue is a class over an array;
- `WatershedResult` is a class with a label-map array;
- the UART is a class whose `sent` field is the transmitted text;
- the morphology kernels work on arrays.

## Model

| member | source | states |
|---|---|---|
| `Platform.SumOf` | 02_hls_accelerator/image_stats.cpp:18-28 | the pixel sum is at most 255 per pixel, so it fits the accumulators |
| `Platform.SumSq` | 02_hls_accelerator/image_stats.cpp:29 | the sum of squared pixels is at most 65025 per pixel |
| `Platform.SqDevSum` | 04_vitis_software/src/adaptive_controller.c:26-30 | the sum of squared deviations from a byte mean is at most 65025 per pixel |
| `Platform.CountAbove` | 02_hls_accelerator/otsu_threshold.cpp:259-266 | the number of pixels above a threshold is at most the number of pixels |
| `Platform.CountNonzero` | 02_hls_accelerator/otsu_threshold.cpp:328-334 | the number of foreground pixels is at most the number of pixels |
| `Platform.MinMaxAreExtremes` | 02_hls_accelerator/image_stats.cpp:20-34 | the running minimum (seed 255) and maximum (seed 0) bound every pixel, and on a non-empty image both are attained by some pixel |
| `Platform.UniformImage` | 02_hls_accelerator/image_stats.cpp:18-34 | on an image of one value c: sum c·n, square sum c²·n, deviation sum 0, min = max = c, and no pixel above c |
| `Platform.MeanOf` | 02_hls_accelerator/image_stats.cpp:36 | the byte mean m is the floor of sum/65536: m·65536 ≤ sum < (m+1)·65536 |
| `Platform.TwoPassVariance` | 04_vitis_software/src/adaptive_controller.c:31 | the second-pass variance is at most 65025 |
| `IntSqrt.SqrtFrom` | 02_hls_accelerator/image_stats.cpp:43-57 | counting up from any r with r² ≤ v reaches the floor square root of v |
| `IntSqrt.ISqrt` | 02_hls_accelerator/image_stats.cpp:43-57 | the result r is the integer square root: r² ≤ v < (r+1)² |
| `IntSqrt.FloorSqrtUnique` | 02_hls_accelerator/image_stats.cpp:43-57 | the floor square root is unique |
| `IntSqrt.SqrtOfByteSquare` | 02_hls_accelerator/image_stats.cpp:58-59 | for variances up to 65025 the root is at most 255, so the clamp to 255 never fires |
| `IntSqrt.StepStaysAbove` | 02_hls_accelerator/image_stats.cpp:52 | a Newton step (s + v/s)/2 never drops below the floor root |
| `IntSqrt.StepHalvesDistance` | 02_hls_accelerator/image_stats.cpp:52-55 | above the root, a Newton step at least halves the distance to the root |
| `IntSqrt.StepAtRootStops` | 02_hls_accelerator/image_stats.cpp:53-54 | at the root, the next Newton step is not smaller, so the loop's break fires |
| `IntSqrt.NewtonSqrt` | 02_hls_accelerator/image_stats.cpp:43-59 | for v ≤ 65025, the 16-iteration Newton loop started at v with early break returns exactly the floor square root, which is at most 255 (16 halvings suffice since 2^16 = 65536 exceeds any such v) |
| `Histogram.CountOf` | 02_hls_accelerator/otsu_threshold.cpp:39-43 | a bin's count is at most the number of pixels |
| `Histogram.HistAppend` | 02_hls_accelerator/otsu_threshold.cpp:41 | one more pixel x increments exactly bin x of the histogram |
| `Histogram.WeightIncrement` | 02_hls_accelerator/otsu_threshold.cpp:72-84 | incrementing bin x changes the prefix weight by 1 and the prefix moment by x exactly when x is below the prefix end |
| `Histogram.HistTotals` | 02_hls_accelerator/otsu_threshold.cpp:56-63 | the histogram's total weight is the pixel count and its total moment is the pixel sum |
| `Histogram.EmptyHist` | 02_hls_accelerator/otsu_threshold.cpp:31-32 | the cleared histogram has zero weight and moment on every prefix |
| `Histogram.ImageHistogram` | 02_hls_accelerator/otsu_threshold.cpp:25-44 | an image's histogram counts 65536 pixels, and its moment is the pixel sum, at most 255·65536 |
| `Histogram.SliceMoments` | 02_hls_accelerator/otsu_threshold.cpp:72-95 | prefix weights and moments grow with the prefix, and the bins k..j-1 have a mean in [k, j-1] |
| `ImageStatsHls.OnePassVariance` | 02_hls_accelerator/image_stats.cpp:38-41 | the variance is exactly E[x²] − mean² on every image (the zero branch of the guard never changes the value), and it is at most E[x²] ≤ 65025 |
| `ImageStatsHls.MeanSquareAtMostSecondMoment` | 02_hls_accelerator/image_stats.cpp:36-41 | floor(sum_sq/65536) ≥ mean² for the truncated mean, so `e_x2 - mean_sq` is never negative |
| `Platform.SqDevExpand` | 04_vitis_software/src/adaptive_controller.c:26-30 | Σ(x − c)² + 2c·Σx = Σx² + n·c²: the two-pass and one-pass variance sums are related by expanding the square |
| `ImageStatsHls.ComputeImageStats` | 02_hls_accelerator/image_stats.cpp:13-66 | the single-pass kernel returns StatsOf(img): min and max bound every pixel and are attained, contrast = max − min, and std_dev is the floor square root of the one-pass variance |
| `ImageStatsHls.StatsOfFacts` | 02_hls_accelerator/image_stats.cpp:58-65 | the statistics record's min/max are the image's extremes, its contrast is their difference, and its std_dev is the floor root of the variance |
| `ImageStatsHls.SelectMode` | 02_hls_accelerator/image_stats.cpp:76-89 | FAST iff contrast ≥ 150 and std ≥ 50; NORMAL iff not FAST and contrast ≥ 80 and std ≥ 25; CAREFUL iff neither (enum codes 0, 1, 2 of otsu_threshold.h) |
| `ImageStatsHls.SelectModeMonotone` | 02_hls_accelerator/image_stats.cpp:76-89 | more contrast and more spread never select a more careful mode |
| `ImageStatsHls.StdDevIsExactRoot` | 02_hls_accelerator/image_stats.cpp:43-62 | std_dev is exactly ISqrt of the variance (the clamp never changes it) and the mean is a byte |
| `ImageStatsHls.AllZeroImageStats` | 02_hls_accelerator/image_stats.cpp:13-89 | an all-zero image gives all-zero statistics and CAREFUL mode |
| `AdaptiveController.SwStatsOfFacts` | 04_vitis_software/src/adaptive_controller.c:10-48 | the software statistics: extremes bound and are attained, contrast = max − min, mean is the floor of sum/65536, std_dev is the floor root of the two-pass variance |
| `AdaptiveController.AdaptiveComputeStats` | 04_vitis_software/src/adaptive_controller.c:10-48 | the two-pass routine returns SwStatsOf(img), and its 32-bit sum never wraps |
| `AdaptiveController.AdaptiveSelectMode` | 04_vitis_software/src/adaptive_controller.c:51-58 | returns 0 iff contrast ≥ 150 and std ≥ 50, 1 iff not that and contrast ≥ 80 and std ≥ 25, 2 iff neither |
| `AdaptiveController.AdaptiveMatchesHls` | 04_vitis_software/src/adaptive_controller.c:51-58 | the firmware selector and the HLS select_mode choose the same mode code on every statistics record |
| `AdaptiveController.AllZeroImageSwStats` | 04_vitis_software/src/adaptive_controller.c:10-58 | an all-zero image gives all-zero software statistics and mode 2 |
| `Otsu.ComputeHistogram` | 02_hls_accelerator/otsu_threshold.cpp:25-44 | the hist array holds, in every bin v, the number of pixels of value v |
| `Otsu.SplitFacts` | 02_hls_accelerator/otsu_threshold.cpp:71-98 | at a split threshold t the background mean is ≤ t < the foreground mean ≤ 255, and 1 ≤ w0·w1·(mb−mf)² < 2^64 |
| `Otsu.NoSplitAfterFull` | 02_hls_accelerator/otsu_threshold.cpp:79-80 | once the background holds every pixel, no later threshold splits, so the loop's break loses nothing |
| `Otsu.SweepCorrect` | 02_hls_accelerator/otsu_threshold.cpp:71-107 | the sweep from any consistent state ends on the lowest threshold of maximal between-class variance |
| `Otsu.OtsuIsLowestArgmax` | 02_hls_accelerator/otsu_threshold.cpp:51-108 | Otsu's threshold has maximal between-class variance among split thresholds, every earlier threshold scores strictly less, and with no split it is 0 |
| `Otsu.SumTotal` | 02_hls_accelerator/otsu_threshold.cpp:58-63 | the loop's sum_total is the histogram's total moment |
| `Otsu.OtsuCompute` | 02_hls_accelerator/otsu_threshold.cpp:51-108 | otsu_compute returns OtsuThreshold(hist), the lowest maximiser of the between-class variance |
| `Otsu.UniformImageOtsuZero` | 02_hls_accelerator/otsu_threshold.cpp:51-108 | on an image of one value no threshold splits and Otsu returns 0 |
| `Otsu.BinarizeFacts` | 02_hls_accelerator/otsu_threshold.cpp:113-124 | the mask is 0/255, a pixel is 255 iff it is above the threshold, and the mask's foreground count is the count above the threshold |
| `Otsu.ApplyThreshold` | 02_hls_accelerator/otsu_threshold.cpp:113-124 | the output array is Binarize(img, thr) |
| `Morphology.IdxOfPixel` | 02_hls_accelerator/otsu_threshold.cpp:145-158 | the row-major index of (p/256, p%256) is p, and that pixel is inside the frame |
| `Morphology.FoldStep` | 02_hls_accelerator/otsu_threshold.cpp:152-161 | one window step folds the neighbour into the running min/max exactly when it is inside the frame |
| `Morphology.NeighbourhoodExtremes` | 02_hls_accelerator/otsu_threshold.cpp:140-200 | the eroded pixel is at most, and the dilated pixel at least, every in-frame 3x3 neighbour; each equals one of them, or the seed (255 or 0) |
| `Morphology.ErodeBelowDilateAbove` | 02_hls_accelerator/otsu_threshold.cpp:140-200 | erode(img) ≤ img ≤ dilate(img) pixelwise |
| `Morphology.UniformSurvives` | 02_hls_accelerator/otsu_threshold.cpp:140-200 | an all-255 image survives erosion and an all-0 image survives dilation, border included |
| `Morphology.MaskStaysMask` | 02_hls_accelerator/otsu_threshold.cpp:140-200 | erosion and dilation of a 0/255 mask are 0/255 masks |
| `Morphology.OpenBelowCloseAbove` | 02_hls_accelerator/otsu_threshold.cpp:203-217 | opening only removes and closing only adds: open(img) ≤ img ≤ close(img) pixelwise |
| `Morphology.NeighbourhoodMin` | 02_hls_accelerator/otsu_threshold.cpp:150-163 | the window loop returns the minimum over the in-frame 3x3 neighbourhood |
| `Morphology.Erode3x3` | 02_hls_accelerator/otsu_threshold.cpp:140-167 | dst becomes Erode(src) |
| `Morphology.NeighbourhoodMax` | 02_hls_accelerator/otsu_threshold.cpp:183-196 | the window loop returns the maximum over the in-frame 3x3 neighbourhood |
| `Morphology.Dilate3x3` | 02_hls_accelerator/otsu_threshold.cpp:173-200 | dst becomes Dilate(src) |
| `Morphology.MorphOpen` | 02_hls_accelerator/otsu_threshold.cpp:203-209 | the image becomes Dilate(Erode(old image)) |
| `Morphology.MorphClose` | 02_hls_accelerator/otsu_threshold.cpp:211-217 | the image becomes Erode(Dilate(old image)) |
| `OtsuTop.OtsuThresholdTop` | 02_hls_accelerator/otsu_threshold.cpp:222-348 | the output is FinalMask(img, mode) and the result record is TopResult(img, mode), so the same image and mode always give the same threshold, mask and count |
| `OtsuTop.CopyImage` | 02_hls_accelerator/otsu_threshold.cpp:242-247 | the local buffer holds a copy of the input |
| `OtsuTop.ChooseThreshold` | 02_hls_accelerator/otsu_threshold.cpp:250-312 | the threshold is Otsu's, replaced by the strict threshold only in CAREFUL mode when more than IMG_SIZE/5 pixels (20%) lie above Otsu's threshold |
| `OtsuTop.CountForeground` | 02_hls_accelerator/otsu_threshold.cpp:328-334 | fg_pixels is the number of non-zero output pixels |
| `OtsuTop.CountAboveLoop` | 02_hls_accelerator/otsu_threshold.cpp:259-266 | fg_count is the number of pixels above Otsu's threshold |
| `OtsuTop.StrictLoop` | 02_hls_accelerator/otsu_threshold.cpp:271-310 | the strict threshold is mean + 3·std/5 of the two-pass statistics, clamped to [1, 255] |
| `OtsuTop.ThresholdIsOtsuUnlessFallback` | 02_hls_accelerator/otsu_threshold.cpp:250-312 | outside CAREFUL the fall-back never fires; without it the threshold is the lowest Otsu maximiser; with it, the strict threshold |
| `OtsuTop.StrictThresholdBounds` | 02_hls_accelerator/otsu_threshold.cpp:304-310 | mean + 3·std/5 is at most 408, and the strict threshold is at least 1 and at least the mean |
| `OtsuTop.OpeningOnlyRemoves` | 02_hls_accelerator/otsu_threshold.cpp:314-334 | outside CAREFUL every output foreground pixel lies above the threshold, fg_pixels is at most the count above it, and in FAST mode equal to it |
| `OtsuTop.FinalMaskIsMask` | 02_hls_accelerator/otsu_threshold.cpp:314-325 | the output is a 0/255 mask in every mode, and in CAREFUL mode the close only adds to the opened mask |
| `OtsuTop.RawModeActsAsNormal` | 02_hls_accelerator/otsu_threshold.cpp:256-347 | a mode byte above 2 thresholds and post-processes as NORMAL and is echoed in mode_used |
| `OtsuTop.AllZeroImageTop` | 02_hls_accelerator/otsu_threshold.cpp:222-348 | an all-zero image gives threshold 0, no foreground and an all-zero mask in every mode |
| `OtsuTop.AllZeroThreshold` | 02_hls_accelerator/otsu_threshold.cpp:250-312 | an all-zero image gets threshold 0 in every mode |
| `OtsuTop.AllZeroMaskFixed` | 02_hls_accelerator/otsu_threshold.cpp:318-325 | post-processing leaves an all-zero mask unchanged |
| `EnergyBaseline.EnergySwBaseline` | 04_vitis_software/src/energy_analyzer.c:61-113 | the mask is the input binarised at BaselineThreshold of the image's histogram |
| `EnergyBaseline.AbsDiffVariance` | 04_vitis_software/src/energy_analyzer.c:97-99 | the unsigned |mb − mf| gives the same w0·w1·diff² as the signed difference |
| `EnergyBaseline.BaselineSweepLoop` | 04_vitis_software/src/energy_analyzer.c:79-105 | the loop, its dead `var >> 16` store included, returns BaselineThreshold(hist) |
| `EnergyBaseline.BaselineSumFits` | 04_vitis_software/src/energy_analyzer.c:73-77 | the 32-bit sum and each term t·hist[t] stay within 0xFFFFFFFF, and the sum is the pixel sum |
| `EnergyBaseline.BaselineMatchesSweep` | 04_vitis_software/src/energy_analyzer.c:83-105 | while no variance exceeds 0xFFFFFFFF, the baseline sweep equals otsu_compute's sweep |
| `EnergyBaseline.BaselineAgreesWithoutSaturation` | 04_vitis_software/src/energy_analyzer.c:72-105 | when no split variance exceeds 0xFFFFFFFF, the baseline threshold is Otsu's threshold |
| `EnergyBaseline.BaselineLast` | 04_vitis_software/src/energy_analyzer.c:100-104 | from a consistent sweep state, a saturating histogram ends the sweep on the last saturating threshold |
| `EnergyBaseline.BaselineIsLastSaturating` | 04_vitis_software/src/energy_analyzer.c:100-104 | when some variance exceeds 0xFFFFFFFF, the baseline returns the last threshold whose variance does |
| `EnergyBaseline.UniformImageBaselineZero` | 04_vitis_software/src/energy_analyzer.c:61-113 | on an image of one value the baseline threshold is 0 |
| `EnergyBaseline.ThreeLevelScoreAt` | 04_vitis_software/src/energy_analyzer.c:86-99 | on the three-level histogram thresholds 0..254 split, and they score 32768²·191² (t ≤ 127) and 49152·16384·213² (128..254) |
| `EnergyBaseline.ThreeLevelOtsu` | 02_hls_accelerator/otsu_threshold.cpp:51-108 | otsu_compute returns 0 on the three-level histogram |
| `EnergyBaseline.ThreeLevelBaseline` | 04_vitis_software/src/energy_analyzer.c:83-105 | the baseline returns 254 on the three-level histogram |
| `EnergyBaseline.BaselineDivergesFromHls` | 04_vitis_software/src/energy_analyzer.c:72-110 | on the three-level image the HLS threshold is 0 and the baseline's is 254, and the masks differ at pixel 32768 (value 128) |
| `Watershed.RingQueue.constructor` | 04_vitis_software/src/watershed.c:13-16 | a new queue is empty and owns a fresh 65536-slot buffer |
| `Watershed.RingQueue.Reset` | 04_vitis_software/src/watershed.c:18 | q_reset empties the queue with head = tail = 0 |
| `Watershed.RingQueue.IsEmpty` | 04_vitis_software/src/watershed.c:19 | q_empty is true iff the queue holds no items |
| `Watershed.RingQueue.Push` | 04_vitis_software/src/watershed.c:20 | q_push appends v at the tail |
| `Watershed.RingQueue.Pop` | 04_vitis_software/src/watershed.c:21 | q_pop returns and removes the oldest item |
| `Watershed.DistinctSlots` | 04_vitis_software/src/watershed.c:20-21 | fewer than 65536 apart, two queue positions use different slots |
| `Watershed.AdjacentSymmetric` | 04_vitis_software/src/watershed.c:69-77 | 4-adjacency is symmetric and stays inside the image |
| `Watershed.StepAdjacent` | 04_vitis_software/src/watershed.c:70-77 | an in-frame step (nx, ny) = (px+dx[d], py+dy[d]) reaches a 4-adjacent pixel ni inside the image |
| `Watershed.ClosedComponent` | 04_vitis_software/src/watershed.c:69-82 | in a closed labelling, pixels joined by a foreground path carry the same label |
| `Watershed.CoordBounds` | 04_vitis_software/src/watershed.c:64-67 | the bounding box covers every visited pixel and lies in 0..255 |
| `Watershed.CoordAttained` | 04_vitis_software/src/watershed.c:64-67 | each side of the bounding box is attained by a visited pixel |
| `Watershed.CentroidInBox` | 04_vitis_software/src/watershed.c:85-89 | the centroid sum/area lies inside the bounding box |
| `Watershed.VisitNeighbours` | 04_vitis_software/src/watershed.c:69-82 | after the four neighbours of the popped pixel, every foreground neighbour is labelled and queued, and the BFS invariant holds with one more pixel processed |
| `Watershed.VisitNeighbour` | 04_vitis_software/src/watershed.c:73-81 | one direction: an in-frame, foreground, unlabelled neighbour is labelled and pushed; existing labels are unchanged |
| `Watershed.LabelAndPush` | 04_vitis_software/src/watershed.c:79-80 | the neighbour gets the current label and is appended to the queue |
| `Watershed.TallyNext` | 04_vitis_software/src/watershed.c:60-67 | the descriptor of one more visited pixel is the old one with that pixel taken in |
| `Watershed.Accumulate` | 04_vitis_software/src/watershed.c:56-67 | area + 1, coordinate sums + (px, py), and the box widened to cover (px, py) |
| `Watershed.FloodExact` | 04_vitis_software/src/watershed.c:50-83 | after the BFS, a pixel has the new label iff it is 4-connected to the seed on the foreground, and those pixels were unlabelled before |
| `Watershed.FloodFill` | 04_vitis_software/src/watershed.c:50-83 | the flood fill labels exactly the seed's foreground component, and the area, sums and bounding box are those of the visited pixels |
| `Watershed.WatershedResult.constructor` | 04_vitis_software/src/watershed.h:37-43 | the result owns a fresh 65536-byte label map |
| `Watershed.FloodOnlyFillsZeros` | 04_vitis_software/src/watershed.c:78-79 | a flood fill changes only unlabelled pixels |
| `Watershed.ClearLabels` | 04_vitis_software/src/watershed.c:28 | the label map is all zero |
| `Watershed.WatershedSegment` | 04_vitis_software/src/watershed.c:24-95 | labels 1..num_regions mark exactly the 4-connected foreground components of the seeds in row-major order; below 16 regions every foreground pixel is labelled; each region descriptor (area, centroid, box, label) describes its pixels, unused descriptors are zero, and total_foreground is the number of labelled pixels |
| `Watershed.NewRegion` | 04_vitis_software/src/watershed.c:40-91 | one new region: its descriptor is filled, the labelling gains one component, and total_foreground grows by its area |
| `Watershed.ScanEnd` | 04_vitis_software/src/watershed.c:32-38 | when the scan ends or breaks at 16 regions the labelling is complete, and without the break every foreground pixel is labelled |
| `Watershed.RegionGeometry` | 04_vitis_software/src/watershed.c:41-89 | region k has label k+1 and area = number of pixels labelled k+1 ≥ 1; its box contains all of them, each side is attained, and the centroid lies inside |
| `Watershed.EmptyMaskNoRegions` | 04_vitis_software/src/watershed.c:24-95 | an all-zero mask gives no regions, total 0 and all-zero descriptors |
| `Watershed.TotalIsForeground` | 04_vitis_software/src/watershed.c:91 | when every foreground pixel is labelled, total_foreground is the number of foreground pixels |
| `UartDebug.Uart.constructor` | 04_vitis_software/src/uart_debug.c:40-46 | nothing has been sent yet |
| `UartDebug.Uart.Putc` | 04_vitis_software/src/uart_debug.c:40-46 | uart_putc appends exactly the character c to the transmitted text |
| `UartDebug.Uart.Print` | 04_vitis_software/src/uart_debug.c:49-54 | uart_print sends the string up to, not including, its first NUL |
| `UartDebug.Uart.PrintUint` | 04_vitis_software/src/uart_debug.c:57-78 | sends the label, the decimal text of val (no leading zeros, "0" for zero) and CR LF |
| `UartDebug.Uart.PutDigits` | 04_vitis_software/src/uart_debug.c:64-75 | for val > 0 the reversed digit buffer sends the decimal digits most significant first |
| `UartDebug.Uart.PrintHex` | 04_vitis_software/src/uart_debug.c:81-92 | sends the label, "0x", the 8 upper-case hex digits of val and CR LF |
| `UartDebug.Uart.PrintSeparator` | 04_vitis_software/src/uart_debug.c:95-98 | sends 40 dashes and CR LF |
| `UartDebug.CollectDigits` | 04_vitis_software/src/uart_debug.c:65-71 | the 11-char buffer receives at most 10 digits, least significant first, whose reverse is the decimal text |
| `UartDebug.SeparatorShape` | 04_vitis_software/src/uart_debug.c:97 | the separator literal is 40 dashes and CR LF |
| `UartDebug.SeparatorSent` | 04_vitis_software/src/uart_debug.c:97 | printing the separator literal sends all of it, since it holds no NUL |
| `UartDebug.UpToNul` | 04_vitis_software/src/uart_debug.c:51-53 | the sent part is a NUL-free prefix ending at the end or at the first NUL |
| `UartDebug.UpToNulAt` | 04_vitis_software/src/uart_debug.c:51-53 | the prefix sent is exactly the one before the first NUL |
| `UartDebug.NoNul` | 04_vitis_software/src/uart_debug.c:49-54 | a string without NUL is sent whole |
| `UartDebug.DecimalText` | 04_vitis_software/src/uart_debug.c:61-76 | a number's decimal text has at least one digit |
| `UartDebug.DecimalFitsBuffer` | 04_vitis_software/src/uart_debug.c:64-65 | a uint32 has at most 10 decimal digits, so buf[11] never overflows |
| `UartDebug.DigitsShape` | 04_vitis_software/src/uart_debug.c:68-71 | the digits are '0'..'9', and for a positive value the first is not '0' |
| `UartDebug.DigitsRoundTrip` | 04_vitis_software/src/uart_debug.c:68-75 | the digits parse back to the value |
| `UartDebug.DecimalRoundTrip` | 04_vitis_software/src/uart_debug.c:61-76 | the printed decimal text is canonical (no leading zero) and parses back to the value |
| `UartDebug.DecimalFromText` | 04_vitis_software/src/uart_debug.c:61-76 | every canonical decimal text is the printed form of its value |
| `UartDebug.PrintUintExample` | 04_vitis_software/src/uart_debug.h:28-31 | uart_print_uint("Count: ", 42) sends "Count: 42\r\n" |
| `UartDebug.HexTable` | 04_vitis_software/src/uart_debug.c:83 | hex_chars[n] is the n-th upper-case hex digit |
| `UartDebug.HexCharVal` | 04_vitis_software/src/uart_debug.c:83-89 | each nibble's hex digit reads back as that nibble |
| `UartDebug.HexValChar` | 04_vitis_software/src/uart_debug.c:83-89 | each hex digit is the character of its value |
| `UartDebug.ShiftNibble` | 04_vitis_software/src/uart_debug.c:88-89 | val >> (i+4) is (val >> i) / 16 |
| `UartDebug.HexStep` | 04_vitis_software/src/uart_debug.c:88-90 | sending hex_chars[(val >> i) & 0xF] extends the digits of val >> (i+4) to those of val >> i |
| `UartDebug.HexText` | 04_vitis_software/src/uart_debug.c:88-90 | the hex text always has 8 digits |
| `UartDebug.HexRoundTrip` | 04_vitis_software/src/uart_debug.c:81-92 | the 8 printed hex digits are hex digits and parse back to val |
| `UartDebug.HexFromText` | 04_vitis_software/src/uart_debug.c:81-92 | every 8-digit upper-case hex text denotes a uint32 whose printed form it is |
| `UartDebug.PrintHexExample` | 04_vitis_software/src/uart_debug.h:33-37 | uart_print_hex("Addr: ", 0xDEAD) sends "0x0000DEAD" after the label |

## Left out

- HLS pragmas (interfaces, pipelining, unrolling, partitioning) have no semantics in the model.
- Hardware and I/O are not modelled: `main.c`, register reads and writes, DMA, the AXI timer, `uart_init`, and the busy-wait on the UART's TX FIFO.
- Cycle counting is not modelled. `energy_sw_baseline` returns the elapsed cycle count from the timer, and `EnergySwBaseline` returns nothing.
- The floating-point energy report (`energy_compute_report`, `energy_print_report`) is not modelled.
- The print-only routines `watershed_print_summary` and `adaptive_print_decision` are not modelled; they only format already-modelled values through the UART helpers.
- `image_loader.c`, the Python verification scripts, the test bench and the documentation generators are not part of this model.
- The image size is fixed at 256 x 256, as in the source's headers.
- The model uses unbounded integers. Where the source's 8-, 16-, 32- or 64-bit variables could matter, a lemma shows the value fits, so no wrap-around happens: the sums, the variance products and the Newton iterate. The stored best variance of the baseline really saturates and is modelled exactly.
- The `>>` shifts of `uart_print_hex` are modelled as repeated halving (`Shift`), which is what a right shift of an unsigned value is.
- Characters are Dafny `char`, not the C 8-bit `char`. A C string is a `seq<char>`, and only its part before the first NUL is sent.
- The ring queue's 32-bit `q_tail` can wrap in C. The model's counters are unbounded. At most 65536 pixels are ever pushed per region, so the wrap is never reached.
- `watershed.h` describes the labelling as a "two-pass flood-fill ... with scanline trick". The code in `watershed.c` is a single raster scan with a BFS flood fill per seed, and the model follows the code.
- The model splits source functions into helper methods that run the same statements. Examples: the digit loops of `uart_print_uint` (`PutDigits`, `CollectDigits`), the neighbour loop of the BFS (`VisitNeighbour`, `LabelAndPush`), the accumulation step (`Accumulate`) and the per-region body (`NewRegion`).
- The `RegionInfo` fields are written through a pointer in C. The model builds a region's record as a value and stores it in `result.regions`.
- Watershed.WatershedSegment: the seeds and the per-region pixel lists in its contract are ghost outputs. They name the component each label marks; the C code has no such variables.

## Findings

| source | as written | input that shows it | evidently intended | confidence | as-written member | corrected member |
|---|---|---|---|---|---|---|
| 04_vitis_software/src/energy_analyzer.c:99-104 | `best_var` is a `uint32_t` and saturates at 0xFFFFFFFF. Every later 64-bit variance above 0xFFFFFFFF then wins `var > best_var` again, so the baseline keeps the LAST threshold whose variance overflows. | Three-level image: 32768 pixels of 0, 16384 of 128, 16384 of 255. Every split scores above 2^32; thresholds 0..127 score the most. The HLS `otsu_compute` returns 0 and the baseline returns 254, so pixels of value 128 differ between the two masks. | "Same algorithm as HLS" (line 72): the first threshold of maximal between-class variance, with a 64-bit best variance. | not executed | `EnergyBaseline.BaselineDivergesFromHls` | `Otsu.OtsuCompute` |
