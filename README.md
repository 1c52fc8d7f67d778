# Adaptive median filter of B.py, modelled and verified in Dafny

The model covers `mediana_adaptativa` in `B.py`. This is the adaptive median filter that the image-processing scripts of the repository apply to grey-level images, together with the edge-replicating border (`cv2.copyMakeBorder` with `BORDER_REPLICATE`) it pads the image with.

For each pixel `(linha, coluna)` the code works as follows:

- It cuts an odd window of `tamanho_janela` samples out of the padded image. The window is centred on the pixel whatever the margin `max_ksize // 2`.
- It takes the window's minimum, maximum and median.
- If the median lies strictly between the minimum and the maximum, the pixel is kept when it too lies strictly between them, and otherwise replaced by the median.
- If the median does not lie strictly between them, the window is *degenerate*. The size grows by 2, and when the new size exceeds `max_ksize` the pixel takes the median.

The `break` at B.py:40 sits after the inner `if`, not inside it. Every pass of the `while` loop therefore ends the loop, and only the `min_ksize` window is ever looked at.

The model follows the code as written. It also gives the textbook filter, which keeps growing the window, and proves how the two relate (see "## Findings").

Files, one module each:

- `padding.dfy` (`Padding`): images as grids, `Clamp` and `Nearest`, and `PadReplicate`, the replicated border.
- `window_stats.dfy` (`WindowStats`): `Min`, `Max` and `Median` of a window (the median of an odd window is the middle of its insertion sort), plus an independent rank description of the median.
- `adaptive_median.dfy` (`AdaptiveMedian`): windows as pure functions. This module holds the per-pixel decision `Evaluate`, the filter as written (`AsWrittenPixel`), the textbook filter (`IntendedFrom`, `IntendedPixel`) and the plain median filter (`FixedMedianPixel`).
- `adaptive_median_properties.dfy` (`AdaptiveMedianProperties`): lemmas about windows, about both filters, and the concrete input on which they differ.
- `median_filter.dfy` (`MedianFilter`): the filter as the loops it is written with. The output array starts as a copy of the image and is overwritten pixel by pixel. `AdaptiveMedianFilter` is the code as written. `AdaptiveMedianFilterIntended` does the same with the growth loop of the textbook filter.

The input image (`img`) is never changed by the source, so it is a value (`seq<seq<int>>`). `imagem_final` is updated cell by cell, so it is an `array2<int>` that the methods allocate and fill.

## Model

| member | source | states |
|---|---|---|
| Padding.Clamp | B.py:14 | the clamped index lies in lo..hi, is the index itself inside the range, and is the nearer end outside the range |
| Padding.PadReplicate | B.py:14 | the padded image has h + 2m rows of w + 2m samples |
| Padding.PadReplicateShape | B.py:14 | padded cell (i, j) is the image sample at the clamped position (i - m, j - m); the image sits unchanged in the middle; rows above and below repeat the first and last image row; columns left and right repeat the first and last column |
| Padding.PadKeepsRange | B.py:14 | padding an 8-bit image gives an 8-bit image |
| WindowStats.Min | B.py:24 | the minimum is a sample of the window and at most every sample |
| WindowStats.Max | B.py:25 | the maximum is a sample of the window and at least every sample |
| WindowStats.MinUnique | B.py:24 | a sample at most every other sample is the minimum |
| WindowStats.MaxUnique | B.py:25 | a sample at least every other sample is the maximum |
| WindowStats.InsertSorted | B.py:26 | inserting into a sorted window keeps it sorted and adds exactly one sample |
| WindowStats.SortSorted | B.py:26 | the sorted window is ascending, is a permutation of the window and has its length |
| WindowStats.Median | B.py:26 | the median of an odd window is one of its samples and lies between its minimum and maximum |
| WindowStats.CountPermutation | B.py:26 | the number of samples on one side of a value depends only on the multiset of samples |
| WindowStats.MedianRank | B.py:26 | more than half of the window lies at or below the median, and more than half at or above it |
| WindowStats.MedianByRank | B.py:26 | conversely, any value with that rank property is the median, so the median is fixed by ranks alone |
| AdaptiveMedianProperties.WindowCentred | B.py:19-23 | the window lies inside the padded image, and its cell (a, b) is the image sample at the clamped offset (a - size/2, b - size/2) from the pixel, for every margin maxK/2 |
| AdaptiveMedianProperties.WindowHasNearest | B.py:19-23 | every image sample at a clamped offset of at most size/2 from the pixel is in its window of that size |
| AdaptiveMedianProperties.WindowSample | B.py:19-23 | every sample of the window is an image sample at a clamped offset of at most size/2 from the pixel |
| AdaptiveMedianProperties.CentreInWindow | B.py:19-27 | the pixel's own value is a sample of each of its windows |
| AdaptiveMedianProperties.WindowsNest | B.py:19-23 | a smaller window of a pixel lies inside every larger one |
| AdaptiveMedianProperties.WindowInRange | B.py:14-23 | the windows of an 8-bit image hold only 8-bit samples |
| AdaptiveMedianProperties.WindowOfFlat | B.py:14-23 | on a constant image every window holds only the constant |
| AdaptiveMedianProperties.FlatWindowIsDegenerate | B.py:24-29 | a constant window has minimum, maximum and median equal to the constant, and is degenerate |
| AdaptiveMedianProperties.AsWrittenDecision | B.py:17-40 | the as-written output case by case: the input pixel when the loop is skipped (min_ksize > max_ksize); the centre when the minK window is non-degenerate and the centre is strictly inside; the median when the centre is not; the median when the window is degenerate and min_ksize + 2 > max_ksize; the input pixel when the window is degenerate and min_ksize + 2 <= max_ksize |
| AdaptiveMedianProperties.AsWrittenWithinWindow | B.py:24-39 | the as-written output is a sample of the min_ksize window and lies between its minimum and maximum |
| AdaptiveMedianProperties.AsWrittenIsPixel | B.py:41 | the as-written output of an 8-bit image is in 0..255, so the final cast to uint8 changes nothing |
| AdaptiveMedianProperties.AsWrittenFlat | B.py:17-40 | a constant image is mapped to itself by the code as written |
| AdaptiveMedianProperties.EqualSizesIsRefinedMedian | B.py:17-40 | with min_ksize = max_ksize the filter is the plain median filter of that size, except that a centre strictly inside a non-degenerate window is kept; the textbook filter agrees there |
| AdaptiveMedianProperties.UnitMinimumIsIdentity | B.py:36-40 | with min_ksize = 1 and max_ksize >= 3 the code as written returns every pixel unchanged |
| AdaptiveMedianProperties.DegenerateBetweenRun | B.py:36-37 | a run of degenerate windows, stated for all sizes at once, can be walked one size at a time |
| AdaptiveMedianProperties.IntendedFromDecided | B.py:29-34 | in the textbook filter a non-degenerate window settles the pixel with its decision |
| AdaptiveMedianProperties.IntendedFromGrows | B.py:36-37 | in the textbook filter a degenerate window hands the pixel on to the next size when that size is at most max_ksize |
| AdaptiveMedianProperties.IntendedFromFirstDecided | B.py:18-37 | the textbook filter from a size on yields the decision of the first non-degenerate window |
| AdaptiveMedianProperties.IntendedStopsAtFirstDecided | B.py:18-37 | the textbook filter yields the decision of the first non-degenerate window from min_ksize on |
| AdaptiveMedianProperties.IntendedFromFallback | B.py:36-39 | the textbook filter from a size on falls back to the max_ksize median when every window is degenerate |
| AdaptiveMedianProperties.IntendedFallback | B.py:36-39 | when every window from min_ksize to max_ksize is degenerate, the textbook filter yields the median of the max_ksize window |
| AdaptiveMedianProperties.IntendedFromInLargest | B.py:18-39 | the textbook filter from any size on yields a sample of the max_ksize window |
| AdaptiveMedianProperties.IntendedWithinLargestWindow | B.py:18-39 | the textbook output is a sample of the max_ksize window and lies between its minimum and maximum |
| AdaptiveMedianProperties.IntendedIsPixel | B.py:41 | the textbook output of an 8-bit image is in 0..255 |
| AdaptiveMedianProperties.IntendedFromFlat | B.py:18-39 | on a constant image the textbook filter from any size on yields the constant |
| AdaptiveMedianProperties.IntendedFlat | B.py:18-39 | the textbook filter maps a constant image to itself, through the fallback to the last median |
| AdaptiveMedianProperties.IntendedAgreesWhenFirstWindowSuffices | B.py:17-40 | the two filters agree whenever the min_ksize window decides or no larger window would be tried |
| AdaptiveMedianProperties.ExamplePadded | B.py:14 | the one-row image [1, 0, 2] padded for max_ksize = 3 has every row equal to [1, 1, 0, 2, 2] |
| AdaptiveMedianProperties.ExampleWindow | B.py:19-23 | the 3-by-3 window of the middle pixel of [1, 0, 2] is the row 1, 0, 2 three times |
| AdaptiveMedianProperties.ExampleStatistics | B.py:24-33 | that window has minimum 0, maximum 2 and median 1, and it decides 1 for the centre 0 |
| AdaptiveMedianProperties.AsWrittenSkipsDecidingWindow | B.py:36-40 | with min_ksize = 1 and max_ksize = 3, whenever the 3-by-3 window decides a value other than the pixel, the code as written keeps the pixel while the textbook filter takes that value |
| AdaptiveMedianProperties.AsWrittenMissesGrowth | B.py:36-40 | on the image [1, 0, 2] with min_ksize = 1 and max_ksize = 3, pixel (0, 1) is 0 as written and 1 in the textbook filter |
| MedianFilter.AdaptiveMedianFilter | B.py:10-41 | a fresh output of the image's shape whose every cell is the as-written pixel and in 0..255; while a pixel is being decided, the pixels already visited hold their output and the others still hold their input; the `while` body runs at most once |
| MedianFilter.IntendedPixelValue | B.py:17-39 | the growth loop with the `break` of the degenerate branch removed computes the textbook pixel |
| MedianFilter.AdaptiveMedianFilterIntended | B.py:10-41 | a fresh output of the image's shape whose every cell is the textbook pixel and in 0..255 |

## Left out

- The script part of B.py (lines 46-137) is not modelled. It covers directory traversal, `cv2.imread`, colour conversion, the library filters it compares against (`cv2.blur`, `GaussianBlur`, `medianBlur`) and plotting and saving figures, which are all I/O and library calls.
- Ruidos.py, F.py, D.py, Realce.py, Convolução.py and convolução_manual.py are not part of this model. They are noise injection, library filters, edge detectors, sharpening, metrics and a floating-point convolution, all built on foreign library calls and floating point.
- Window sizes are odd (`OddSize`), for both `min_ksize` and `max_ksize`. An even window makes `np.median` average its two middle samples into a float. An even `max_ksize` makes the windows sit off-centre by one sample. Neither is modelled.
- Images have at least one row and one column. Replicate padding of an empty image has no edge sample to copy, so this is a precondition rather than a modelled error.
- An image with `min_ksize > max_ksize` is returned unchanged, as the code does, rather than rejected with a configuration error.
- Pixels are unbounded integers restricted to 0..255 on input. `AsWrittenIsPixel` shows that every output is already in that range, so `.astype(np.uint8)` at B.py:41 is the identity and is not modelled separately. The float that `np.median` returns is written back into the uint8 array; for an odd window of integers it is an integer, so the model keeps it an integer.
- MedianFilter.AdaptiveMedianFilter: the `break` at B.py:40 is modelled by a flag that ends the loop, because a Dafny loop whose every path leaves it would need a vacuous termination argument. The flag is set on exactly the paths where the code breaks.
- MedianFilter.AdaptiveMedianFilterIntended: the per-pixel growth loop is its own method, `IntendedPixelValue`, rather than inline.
- The padded image is computed as a value (`PadReplicate`) once per call. Its layout in memory and NumPy's views into it are not modelled. A window is the row-major list of its samples, which is what `np.min`, `np.max` and `np.median` see.

## Findings

| source | as written | input that shows it | evidently intended | confidence | as-written member | corrected member |
|---|---|---|---|---|---|---|
| B.py:40 | the `break` after `if tamanho_janela > max_ksize` is unconditional, so a degenerate `min_ksize` window ends the loop after one pass and the pixel keeps its input value whenever `min_ksize + 2 <= max_ksize`; with `min_ksize = 1` every pixel is returned unchanged | one-row image [1, 0, 2], `min_ksize = 1`, `max_ksize = 3`, pixel (0, 1): the 1-by-1 window is degenerate and the output is 0, while the 3-by-3 window (median 1, minimum 0, maximum 2) would replace it by 1 | the window keeps growing by 2 until one is non-degenerate, falling back to the median of the `max_ksize` window (`break` inside the `if`) | not executed | AdaptiveMedianProperties.AsWrittenMissesGrowth | AdaptiveMedian.IntendedPixel, proved in AdaptiveMedianProperties.IntendedStopsAtFirstDecided and AdaptiveMedianProperties.IntendedFallback, and computed by MedianFilter.AdaptiveMedianFilterIntended |
