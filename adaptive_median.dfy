/**
 * The adaptive median filter `mediana_adaptativa` (B.py), one pixel at a
 * time, as pure functions.
 *
 * The image is padded once by maxK / 2 with a replicated border.  For
 * pixel (i, j) a window of odd `size` is cut out so that it stays centred
 * on the pixel whatever the margin.  The window's minimum, maximum and
 * median then decide the output:
 *   - median strictly between minimum and maximum: keep the pixel when it
 *     is itself strictly between them, otherwise take the median;
 *   - otherwise the window is degenerate and should grow by 2.
 *
 * `AsWrittenPixel` is what the code computes: the `break` that ends the
 * degenerate branch is not inside the `if`, so only the first window is
 * ever looked at, and a degenerate first window leaves the pixel as it
 * was unless the next size would already exceed maxK.  `IntendedPixel` is
 * the textbook filter, which keeps growing the window up to maxK.
 */
module AdaptiveMedian {
  import opened Padding
  import opened WindowStats

  /** A window size the model accepts: odd and at least 1. */
  predicate OddSize(k: int)
  {
    1 <= k && k % 2 == 1
  }

  /** The two window-size parameters; `minK` may exceed `maxK`. */
  predicate ValidSizes(minK: int, maxK: int)
  {
    OddSize(minK) && OddSize(maxK)
  }

  /** (i, j) is a pixel of the `h` by `w` image `img`. */
  predicate InImage(img: Grid, h: nat, w: nat, i: nat, j: nat)
  {
    IsGrid(img, h, w) && i < h && j < w
  }

  lemma OddSquare(n: int)
    requires OddSize(n)
    ensures (n * n) % 2 == 1
  {
    var q := n / 2;
    assert n == 2 * q + 1;
    assert n * n == 2 * (2 * q * q + 2 * q) + 1;
  }

  /** The next window size is odd too. */
  lemma OddNext(a: int)
    requires OddSize(a)
    ensures OddSize(a + 2)
  {
  }

  /** Consecutive odd sizes are 2 apart. */
  lemma OddStep(a: int, b: int)
    requires OddSize(a) && OddSize(b) && a < b
    ensures OddSize(a + 2) && a + 2 <= b
  {
  }

  // ---------------------------------------------------------------------
  // Windows
  // ---------------------------------------------------------------------

  /** The first `k` rows of the size-by-size block at (r0, c0), row after row. */
  function WindowRows(p: Grid, r0: nat, c0: nat, size: nat, k: nat): (win: seq<int>)
    requires r0 + k <= |p|
    requires forall r :: r0 <= r < r0 + k ==> c0 + size <= |p[r]|
    ensures |win| == k * size
  {
    if k == 0 then [] else WindowRows(p, r0, c0, size, k - 1) + p[r0 + k - 1][c0..c0 + size]
  }

  /**
   * The samples of the size-by-size block of `p` whose top-left cell is
   * (r0, c0), in the row-major order in which NumPy flattens a 2-D slice.
   */
  function Window(p: Grid, r0: nat, c0: nat, size: nat): (win: seq<int>)
    requires r0 + size <= |p|
    requires forall r :: r0 <= r < r0 + size ==> c0 + size <= |p[r]|
  {
    WindowRows(p, r0, c0, size, size)
  }

  /** The image padded once by maxK / 2 with a replicated border. */
  function Padded(img: Grid, h: nat, w: nat, maxK: nat): (p: Grid)
    requires IsGrid(img, h, w) && 0 < h && 0 < w
    ensures IsGrid(p, h + 2 * (maxK / 2), w + 2 * (maxK / 2))
  {
    PadReplicate(img, h, w, maxK / 2)
  }

  /** First padded row (or column) of the window of `size` for pixel row (or column) `pos`. */
  function WindowStart(pos: nat, size: nat, maxK: nat): nat
    requires size <= maxK
  {
    pos + (maxK - size) / 2
  }

  /** The window of odd `size` for pixel (i, j), cut out of the padded image. */
  function PixelWindow(img: Grid, h: nat, w: nat, maxK: nat, i: nat, j: nat, size: nat): (win: seq<int>)
    requires InImage(img, h, w, i, j)
    requires OddSize(size) && OddSize(maxK) && size <= maxK
    ensures |win| % 2 == 1
  {
    OddSquare(size);
    Window(Padded(img, h, w, maxK), WindowStart(i, size, maxK), WindowStart(j, size, maxK), size)
  }

  // ---------------------------------------------------------------------
  // One window's decision, and the two filters
  // ---------------------------------------------------------------------

  /** A window either decides the pixel's value or is degenerate. */
  datatype Step = Decided(value: int) | Degenerate

  /** What one window with pixel value `centre` decides. */
  function Evaluate(win: seq<int>, centre: int): Step
    requires |win| % 2 == 1
  {
    var zMin, zMax, zMed := Min(win), Max(win), Median(win);
    if zMin < zMed < zMax then Decided(if zMin < centre < zMax then centre else zMed)
    else Degenerate
  }

  /** The output pixel (i, j) of `mediana_adaptativa` as the code is written. */
  function AsWrittenPixel(img: Grid, h: nat, w: nat, minK: nat, maxK: nat, i: nat, j: nat): int
    requires InImage(img, h, w, i, j) && ValidSizes(minK, maxK)
  {
    var centre := img[i][j];
    if maxK < minK then centre
    else
      var win := PixelWindow(img, h, w, maxK, i, j, minK);
      match Evaluate(win, centre)
      case Decided(v) => v
      case Degenerate => if maxK < minK + 2 then Median(win) else centre
  }

  /** The textbook filter from window `size` on: grow while degenerate, fall back to the last median. */
  function IntendedFrom(img: Grid, h: nat, w: nat, maxK: nat, i: nat, j: nat, size: nat): int
    requires InImage(img, h, w, i, j)
    requires OddSize(size) && OddSize(maxK) && size <= maxK
    decreases maxK - size
  {
    var win := PixelWindow(img, h, w, maxK, i, j, size);
    match Evaluate(win, img[i][j])
    case Decided(v) => v
    case Degenerate =>
      if maxK < size + 2 then Median(win)
      else
        OddStep(size, maxK);
        IntendedFrom(img, h, w, maxK, i, j, size + 2)
  }

  /** The output pixel (i, j) of the textbook adaptive median filter. */
  function IntendedPixel(img: Grid, h: nat, w: nat, minK: nat, maxK: nat, i: nat, j: nat): int
    requires InImage(img, h, w, i, j) && ValidSizes(minK, maxK)
  {
    if maxK < minK then img[i][j] else IntendedFrom(img, h, w, maxK, i, j, minK)
  }

  /** A plain median filter of odd size k with a replicated border (the baseline the filter is compared with). */
  function FixedMedianPixel(img: Grid, h: nat, w: nat, k: nat, i: nat, j: nat): int
    requires InImage(img, h, w, i, j) && OddSize(k)
  {
    Median(PixelWindow(img, h, w, k, i, j, k))
  }
}
