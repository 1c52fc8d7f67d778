/**
 * Properties of the adaptive median filter: where its windows lie, what
 * each pixel's decision is, the ranges the output stays in, the flat-image
 * fixed point, and how the code as written relates to the textbook filter.
 */
module AdaptiveMedianProperties {
  import opened Padding
  import opened WindowStats
  import opened AdaptiveMedian

  // ---------------------------------------------------------------------
  // Windows: what they contain
  // ---------------------------------------------------------------------

  lemma {:induction false} WindowRowsHas(p: Grid, r0: nat, c0: nat, size: nat, k: nat, r: nat, c: nat)
    requires r0 + k <= |p|
    requires forall r' :: r0 <= r' < r0 + k ==> c0 + size <= |p[r']|
    requires r0 <= r < r0 + k && c0 <= c < c0 + size
    ensures p[r][c] in WindowRows(p, r0, c0, size, k)
  {
    if r < r0 + k - 1 {
      WindowRowsHas(p, r0, c0, size, k - 1, r, c);
    } else {
      assert p[r][c] == p[r][c0..c0 + size][c - c0];
    }
  }

  lemma {:induction false} WindowRowsFrom(p: Grid, r0: nat, c0: nat, size: nat, k: nat, x: int)
    requires r0 + k <= |p|
    requires forall r' :: r0 <= r' < r0 + k ==> c0 + size <= |p[r']|
    requires x in WindowRows(p, r0, c0, size, k)
    ensures exists r, c :: r0 <= r < r0 + k && c0 <= c < c0 + size && x == p[r][c]
  {
    var prev := WindowRows(p, r0, c0, size, k - 1);
    var last := p[r0 + k - 1][c0..c0 + size];
    if x in prev {
      WindowRowsFrom(p, r0, c0, size, k - 1, x);
    } else {
      var t :| 0 <= t < |last| && last[t] == x;
      assert x == p[r0 + k - 1][c0 + t];
    }
  }

  /**
   * The window of odd `size` for pixel (i, j) is centred on the pixel: its
   * cell (a, b) is the image sample at offset (a - size / 2, b - size / 2)
   * from (i, j), clamped into the image, whatever the margin maxK / 2.
   */
  lemma WindowCentred(img: Grid, h: nat, w: nat, maxK: nat, i: nat, j: nat, size: nat, a: nat, b: nat)
    requires InImage(img, h, w, i, j)
    requires OddSize(size) && OddSize(maxK) && size <= maxK
    requires a < size && b < size
    ensures WindowStart(i, size, maxK) + a < h + 2 * (maxK / 2)
    ensures WindowStart(j, size, maxK) + b < w + 2 * (maxK / 2)
    ensures Padded(img, h, w, maxK)[WindowStart(i, size, maxK) + a][WindowStart(j, size, maxK) + b]
         == Nearest(img, h, w, i + a - size / 2, j + b - size / 2)
  {
    assert (maxK - size) / 2 == maxK / 2 - size / 2;
  }

  /** Every image sample at a clamped offset of at most size / 2 from the pixel is in its window of that size. */
  lemma WindowHasNearest(img: Grid, h: nat, w: nat, maxK: nat, i: nat, j: nat, size: nat, r: int, c: int)
    requires InImage(img, h, w, i, j)
    requires OddSize(size) && OddSize(maxK) && size <= maxK
    requires i - size / 2 <= r <= i + size / 2 && j - size / 2 <= c <= j + size / 2
    ensures Nearest(img, h, w, r, c) in PixelWindow(img, h, w, maxK, i, j, size)
  {
    var a, b := r - i + size / 2, c - j + size / 2;
    var r0, c0 := WindowStart(i, size, maxK), WindowStart(j, size, maxK);
    WindowCentred(img, h, w, maxK, i, j, size, a, b);
    WindowRowsHas(Padded(img, h, w, maxK), r0, c0, size, size, r0 + a, c0 + b);
  }

  /** The pixel itself is a sample of each of its windows. */
  lemma CentreInWindow(img: Grid, h: nat, w: nat, maxK: nat, i: nat, j: nat, size: nat)
    requires InImage(img, h, w, i, j)
    requires OddSize(size) && OddSize(maxK) && size <= maxK
    ensures img[i][j] in PixelWindow(img, h, w, maxK, i, j, size)
  {
    WindowHasNearest(img, h, w, maxK, i, j, size, i, j);
  }

  /** Every sample of a window is an image sample at a clamped offset of at most size / 2. */
  lemma WindowSample(img: Grid, h: nat, w: nat, maxK: nat, i: nat, j: nat, size: nat, x: int)
    requires InImage(img, h, w, i, j)
    requires OddSize(size) && OddSize(maxK) && size <= maxK
    requires x in PixelWindow(img, h, w, maxK, i, j, size)
    ensures exists r, c :: i - size / 2 <= r <= i + size / 2 && j - size / 2 <= c <= j + size / 2 &&
              x == Nearest(img, h, w, r, c)
  {
    var p := Padded(img, h, w, maxK);
    var r0, c0 := WindowStart(i, size, maxK), WindowStart(j, size, maxK);
    WindowRowsFrom(p, r0, c0, size, size, x);
    var r, c :| r0 <= r < r0 + size && c0 <= c < c0 + size && x == p[r][c];
    WindowCentred(img, h, w, maxK, i, j, size, r - r0, c - c0);
    assert x == Nearest(img, h, w, i + (r - r0) - size / 2, j + (c - c0) - size / 2);
  }

  /** A smaller window of a pixel lies inside each larger one. */
  lemma WindowsNest(img: Grid, h: nat, w: nat, maxK: nat, i: nat, j: nat, size: nat, size': nat, x: int)
    requires InImage(img, h, w, i, j)
    requires OddSize(size) && OddSize(size') && OddSize(maxK) && size <= size' <= maxK
    requires x in PixelWindow(img, h, w, maxK, i, j, size)
    ensures x in PixelWindow(img, h, w, maxK, i, j, size')
  {
    WindowSample(img, h, w, maxK, i, j, size, x);
    var r, c :| i - size / 2 <= r <= i + size / 2 && j - size / 2 <= c <= j + size / 2 &&
      x == Nearest(img, h, w, r, c);
    WindowHasNearest(img, h, w, maxK, i, j, size', r, c);
  }

  /** The windows of an 8-bit image hold 8-bit samples. */
  lemma WindowInRange(img: Grid, h: nat, w: nat, maxK: nat, i: nat, j: nat, size: nat)
    requires IsImage(img, h, w) && i < h && j < w
    requires OddSize(size) && OddSize(maxK) && size <= maxK
    ensures forall x :: x in PixelWindow(img, h, w, maxK, i, j, size) ==> 0 <= x <= 255
  {
    forall x | x in PixelWindow(img, h, w, maxK, i, j, size)
      ensures 0 <= x <= 255
    {
      WindowSample(img, h, w, maxK, i, j, size, x);
      var r, c :| i - size / 2 <= r <= i + size / 2 && j - size / 2 <= c <= j + size / 2 &&
        x == Nearest(img, h, w, r, c);
    }
  }

  /** On a flat image every window holds only the flat value. */
  lemma WindowOfFlat(img: Grid, h: nat, w: nat, maxK: nat, i: nat, j: nat, size: nat, v: int)
    requires InImage(img, h, w, i, j)
    requires forall r, c :: 0 <= r < h && 0 <= c < w ==> img[r][c] == v
    requires OddSize(size) && OddSize(maxK) && size <= maxK
    ensures forall x :: x in PixelWindow(img, h, w, maxK, i, j, size) ==> x == v
  {
    forall x | x in PixelWindow(img, h, w, maxK, i, j, size)
      ensures x == v
    {
      WindowSample(img, h, w, maxK, i, j, size, x);
      var r, c :| i - size / 2 <= r <= i + size / 2 && j - size / 2 <= c <= j + size / 2 &&
        x == Nearest(img, h, w, r, c);
    }
  }

  /** A flat window is degenerate, and all its statistics are the flat value. */
  lemma FlatWindowIsDegenerate(win: seq<int>, v: int, centre: int)
    requires |win| % 2 == 1
    requires forall x :: x in win ==> x == v
    ensures Min(win) == Max(win) == Median(win) == v
    ensures Evaluate(win, centre) == Degenerate
  {
  }

  // ---------------------------------------------------------------------
  // The filter as written
  // ---------------------------------------------------------------------

  /**
   * The decision for one pixel, case by case: the loop is skipped when
   * minK > maxK; otherwise only the minK window is consulted.
   */
  lemma AsWrittenDecision(img: Grid, h: nat, w: nat, minK: nat, maxK: nat, i: nat, j: nat)
    requires InImage(img, h, w, i, j) && ValidSizes(minK, maxK)
    ensures maxK < minK ==> AsWrittenPixel(img, h, w, minK, maxK, i, j) == img[i][j]
    ensures minK <= maxK ==>
      var win := PixelWindow(img, h, w, maxK, i, j, minK);
      var zMin, zMax, zMed, c := Min(win), Max(win), Median(win), img[i][j];
      var r := AsWrittenPixel(img, h, w, minK, maxK, i, j);
      && (zMin < zMed < zMax && zMin < c < zMax ==> r == c)
      && (zMin < zMed < zMax && !(zMin < c < zMax) ==> r == zMed)
      && (!(zMin < zMed < zMax) && maxK < minK + 2 ==> r == zMed)
      && (!(zMin < zMed < zMax) && minK + 2 <= maxK ==> r == c)
  {
  }

  /** The output is a sample of the minK window, so it lies between that window's minimum and maximum. */
  lemma AsWrittenWithinWindow(img: Grid, h: nat, w: nat, minK: nat, maxK: nat, i: nat, j: nat)
    requires InImage(img, h, w, i, j) && ValidSizes(minK, maxK) && minK <= maxK
    ensures var win := PixelWindow(img, h, w, maxK, i, j, minK);
      var r := AsWrittenPixel(img, h, w, minK, maxK, i, j);
      r in win && Min(win) <= r <= Max(win)
  {
    CentreInWindow(img, h, w, maxK, i, j, minK);
  }

  /** An 8-bit image is filtered into 8-bit values (the final cast to uint8 changes nothing). */
  lemma AsWrittenIsPixel(img: Grid, h: nat, w: nat, minK: nat, maxK: nat, i: nat, j: nat)
    requires IsImage(img, h, w) && i < h && j < w && ValidSizes(minK, maxK)
    ensures 0 <= AsWrittenPixel(img, h, w, minK, maxK, i, j) <= 255
  {
    if minK <= maxK {
      AsWrittenWithinWindow(img, h, w, minK, maxK, i, j);
      WindowInRange(img, h, w, maxK, i, j, minK);
    }
  }

  /** A flat image is left as it is. */
  lemma AsWrittenFlat(img: Grid, h: nat, w: nat, minK: nat, maxK: nat, i: nat, j: nat, v: int)
    requires InImage(img, h, w, i, j) && ValidSizes(minK, maxK)
    requires forall r, c :: 0 <= r < h && 0 <= c < w ==> img[r][c] == v
    ensures AsWrittenPixel(img, h, w, minK, maxK, i, j) == v
  {
    if minK <= maxK {
      WindowOfFlat(img, h, w, maxK, i, j, minK, v);
      FlatWindowIsDegenerate(PixelWindow(img, h, w, maxK, i, j, minK), v, img[i][j]);
    }
  }

  /**
   * With equal sizes the filter is the plain median filter of that size,
   * except that a pixel strictly inside a non-degenerate window is kept.
   */
  lemma EqualSizesIsRefinedMedian(img: Grid, h: nat, w: nat, k: nat, i: nat, j: nat)
    requires InImage(img, h, w, i, j) && OddSize(k)
    ensures var win := PixelWindow(img, h, w, k, i, j, k);
      var c := img[i][j];
      AsWrittenPixel(img, h, w, k, k, i, j)
        == if Min(win) < Median(win) < Max(win) && Min(win) < c < Max(win) then c
           else FixedMedianPixel(img, h, w, k, i, j)
    ensures IntendedPixel(img, h, w, k, k, i, j) == AsWrittenPixel(img, h, w, k, k, i, j)
  {
  }

  /**
   * With minK = 1 and maxK >= 3 the code as written returns every pixel
   * unchanged: a 1-by-1 window is always degenerate, and the `break`
   * stops the growth to 3.
   */
  lemma UnitMinimumIsIdentity(img: Grid, h: nat, w: nat, maxK: nat, i: nat, j: nat)
    requires InImage(img, h, w, i, j) && OddSize(maxK) && 3 <= maxK
    ensures AsWrittenPixel(img, h, w, 1, maxK, i, j) == img[i][j]
  {
    var win := PixelWindow(img, h, w, maxK, i, j, 1);
    CentreInWindow(img, h, w, maxK, i, j, 1);
    assert win == [img[i][j]];
    FlatWindowIsDegenerate(win, img[i][j], img[i][j]);
  }

  // ---------------------------------------------------------------------
  // The textbook filter, and how the code as written departs from it
  // ---------------------------------------------------------------------

  /** Every window of odd size from `lo` up to (excluding) `hi` and at most maxK is degenerate. */
  predicate DegenerateBetween(img: Grid, h: nat, w: nat, maxK: nat, i: nat, j: nat, lo: nat, hi: nat)
    requires InImage(img, h, w, i, j) && OddSize(maxK)
  {
    forall s :: lo <= s < hi && s <= maxK && OddSize(s) ==>
      Evaluate(PixelWindow(img, h, w, maxK, i, j, s), img[i][j]) == Degenerate
  }

  /** The same run, walked one odd size at a time as the filter does. */
  predicate DegenerateRun(img: Grid, h: nat, w: nat, maxK: nat, i: nat, j: nat, lo: nat, hi: nat)
    requires InImage(img, h, w, i, j) && OddSize(maxK) && OddSize(lo)
    decreases hi - lo
  {
    lo < hi && lo <= maxK ==>
      Evaluate(PixelWindow(img, h, w, maxK, i, j, lo), img[i][j]) == Degenerate &&
      (OddNext(lo); DegenerateRun(img, h, w, maxK, i, j, lo + 2, hi))
  }

  /** A run of degenerate windows can be walked one size at a time. */
  lemma {:induction false} DegenerateBetweenRun(img: Grid, h: nat, w: nat, maxK: nat, i: nat, j: nat, lo: nat, hi: nat)
    requires InImage(img, h, w, i, j) && OddSize(maxK) && OddSize(lo)
    requires DegenerateBetween(img, h, w, maxK, i, j, lo, hi)
    ensures DegenerateRun(img, h, w, maxK, i, j, lo, hi)
    decreases hi - lo
  {
    if lo < hi && lo <= maxK {
      OddNext(lo);
      assert DegenerateBetween(img, h, w, maxK, i, j, lo + 2, hi);
      DegenerateBetweenRun(img, h, w, maxK, i, j, lo + 2, hi);
    }
  }

  /** A deciding window settles the pixel. */
  lemma IntendedFromDecided(img: Grid, h: nat, w: nat, maxK: nat, i: nat, j: nat, size: nat, v: int)
    requires InImage(img, h, w, i, j) && OddSize(maxK)
    requires OddSize(size) && size <= maxK
    requires Evaluate(PixelWindow(img, h, w, maxK, i, j, size), img[i][j]) == Decided(v)
    ensures IntendedFrom(img, h, w, maxK, i, j, size) == v
  {
  }

  /** A degenerate window hands the pixel on to the next size when there is one. */
  lemma IntendedFromGrows(img: Grid, h: nat, w: nat, maxK: nat, i: nat, j: nat, size: nat)
    requires InImage(img, h, w, i, j) && OddSize(maxK)
    requires OddSize(size) && size + 2 <= maxK
    requires Evaluate(PixelWindow(img, h, w, maxK, i, j, size), img[i][j]) == Degenerate
    ensures OddSize(size + 2)
    ensures IntendedFrom(img, h, w, maxK, i, j, size) == IntendedFrom(img, h, w, maxK, i, j, size + 2)
  {
    OddNext(size);
  }

  lemma {:induction false} IntendedFromFirstDecided(img: Grid, h: nat, w: nat, maxK: nat, i: nat, j: nat,
                                                    size: nat, s: nat, v: int)
    requires InImage(img, h, w, i, j) && OddSize(maxK)
    requires OddSize(size) && OddSize(s) && size <= s <= maxK
    requires DegenerateRun(img, h, w, maxK, i, j, size, s)
    requires Evaluate(PixelWindow(img, h, w, maxK, i, j, s), img[i][j]) == Decided(v)
    ensures IntendedFrom(img, h, w, maxK, i, j, size) == v
    decreases s - size
  {
    if size < s {
      OddStep(size, s);
      IntendedFromGrows(img, h, w, maxK, i, j, size);
      IntendedFromFirstDecided(img, h, w, maxK, i, j, size + 2, s, v);
    } else {
      IntendedFromDecided(img, h, w, maxK, i, j, size, v);
    }
  }

  /** The textbook filter stops at the first non-degenerate window and takes its decision. */
  lemma IntendedStopsAtFirstDecided(img: Grid, h: nat, w: nat, minK: nat, maxK: nat, i: nat, j: nat, s: nat, v: int)
    requires InImage(img, h, w, i, j) && ValidSizes(minK, maxK)
    requires OddSize(s) && minK <= s <= maxK
    requires DegenerateBetween(img, h, w, maxK, i, j, minK, s)
    requires Evaluate(PixelWindow(img, h, w, maxK, i, j, s), img[i][j]) == Decided(v)
    ensures IntendedPixel(img, h, w, minK, maxK, i, j) == v
  {
    DegenerateBetweenRun(img, h, w, maxK, i, j, minK, s);
    IntendedFromFirstDecided(img, h, w, maxK, i, j, minK, s, v);
  }

  lemma {:induction false} IntendedFromFallback(img: Grid, h: nat, w: nat, maxK: nat, i: nat, j: nat, size: nat)
    requires InImage(img, h, w, i, j) && OddSize(maxK)
    requires OddSize(size) && size <= maxK
    requires DegenerateRun(img, h, w, maxK, i, j, size, maxK + 1)
    ensures IntendedFrom(img, h, w, maxK, i, j, size) == Median(PixelWindow(img, h, w, maxK, i, j, maxK))
    decreases maxK - size
  {
    if size < maxK {
      OddStep(size, maxK);
      IntendedFromGrows(img, h, w, maxK, i, j, size);
      IntendedFromFallback(img, h, w, maxK, i, j, size + 2);
    }
  }

  /** When every window up to maxK is degenerate, the textbook filter takes the median of the maxK window. */
  lemma IntendedFallback(img: Grid, h: nat, w: nat, minK: nat, maxK: nat, i: nat, j: nat)
    requires InImage(img, h, w, i, j) && ValidSizes(minK, maxK) && minK <= maxK
    requires DegenerateBetween(img, h, w, maxK, i, j, minK, maxK + 1)
    ensures IntendedPixel(img, h, w, minK, maxK, i, j) == Median(PixelWindow(img, h, w, maxK, i, j, maxK))
  {
    DegenerateBetweenRun(img, h, w, maxK, i, j, minK, maxK + 1);
    IntendedFromFallback(img, h, w, maxK, i, j, minK);
  }

  lemma {:induction false} IntendedFromInLargest(img: Grid, h: nat, w: nat, maxK: nat, i: nat, j: nat, size: nat)
    requires InImage(img, h, w, i, j) && OddSize(maxK)
    requires OddSize(size) && size <= maxK
    ensures IntendedFrom(img, h, w, maxK, i, j, size) in PixelWindow(img, h, w, maxK, i, j, maxK)
    decreases maxK - size
  {
    var win := PixelWindow(img, h, w, maxK, i, j, size);
    CentreInWindow(img, h, w, maxK, i, j, maxK);
    WindowsNest(img, h, w, maxK, i, j, size, maxK, Median(win));
    if Evaluate(win, img[i][j]).Degenerate? && size + 2 <= maxK {
      OddStep(size, maxK);
      IntendedFromInLargest(img, h, w, maxK, i, j, size + 2);
    }
  }

  /** The textbook filter's output is a sample of the maxK window, so it lies between its minimum and maximum. */
  lemma IntendedWithinLargestWindow(img: Grid, h: nat, w: nat, minK: nat, maxK: nat, i: nat, j: nat)
    requires InImage(img, h, w, i, j) && ValidSizes(minK, maxK) && minK <= maxK
    ensures var win := PixelWindow(img, h, w, maxK, i, j, maxK);
      var r := IntendedPixel(img, h, w, minK, maxK, i, j);
      r in win && Min(win) <= r <= Max(win)
  {
    IntendedFromInLargest(img, h, w, maxK, i, j, minK);
  }

  /** The textbook filter maps 8-bit images to 8-bit values. */
  lemma IntendedIsPixel(img: Grid, h: nat, w: nat, minK: nat, maxK: nat, i: nat, j: nat)
    requires IsImage(img, h, w) && i < h && j < w && ValidSizes(minK, maxK)
    ensures 0 <= IntendedPixel(img, h, w, minK, maxK, i, j) <= 255
  {
    if minK <= maxK {
      IntendedWithinLargestWindow(img, h, w, minK, maxK, i, j);
      WindowInRange(img, h, w, maxK, i, j, maxK);
    }
  }

  lemma {:induction false} IntendedFromFlat(img: Grid, h: nat, w: nat, maxK: nat, i: nat, j: nat, size: nat, v: int)
    requires InImage(img, h, w, i, j) && OddSize(maxK)
    requires forall r, c :: 0 <= r < h && 0 <= c < w ==> img[r][c] == v
    requires OddSize(size) && size <= maxK
    ensures IntendedFrom(img, h, w, maxK, i, j, size) == v
    decreases maxK - size
  {
    WindowOfFlat(img, h, w, maxK, i, j, size, v);
    FlatWindowIsDegenerate(PixelWindow(img, h, w, maxK, i, j, size), v, img[i][j]);
    if size + 2 <= maxK {
      OddStep(size, maxK);
      IntendedFromFlat(img, h, w, maxK, i, j, size + 2, v);
    }
  }

  /** The textbook filter leaves a flat image as it is, through the fallback to the last median. */
  lemma IntendedFlat(img: Grid, h: nat, w: nat, minK: nat, maxK: nat, i: nat, j: nat, v: int)
    requires InImage(img, h, w, i, j) && ValidSizes(minK, maxK)
    requires forall r, c :: 0 <= r < h && 0 <= c < w ==> img[r][c] == v
    ensures IntendedPixel(img, h, w, minK, maxK, i, j) == v
  {
    if minK <= maxK {
      IntendedFromFlat(img, h, w, maxK, i, j, minK, v);
    }
  }

  /**
   * The two agree whenever the first window decides, or when no larger
   * window would be tried anyway.
   */
  lemma IntendedAgreesWhenFirstWindowSuffices(img: Grid, h: nat, w: nat, minK: nat, maxK: nat, i: nat, j: nat)
    requires InImage(img, h, w, i, j) && ValidSizes(minK, maxK)
    requires minK <= maxK ==>
      maxK < minK + 2 || Evaluate(PixelWindow(img, h, w, maxK, i, j, minK), img[i][j]).Decided?
    ensures IntendedPixel(img, h, w, minK, maxK, i, j) == AsWrittenPixel(img, h, w, minK, maxK, i, j)
  {
  }

  /** `t` is the row 1, 0, 2. */
  predicate IsExampleRow(t: seq<int>)
  {
    |t| == 3 && t[0] == 1 && t[1] == 0 && t[2] == 2
  }

  /** `img` is the one-row image [1, 0, 2]. */
  predicate IsExampleImage(img: Grid)
  {
    |img| == 1 && IsExampleRow(img[0])
  }

  /** The replicated padding of the one-row image [1, 0, 2] for maxK = 3. */
  lemma ExamplePadded(img: Grid)
    requires IsExampleImage(img)
    ensures IsGrid(img, 1, 3)
    ensures var p := Padded(img, 1, 3, 3);
      forall r :: 0 <= r < 3 ==> p[r] == [1, 1, 0, 2, 2]
  {
    var p := Padded(img, 1, 3, 3);
    var row := [1, 1, 0, 2, 2];
    forall r | 0 <= r < 3
      ensures p[r] == row
    {
      forall c | 0 <= c < 5
        ensures p[r][c] == row[c]
      {
        assert p[r][c] == Nearest(img, 1, 3, r - 1, c - 1);
      }
    }
  }

  /** The 3-by-3 window of the middle pixel of [1, 0, 2] for maxK = 3: the row 1, 0, 2 three times. */
  lemma ExampleWindow(img: Grid)
    requires IsExampleImage(img)
    ensures InImage(img, 1, 3, 0, 1)
    ensures var win := PixelWindow(img, 1, 3, 3, 0, 1, 3);
      |win| == 9 && IsExampleRow(win[..3]) && IsExampleRow(win[3..6]) && IsExampleRow(win[6..])
  {
    ExamplePadded(img);
    var p := Padded(img, 1, 3, 3);
    assert WindowRows(p, 0, 1, 3, 1) == [1, 0, 2];
    assert WindowRows(p, 0, 1, 3, 2) == [1, 0, 2, 1, 0, 2];
    assert PixelWindow(img, 1, 3, 3, 0, 1, 3) == [1, 0, 2, 1, 0, 2, 1, 0, 2];
  }

  lemma ExampleRowCounts(t: seq<int>)
    requires IsExampleRow(t)
    ensures Count(t, 1, true) == 2 && Count(t, 1, false) == 2
  {
    var u := t[1..];
    var v := u[1..];
    assert u[0] == 0 && v[0] == 2 && v[1..] == [];
    assert Count(v, 1, true) == 0 && Count(v, 1, false) == 1;
    assert Count(u, 1, true) == 1 && Count(u, 1, false) == 1;
  }

  /** The statistics of the samples 1, 0, 2 repeated three times. */
  lemma ExampleStatistics(e: seq<int>)
    requires |e| == 9 && IsExampleRow(e[..3]) && IsExampleRow(e[3..6]) && IsExampleRow(e[6..])
    ensures Min(e) == 0 && Max(e) == 2 && Median(e) == 1
    ensures Evaluate(e, 0) == Decided(1)
  {
    var a, b, c := e[..3], e[3..6], e[6..];
    assert e == a + b + c;
    forall x | x in e
      ensures 0 <= x <= 2
    {
      var k :| 0 <= k < 9 && e[k] == x;
      if k < 3 {
        assert x == a[k];
      } else if k < 6 {
        assert x == b[k - 3];
      } else {
        assert x == c[k - 6];
      }
    }
    assert e[1] == a[1] == 0 && e[2] == a[2] == 2;
    MinUnique(e, 0);
    MaxUnique(e, 2);
    ExampleRowCounts(a);
    ExampleRowCounts(b);
    ExampleRowCounts(c);
    CountAppend(a + b, c, 1, true);
    CountAppend(a, b, 1, true);
    CountAppend(a + b, c, 1, false);
    CountAppend(a, b, 1, false);
    MedianByRank(e, 1);
  }

  /**
   * They differ otherwise.  With minK = 1 and maxK = 3, whenever the 3-by-3
   * window of a pixel decides a value other than the pixel itself, the
   * textbook filter takes that value and the code as written keeps the
   * pixel.
   */
  lemma AsWrittenSkipsDecidingWindow(img: Grid, h: nat, w: nat, i: nat, j: nat, v: int)
    requires InImage(img, h, w, i, j)
    requires Evaluate(PixelWindow(img, h, w, 3, i, j, 3), img[i][j]) == Decided(v)
    requires v != img[i][j]
    ensures AsWrittenPixel(img, h, w, 1, 3, i, j) == img[i][j]
    ensures IntendedPixel(img, h, w, 1, 3, i, j) == v
    ensures AsWrittenPixel(img, h, w, 1, 3, i, j) != IntendedPixel(img, h, w, 1, 3, i, j)
  {
    UnitMinimumIsIdentity(img, h, w, 3, i, j);
    var first := PixelWindow(img, h, w, 3, i, j, 1);
    CentreInWindow(img, h, w, 3, i, j, 1);
    assert first == [img[i][j]];
    FlatWindowIsDegenerate(first, img[i][j], img[i][j]);
  }

  /**
   * A concrete image on which they differ: in the one-row image [1, 0, 2]
   * with minK = 1 and maxK = 3, the dark middle pixel stays 0 as written,
   * while the textbook filter grows to the 3-by-3 window (the samples
   * 1, 0, 2 three times, median 1) and replaces it by 1.
   */
  lemma AsWrittenMissesGrowth(img: Grid)
    requires IsExampleImage(img)
    ensures InImage(img, 1, 3, 0, 1)
    ensures AsWrittenPixel(img, 1, 3, 1, 3, 0, 1) == 0
    ensures IntendedPixel(img, 1, 3, 1, 3, 0, 1) == 1
  {
    ExampleWindow(img);
    ExampleStatistics(PixelWindow(img, 1, 3, 3, 0, 1, 3));
    AsWrittenSkipsDecidingWindow(img, 1, 3, 0, 1, 1);
  }
}
