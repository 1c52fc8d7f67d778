/**
 * `mediana_adaptativa` (B.py) as the loops it is written with: the output
 * starts as a copy of the input image and is overwritten one pixel at a
 * time, in row-major order, by a `while` loop over window sizes.
 */
module MedianFilter {
  import opened Padding
  import opened WindowStats
  import opened AdaptiveMedian
  import opened AdaptiveMedianProperties

  /**
   * The filter exactly as written, including the `break` that ends the
   * degenerate branch of the `while` loop after its first pass.
   */
  method AdaptiveMedianFilter(img: Grid, maxK: nat := 9, minK: nat := 3) returns (out: array2<int>)
    requires 0 < |img| && 0 < |img[0]| && IsImage(img, |img|, |img[0]|)
    requires ValidSizes(minK, maxK)
    ensures fresh(out)
    ensures out.Length0 == |img| && out.Length1 == |img[0]|
    ensures forall i, j :: 0 <= i < |img| && 0 <= j < |img[0]| ==>
              out[i, j] == AsWrittenPixel(img, |img|, |img[0]|, minK, maxK, i, j) && 0 <= out[i, j] <= 255
  {
    var h, w := |img|, |img[0]|;
    out := new int[h, w]((i, j) requires 0 <= i < h && 0 <= j < w => img[i][j]);
    var padded := PadReplicate(img, h, w, maxK / 2);
    for row := 0 to h
      invariant forall r, c :: 0 <= r < h && 0 <= c < w ==>
        out[r, c] == if r < row then AsWrittenPixel(img, h, w, minK, maxK, r, c) else img[r][c]
    {
      for col := 0 to w
        invariant forall r, c :: 0 <= r < h && 0 <= c < w ==>
          out[r, c] == if r < row || (r == row && c < col) then AsWrittenPixel(img, h, w, minK, maxK, r, c) else img[r][c]
      {
        // `stop` stands for the `break` that ends both branches of the loop body
        var size, stop := minK, false;
        while size <= maxK && !stop
          invariant !stop ==> size == minK && out[row, col] == img[row][col]
          invariant stop ==> out[row, col] == AsWrittenPixel(img, h, w, minK, maxK, row, col)
          invariant forall r, c :: 0 <= r < h && 0 <= c < w && (r != row || c != col) ==>
            out[r, c] == if r < row || (r == row && c < col) then AsWrittenPixel(img, h, w, minK, maxK, r, c) else img[r][c]
          // the body always stops the loop, so no window but the first is ever cut out
          decreases if stop then 0 else 1
        {
          var top, left := WindowStart(row, size, maxK), WindowStart(col, size, maxK);
          var win := Window(padded, top, left, size);
          assert win == PixelWindow(img, h, w, maxK, row, col, size);
          var zMin, zMax, zMed := Min(win), Max(win), Median(win);
          var centre := img[row][col];
          if zMin < zMed && zMed < zMax {
            if zMin < centre && centre < zMax {
              out[row, col] := centre;
            } else {
              out[row, col] := zMed;
            }
            stop := true;
          } else {
            size := size + 2;
            if size > maxK {
              out[row, col] := zMed;
            }
            stop := true;
          }
        }
      }
    }
    forall i, j | 0 <= i < h && 0 <= j < w
      ensures 0 <= AsWrittenPixel(img, h, w, minK, maxK, i, j) <= 255
    {
      AsWrittenIsPixel(img, h, w, minK, maxK, i, j);
    }
  }

  /**
   * One pixel of the textbook filter: the `while` loop of the code with the
   * `break` of the degenerate branch taken out, so the window keeps growing
   * until one decides or the size passes maxK.
   */
  method IntendedPixelValue(img: Grid, padded: Grid, h: nat, w: nat, minK: nat, maxK: nat, row: nat, col: nat)
    returns (value: int)
    requires InImage(img, h, w, row, col) && ValidSizes(minK, maxK)
    requires padded == Padded(img, h, w, maxK)
    ensures value == IntendedPixel(img, h, w, minK, maxK, row, col)
  {
    ghost var target := IntendedPixel(img, h, w, minK, maxK, row, col);
    var centre := img[row][col];
    value := centre;
    var size := minK;
    while size <= maxK
      invariant OddSize(size) && minK <= size
      invariant size <= maxK ==> value == centre && IntendedFrom(img, h, w, maxK, row, col, size) == target
      invariant maxK < size ==> value == target
    {
      var top, left := WindowStart(row, size, maxK), WindowStart(col, size, maxK);
      var win := Window(padded, top, left, size);
      assert win == PixelWindow(img, h, w, maxK, row, col, size);
      var zMin, zMax, zMed := Min(win), Max(win), Median(win);
      if zMin < zMed && zMed < zMax {
        if zMin < centre && centre < zMax {
          value := centre;
        } else {
          value := zMed;
        }
        break;
      } else {
        OddNext(size);
        size := size + 2;
        if size > maxK {
          value := zMed;
        }
      }
    }
  }

  /** The textbook filter over the whole image. */
  method AdaptiveMedianFilterIntended(img: Grid, maxK: nat := 9, minK: nat := 3) returns (out: array2<int>)
    requires 0 < |img| && 0 < |img[0]| && IsImage(img, |img|, |img[0]|)
    requires ValidSizes(minK, maxK)
    ensures fresh(out)
    ensures out.Length0 == |img| && out.Length1 == |img[0]|
    ensures forall i, j :: 0 <= i < |img| && 0 <= j < |img[0]| ==>
              out[i, j] == IntendedPixel(img, |img|, |img[0]|, minK, maxK, i, j) && 0 <= out[i, j] <= 255
  {
    var h, w := |img|, |img[0]|;
    out := new int[h, w]((i, j) requires 0 <= i < h && 0 <= j < w => img[i][j]);
    var padded := PadReplicate(img, h, w, maxK / 2);
    for row := 0 to h
      invariant forall r, c :: 0 <= r < h && 0 <= c < w ==>
        out[r, c] == if r < row then IntendedPixel(img, h, w, minK, maxK, r, c) else img[r][c]
    {
      for col := 0 to w
        invariant forall r, c :: 0 <= r < h && 0 <= c < w ==>
          out[r, c] == if r < row || (r == row && c < col) then IntendedPixel(img, h, w, minK, maxK, r, c) else img[r][c]
      {
        out[row, col] := IntendedPixelValue(img, padded, h, w, minK, maxK, row, col);
      }
    }
    forall i, j | 0 <= i < h && 0 <= j < w
      ensures 0 <= IntendedPixel(img, h, w, minK, maxK, i, j) <= 255
    {
      IntendedIsPixel(img, h, w, minK, maxK, i, j);
    }
  }
}
