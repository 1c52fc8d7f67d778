/**
 * Images as grids of samples, and the edge-replicating border that
 * OpenCV's `copyMakeBorder` with `BORDER_REPLICATE` adds around an image
 * before the adaptive median filter slides its windows over it.
 */
module Padding {

  /** A single-channel image: a sequence of rows of samples. */
  type Grid = seq<seq<int>>

  /** `g` is rectangular with `h` rows of `w` samples. */
  predicate IsGrid(g: Grid, h: nat, w: nat)
  {
    |g| == h && forall i :: 0 <= i < h ==> |g[i]| == w
  }

  /** `g` is an `h` by `w` 8-bit grey-level image (every sample in 0..255). */
  predicate IsImage(g: Grid, h: nat, w: nat)
  {
    IsGrid(g, h, w) && forall i, j :: 0 <= i < h && 0 <= j < w ==> 0 <= g[i][j] <= 255
  }

  /** The point of the range lo..hi closest to `x`. */
  function Clamp(x: int, lo: int, hi: int): (r: int)
    requires lo <= hi
    ensures lo <= r <= hi
    ensures lo <= x <= hi ==> r == x
    ensures x < lo ==> r == lo
    ensures hi < x ==> r == hi
  {
    if x < lo then lo else if hi < x then hi else x
  }

  /** The sample of the image nearest to position (r, c), which may lie outside it. */
  function Nearest(img: Grid, h: nat, w: nat, r: int, c: int): int
    requires IsGrid(img, h, w) && 0 < h && 0 < w
  {
    img[Clamp(r, 0, h - 1)][Clamp(c, 0, w - 1)]
  }

  /**
   * The image surrounded by a border `m` samples wide on every side, each
   * border sample copied from the nearest position inside the image.
   */
  function PadReplicate(img: Grid, h: nat, w: nat, m: nat): (p: Grid)
    requires IsGrid(img, h, w) && 0 < h && 0 < w
    ensures IsGrid(p, h + 2 * m, w + 2 * m)
  {
    seq(h + 2 * m, i requires 0 <= i < h + 2 * m =>
      seq(w + 2 * m, j requires 0 <= j < w + 2 * m => Nearest(img, h, w, i - m, j - m)))
  }

  /**
   * What the replicated border looks like: the image sits unchanged in the
   * middle, the rows above and below repeat its first and last row, and in
   * every row the columns to the left and right repeat the first and last
   * column of the image (so the corners repeat the corner samples).
   */
  lemma PadReplicateShape(img: Grid, h: nat, w: nat, m: nat)
    requires IsGrid(img, h, w) && 0 < h && 0 < w
    ensures var p := PadReplicate(img, h, w, m);
      && (forall i, j :: 0 <= i < h + 2 * m && 0 <= j < w + 2 * m ==>
            p[i][j] == img[Clamp(i - m, 0, h - 1)][Clamp(j - m, 0, w - 1)])
      && (forall i, j :: 0 <= i < h && 0 <= j < w ==> p[m + i][m + j] == img[i][j])
      && (forall i :: 0 <= i < m ==> p[i] == p[m])
      && (forall i :: m + h <= i < h + 2 * m ==> p[i] == p[m + h - 1])
      && (forall i, j :: 0 <= i < h + 2 * m && 0 <= j < m ==> p[i][j] == p[i][m])
      && (forall i, j :: 0 <= i < h + 2 * m && m + w <= j < w + 2 * m ==> p[i][j] == p[i][m + w - 1])
  {
    var p := PadReplicate(img, h, w, m);
    forall i, j | 0 <= i < h + 2 * m && 0 <= j < w + 2 * m
      ensures p[i][j] == img[Clamp(i - m, 0, h - 1)][Clamp(j - m, 0, w - 1)]
    {
      assert p[i][j] == Nearest(img, h, w, i - m, j - m);
    }
    forall i, j | 0 <= i < h && 0 <= j < w
      ensures p[m + i][m + j] == img[i][j]
    {
      assert Clamp(m + i - m, 0, h - 1) == i && Clamp(m + j - m, 0, w - 1) == j;
    }
    forall i | 0 <= i < m
      ensures p[i] == p[m]
    {
      assert Clamp(i - m, 0, h - 1) == Clamp(m - m, 0, h - 1);
    }
    forall i | m + h <= i < h + 2 * m
      ensures p[i] == p[m + h - 1]
    {
      assert Clamp(i - m, 0, h - 1) == Clamp(m + h - 1 - m, 0, h - 1);
    }
    forall i, j | 0 <= i < h + 2 * m && 0 <= j < m
      ensures p[i][j] == p[i][m]
    {
      assert Clamp(j - m, 0, w - 1) == Clamp(m - m, 0, w - 1);
    }
    forall i, j | 0 <= i < h + 2 * m && m + w <= j < w + 2 * m
      ensures p[i][j] == p[i][m + w - 1]
    {
      assert Clamp(j - m, 0, w - 1) == Clamp(m + w - 1 - m, 0, w - 1);
    }
  }

  /** Padding keeps an 8-bit image 8-bit. */
  lemma PadKeepsRange(img: Grid, h: nat, w: nat, m: nat)
    requires IsImage(img, h, w) && 0 < h && 0 < w
    ensures IsImage(PadReplicate(img, h, w, m), h + 2 * m, w + 2 * m)
  {
    var p := PadReplicate(img, h, w, m);
    forall i, j | 0 <= i < h + 2 * m && 0 <= j < w + 2 * m
      ensures 0 <= p[i][j] <= 255
    {
      assert p[i][j] == Nearest(img, h, w, i - m, j - m);
    }
  }
}
