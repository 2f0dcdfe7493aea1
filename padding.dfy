/** Reflect padding before the closing and the crop after it.

    numpy's `np.pad(m, p, mode='reflect')` mirrors the image about its first and
    last row and column without repeating them; when the padding is wider than
    the image the mirroring repeats (with period 2(n-1)).  A side of length 1 is
    extended by repetition.  `x[p:-p, p:-p]` is Python slicing: for `p == 0` it
    is empty, because `-0` is `0`.
 */
module Padding {
  import opened Grids
  import Disk

  /** `pad_size = i+1` for the closing's disk of size i = 15, that is 16. */
  function PadSize(i: nat): nat { i + 1 }
  const ClosingPad: nat := PadSize(Disk.ClosingDiskSize)

  /** The source index that padded index `j` reads along an axis of length n:
      an index before the axis is mirrored about entry 0, one after it about
      entry n-1, until it lands inside. */
  function ReflectIndex(j: int, n: nat): (k: nat)
    requires n >= 1
    ensures k < n
    ensures 0 <= j < n ==> k == j
    decreases if j < 0 then 1 - 2 * j else 2 * j
  {
    if n == 1 then 0
    else if 0 <= j < n then j
    else if j < 0 then ReflectIndex(-j, n)
    else ReflectIndex(2 * (n - 1) - j, n)
  }

  /** Reflection about the first entry: index -j reads what index j reads. */
  lemma ReflectAboutFirst(j: int, n: nat)
    requires n >= 1
    ensures ReflectIndex(-j, n) == ReflectIndex(j, n)
  {
  }

  /** Reflection about the last entry: index n-1+j reads what index n-1-j reads. */
  lemma ReflectAboutLast(j: int, n: nat)
    requires n >= 1
    ensures ReflectIndex(n - 1 + j, n) == ReflectIndex(n - 1 - j, n)
  {
  }

  /** Mirroring repeats with period 2(n-1) once the padding is wider than the image. */
  lemma ReflectPeriodic(j: int, n: nat)
    requires n >= 2
    ensures ReflectIndex(j + 2 * (n - 1), n) == ReflectIndex(j, n)
  {
    ReflectAboutLast(n - 1 + j, n);
    ReflectAboutFirst(j, n);
  }

  predicate NonEmptyGrid<T>(g: Grid<T>) {
    |g| >= 1 && |g[0]| >= 1 && IsGrid(g, |g|, |g[0]|)
  }

  /** `np.pad(g, p, mode='reflect')`. */
  function Pad<T>(g: Grid<T>, p: nat): (x: Grid<T>)
    requires NonEmptyGrid(g)
    ensures IsGrid(x, |g| + 2 * p, |g[0]| + 2 * p)
  {
    var h, w := |g|, |g[0]|;
    seq(h + 2 * p, r =>
      seq(w + 2 * p, c => g[ReflectIndex(r - p, h)][ReflectIndex(c - p, w)]))
  }

  /** Inside the padding sits the image itself. */
  lemma PadInterior<T>(g: Grid<T>, p: nat)
    requires NonEmptyGrid(g)
    ensures forall r, c :: p <= r < |g| + p && p <= c < |g[0]| + p ==> Pad(g, p)[r][c] == g[r - p][c - p]
  {
    forall r, c | p <= r < |g| + p && p <= c < |g[0]| + p
      ensures Pad(g, p)[r][c] == g[r - p][c - p]
    {
      assert Pad(g, p)[r][c] == g[ReflectIndex(r - p, |g|)][ReflectIndex(c - p, |g[0]|)];
    }
  }

  /** The padded pixel (r, c) is the image pixel its reflected indices name. */
  lemma PadAt<T>(g: Grid<T>, p: nat, r: int, c: int)
    requires NonEmptyGrid(g)
    requires 0 <= r < |g| + 2 * p && 0 <= c < |g[0]| + 2 * p
    ensures Pad(g, p)[r][c] == g[ReflectIndex(r - p, |g|)][ReflectIndex(c - p, |g[0]|)]
  {
  }

  /** The padding mirrors the image about its first and last rows: the k-th
      padded row before the first row equals the k-th row after it, and
      likewise around the last row. */
  lemma PadMirrorsRows<T>(g: Grid<T>, p: nat, k: nat, c: nat)
    requires NonEmptyGrid(g)
    requires k <= p
    requires c < |g[0]| + 2 * p
    ensures Pad(g, p)[p - k][c] == Pad(g, p)[p + k][c]
    ensures Pad(g, p)[p + |g| - 1 + k][c] == Pad(g, p)[p + |g| - 1 - k][c]
  {
    var h := |g|;
    ReflectAboutFirst(k, h);
    ReflectAboutLast(k, h);
    PadAt(g, p, p - k, c);
    PadAt(g, p, p + k, c);
    PadAt(g, p, p + h - 1 + k, c);
    PadAt(g, p, p + h - 1 - k, c);
  }

  /** The same about the first and last columns. */
  lemma PadMirrorsColumns<T>(g: Grid<T>, p: nat, k: nat, r: nat)
    requires NonEmptyGrid(g)
    requires k <= p
    requires r < |g| + 2 * p
    ensures Pad(g, p)[r][p - k] == Pad(g, p)[r][p + k]
    ensures Pad(g, p)[r][p + |g[0]| - 1 + k] == Pad(g, p)[r][p + |g[0]| - 1 - k]
  {
    var w := |g[0]|;
    ReflectAboutFirst(k, w);
    ReflectAboutLast(k, w);
    PadAt(g, p, r, p - k);
    PadAt(g, p, r, p + k);
    PadAt(g, p, r, p + w - 1 + k);
    PadAt(g, p, r, p + w - 1 - k);
  }

  /** Python's `s[p:-p]`. */
  function SliceInner<T>(s: seq<T>, p: nat): (t: seq<T>)
    ensures p >= 1 && 2 * p <= |s| ==> |t| == |s| - 2 * p && forall k :: 0 <= k < |t| ==> t[k] == s[k + p]
    ensures p == 0 || 2 * p >= |s| ==> t == []
  {
    if p >= 1 && 2 * p < |s| then s[p..|s| - p] else []
  }

  /** `x[p:-p, p:-p]`. */
  function Crop<T>(x: Grid<T>, p: nat): (y: Grid<T>)
    ensures |y| == |SliceInner(x, p)|
    ensures forall r :: 0 <= r < |y| ==> y[r] == SliceInner(x[r + p], p)
  {
    var rows := SliceInner(x, p);
    seq(|rows|, r requires 0 <= r < |rows| => SliceInner(rows[r], p))
  }

  /** Cropping an (h+2p) by (w+2p) image by p >= 1 leaves the h by w image at offset (p, p). */
  lemma CropShape<T>(x: Grid<T>, p: nat, h: nat, w: nat)
    requires p >= 1
    requires IsGrid(x, h + 2 * p, w + 2 * p)
    ensures IsGrid(Crop(x, p), h, w)
    ensures forall r, c :: 0 <= r < h && 0 <= c < w ==> Crop(x, p)[r][c] == x[r + p][c + p]
  {
  }

  /** Cropping the padded image gives back the image. */
  lemma CropAfterPad<T>(g: Grid<T>, p: nat)
    requires NonEmptyGrid(g)
    requires p >= 1
    ensures Crop(Pad(g, p), p) == g
  {
    PadInterior(g, p);
    CropShape(Pad(g, p), p, |g|, |g[0]|);
    GridEq(Crop(Pad(g, p), p), g);
  }

  /** With the pad size the pipeline uses, whatever same-shaped image the closing
      returns, the crop restores the image's height and width. */
  lemma ClosingCropKeepsShape<T>(g: Grid<T>, closed: Grid<T>)
    requires NonEmptyGrid(g)
    requires IsGrid(closed, |Pad(g, ClosingPad)|, |Pad(g, ClosingPad)[0]|)
    ensures ClosingPad == 16
    ensures IsGrid(Crop(closed, ClosingPad), |g|, |g[0]|)
  {
    CropShape(closed, ClosingPad, |g|, |g[0]|);
  }
}
