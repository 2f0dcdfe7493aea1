/** Adaptive thresholding: the membrane mask is the pixelwise comparison of the
    smoothed channel against its local-mean background.  The tutorial variant
    compares with `>=`, the batch variant with `>`.  The background itself is
    computed by a library filter and is an input here.
 */
module Threshold {
  import opened Grids

  /** Tutorial variant: `green_smooth >= bg`. */
  function MembraneAtLeast(smooth: Grid<int>, bg: Grid<int>): (m: Grid<bool>)
    requires SameShape(smooth, bg)
    ensures SameShape(m, smooth)
    ensures forall r, c :: 0 <= r < |smooth| && 0 <= c < |smooth[r]| ==>
      (m[r][c] <==> smooth[r][c] >= bg[r][c])
  {
    seq(|smooth|, r requires 0 <= r < |smooth| =>
      seq(|smooth[r]|, c requires 0 <= c < |smooth[r]| => smooth[r][c] >= bg[r][c]))
  }

  /** Batch variant: `img_smooth > bg`. */
  function MembraneAbove(smooth: Grid<int>, bg: Grid<int>): (m: Grid<bool>)
    requires SameShape(smooth, bg)
    ensures SameShape(m, smooth)
    ensures forall r, c :: 0 <= r < |smooth| && 0 <= c < |smooth[r]| ==>
      (m[r][c] <==> smooth[r][c] > bg[r][c])
  {
    seq(|smooth|, r requires 0 <= r < |smooth| =>
      seq(|smooth[r]|, c requires 0 <= c < |smooth[r]| => smooth[r][c] > bg[r][c]))
  }

  /** On the same inputs the strict mask is contained in the inclusive one, and
      the two differ exactly at the pixels where the signal equals its background. */
  lemma StrictMaskWithinInclusive(smooth: Grid<int>, bg: Grid<int>, r: int, c: int)
    requires SameShape(smooth, bg)
    requires 0 <= r < |smooth| && 0 <= c < |smooth[r]|
    ensures MembraneAbove(smooth, bg)[r][c] ==> MembraneAtLeast(smooth, bg)[r][c]
    ensures MembraneAtLeast(smooth, bg)[r][c] && !MembraneAbove(smooth, bg)[r][c] <==> smooth[r][c] == bg[r][c]
  {
  }

  /** A signal equal to its own background everywhere (no local variance) is all
      membrane under `>=` and no membrane under `>`. */
  lemma FlatSignal(smooth: Grid<int>, r: int, c: int)
    requires 0 <= r < |smooth| && 0 <= c < |smooth[r]|
    ensures MembraneAtLeast(smooth, smooth)[r][c]
    ensures !MembraneAbove(smooth, smooth)[r][c]
  {
  }
}
