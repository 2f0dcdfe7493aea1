/** Binary erosion and dilation with scipy's default structuring element for
    two dimensions, the 4-connected cross (a pixel and its up, down, left and
    right neighbours), done once.  Pixels outside the image read as
    `border_value`.  Both pipeline variants build their one-pixel image-border
    ring from these: the tutorial as the negation of an erosion of an all-true
    image with border value 0, the batch script as a dilation of an all-false
    image with border value 1.
 */
module Morphology {
  import opened Grids

  /** The pixel at (r, c), or `border` outside the image. */
  function Get(m: Grid<bool>, r: int, c: int, border: bool): bool {
    if InBounds(m, r, c) then m[r][c] else border
  }

  /** `ndi.binary_erosion(m, border_value=border)`: a pixel stays true when it
      and its four neighbours are all true.  Erosion only removes pixels. */
  function Erode(m: Grid<bool>, border: bool): (e: Grid<bool>)
    ensures SameShape(e, m)
    ensures forall r, c :: 0 <= r < |m| && 0 <= c < |m[r]| && e[r][c] ==> m[r][c]
  {
    seq(|m|, r requires 0 <= r < |m| =>
      seq(|m[r]|, c =>
        Get(m, r, c, border) && Get(m, r - 1, c, border) && Get(m, r + 1, c, border)
          && Get(m, r, c - 1, border) && Get(m, r, c + 1, border)))
  }

  /** `ndi.binary_dilation(m, border_value=border)`: a pixel becomes true when it
      or one of its four neighbours is true.  Dilation only adds pixels. */
  function Dilate(m: Grid<bool>, border: bool): (d: Grid<bool>)
    ensures SameShape(d, m)
    ensures forall r, c :: 0 <= r < |m| && 0 <= c < |m[r]| && m[r][c] ==> d[r][c]
  {
    seq(|m|, r requires 0 <= r < |m| =>
      seq(|m[r]|, c =>
        Get(m, r, c, border) || Get(m, r - 1, c, border) || Get(m, r + 1, c, border)
          || Get(m, r, c - 1, border) || Get(m, r, c + 1, border)))
  }

  predicate OnRing(h: nat, w: nat, r: int, c: int) {
    r == 0 || r == h - 1 || c == 0 || c == w - 1
  }

  /** The outermost one-pixel ring of an h-by-w image. */
  function Ring(h: nat, w: nat): (b: Grid<bool>)
    ensures IsGrid(b, h, w)
  {
    seq(h, r => seq(w, c => OnRing(h, w, r, c)))
  }

  /** Tutorial's `boundary_mask`: `logical_not(binary_erosion(ones, border_value=0))`. */
  function ErosionRing(h: nat, w: nat): (b: Grid<bool>)
    ensures IsGrid(b, h, w)
  {
    Not(Erode(Full(h, w, true), false))
  }

  /** Batch script's `border_mask`: `binary_dilation(zeros, border_value=1)`. */
  function DilationRing(h: nat, w: nat): (b: Grid<bool>)
    ensures IsGrid(b, h, w)
  {
    Dilate(Full(h, w, false), true)
  }

  /** At one pixel, the erosion of an all-true image with border value 0 fails
      exactly when a 4-neighbour lies outside the image. */
  lemma ErosionRingAt(h: nat, w: nat, r: int, c: int)
    requires 0 <= r < h && 0 <= c < w
    ensures ErosionRing(h, w)[r][c] == OnRing(h, w, r, c)
  {
    var full := Full(h, w, true);
    var e := Erode(full, false);
    assert Get(full, r, c, false);
    assert Get(full, r - 1, c, false) == (r >= 1);
    assert Get(full, r + 1, c, false) == (r + 1 < h);
    assert Get(full, r, c - 1, false) == (c >= 1);
    assert Get(full, r, c + 1, false) == (c + 1 < w);
    assert e[r][c] == (Get(full, r, c, false) && Get(full, r - 1, c, false) && Get(full, r + 1, c, false)
      && Get(full, r, c - 1, false) && Get(full, r, c + 1, false));
    assert ErosionRing(h, w)[r][c] == !e[r][c];
  }

  /** The erosion-built mask is exactly the outermost ring. */
  lemma ErosionRingIsRing(h: nat, w: nat)
    ensures ErosionRing(h, w) == Ring(h, w)
  {
    forall r, c | 0 <= r < h && 0 <= c < w
      ensures ErosionRing(h, w)[r][c] == Ring(h, w)[r][c]
    {
      ErosionRingAt(h, w, r, c);
    }
    GridEq(ErosionRing(h, w), Ring(h, w));
  }

  /** At one pixel, the dilation of an all-false image with border value 1
      succeeds exactly when a 4-neighbour lies outside the image. */
  lemma DilationRingAt(h: nat, w: nat, r: int, c: int)
    requires 0 <= r < h && 0 <= c < w
    ensures DilationRing(h, w)[r][c] == OnRing(h, w, r, c)
  {
    var empty := Full(h, w, false);
    assert !Get(empty, r, c, true);
    assert Get(empty, r - 1, c, true) == (r < 1);
    assert Get(empty, r + 1, c, true) == (r + 1 >= h);
    assert Get(empty, r, c - 1, true) == (c < 1);
    assert Get(empty, r, c + 1, true) == (c + 1 >= w);
    assert DilationRing(h, w)[r][c] ==
      (Get(empty, r, c, true) || Get(empty, r - 1, c, true) || Get(empty, r + 1, c, true)
        || Get(empty, r, c - 1, true) || Get(empty, r, c + 1, true));
  }

  /** The dilation-built mask is exactly the outermost ring. */
  lemma DilationRingIsRing(h: nat, w: nat)
    ensures DilationRing(h, w) == Ring(h, w)
  {
    forall r, c | 0 <= r < h && 0 <= c < w
      ensures DilationRing(h, w)[r][c] == Ring(h, w)[r][c]
    {
      DilationRingAt(h, w, r, c);
    }
    GridEq(DilationRing(h, w), Ring(h, w));
  }

  /** The two variants' border masks agree. */
  lemma BorderMasksAgree(h: nat, w: nat)
    ensures ErosionRing(h, w) == DilationRing(h, w)
  {
    ErosionRingIsRing(h, w);
    DilationRingIsRing(h, w);
  }
}
