/** Two-dimensional images.

    A pure image is a `Grid`: a sequence of rows, `g[r][c]` being the pixel in
    row `r` and column `c`.  The label maps the pipeline overwrites in place
    (`clean_ws`, `edges`) are `array2<int>`; `Snap` reads such an array as a
    grid, and `SetWhere` is numpy's masked assignment `a[mask] = v`.
 */
module Grids {

  type Grid<T> = seq<seq<T>>

  /** `g` has `h` rows of `w` pixels each. */
  predicate IsGrid<T>(g: Grid<T>, h: nat, w: nat) {
    |g| == h && forall r :: 0 <= r < h ==> |g[r]| == w
  }

  /** Row for row, `a` and `b` have the same length. */
  predicate SameShape<T, U>(a: Grid<T>, b: Grid<U>) {
    |a| == |b| && forall r :: 0 <= r < |a| ==> |a[r]| == |b[r]|
  }

  predicate InBounds<T>(g: Grid<T>, r: int, c: int) {
    0 <= r < |g| && 0 <= c < |g[r]|
  }

  /** `v` is the value of at least one pixel of `g`. */
  predicate Occurs(g: Grid<int>, v: int) {
    exists r :: 0 <= r < |g| && v in g[r]
  }

  predicate NonNegative(g: Grid<int>) {
    forall r, c :: 0 <= r < |g| && 0 <= c < |g[r]| ==> g[r][c] >= 0
  }

  /** Two grids of the same shape that agree on every pixel are equal. */
  lemma GridEq<T>(a: Grid<T>, b: Grid<T>)
    requires SameShape(a, b)
    requires forall r, c :: 0 <= r < |a| && 0 <= c < |a[r]| ==> a[r][c] == b[r][c]
    ensures a == b
  {
    forall r | 0 <= r < |a|
      ensures a[r] == b[r]
    {
      assert forall c :: 0 <= c < |a[r]| ==> a[r][c] == b[r][c];
    }
  }

  /** The contents of a two-dimensional array, as a grid. */
  function Snap(a: array2<int>): (g: Grid<int>)
    reads a
    ensures IsGrid(g, a.Length0, a.Length1)
    ensures forall r, c :: 0 <= r < a.Length0 && 0 <= c < a.Length1 ==> g[r][c] == a[r, c]
  {
    seq(a.Length0, r requires 0 <= r < a.Length0 reads a =>
      seq(a.Length1, c requires 0 <= r < a.Length0 && 0 <= c < a.Length1 reads a => a[r, c]))
  }

  /** An h-by-w image whose every pixel is `v` (`np.ones`, `np.zeros`). */
  function Full<T>(h: nat, w: nat, v: T): (g: Grid<T>)
    ensures IsGrid(g, h, w)
    ensures forall r, c :: 0 <= r < h && 0 <= c < w ==> g[r][c] == v
  {
    seq(h, r => seq(w, c => v))
  }

  /** The boolean image `g == v`. */
  function EqMask(g: Grid<int>, v: int): (m: Grid<bool>)
    ensures SameShape(m, g)
    ensures forall r, c :: 0 <= r < |g| && 0 <= c < |g[r]| ==> (m[r][c] <==> g[r][c] == v)
  {
    seq(|g|, r requires 0 <= r < |g| =>
      seq(|g[r]|, c requires 0 <= c < |g[r]| => g[r][c] == v))
  }

  /** `np.logical_and`. */
  function And(a: Grid<bool>, b: Grid<bool>): (m: Grid<bool>)
    requires SameShape(a, b)
    ensures SameShape(m, a)
    ensures forall r, c :: 0 <= r < |a| && 0 <= c < |a[r]| ==> (m[r][c] <==> a[r][c] && b[r][c])
  {
    seq(|a|, r requires 0 <= r < |a| =>
      seq(|a[r]|, c requires 0 <= c < |a[r]| => a[r][c] && b[r][c]))
  }

  /** `np.logical_not`. */
  function Not(a: Grid<bool>): (m: Grid<bool>)
    ensures SameShape(m, a)
    ensures forall r, c :: 0 <= r < |a| && 0 <= c < |a[r]| ==> (m[r][c] <==> !a[r][c])
  {
    seq(|a|, r requires 0 <= r < |a| =>
      seq(|a[r]|, c requires 0 <= c < |a[r]| => !a[r][c]))
  }

  /** `np.logical_xor`. */
  function Xor(a: Grid<bool>, b: Grid<bool>): (m: Grid<bool>)
    requires SameShape(a, b)
    ensures SameShape(m, a)
    ensures forall r, c :: 0 <= r < |a| && 0 <= c < |a[r]| ==> (m[r][c] <==> a[r][c] != b[r][c])
  {
    seq(|a|, r requires 0 <= r < |a| =>
      seq(|a[r]|, c requires 0 <= c < |a[r]| => a[r][c] != b[r][c]))
  }

  /** The image that numpy's `g[mask] = v` leaves behind. */
  function Select(mask: Grid<bool>, v: int, g: Grid<int>): (s: Grid<int>)
    requires SameShape(mask, g)
    ensures SameShape(s, g)
    ensures forall r, c :: 0 <= r < |g| && 0 <= c < |g[r]| ==>
      s[r][c] == if mask[r][c] then v else g[r][c]
  {
    seq(|g|, r requires 0 <= r < |g| =>
      seq(|g[r]|, c requires 0 <= c < |g[r]| => if mask[r][c] then v else g[r][c]))
  }

  /** Number of true pixels in one row. */
  function CountRow(row: seq<bool>): nat {
    if |row| == 0 then 0 else (if row[0] then 1 else 0) + CountRow(row[1..])
  }

  /** `np.sum` of a boolean image: the number of its true pixels. */
  function Count(m: Grid<bool>): nat {
    if |m| == 0 then 0 else CountRow(m[0]) + Count(m[1..])
  }

  /** Sum of the pixels of `row` selected by `sel`. */
  function SumRow(row: seq<int>, sel: seq<bool>): int
    requires |row| == |sel|
  {
    if |row| == 0 then 0 else (if sel[0] then row[0] else 0) + SumRow(row[1..], sel[1..])
  }

  /** Sum of `img[mask]`, the numerator of numpy's `np.mean(img[mask])`. */
  function SumWhere(img: Grid<int>, mask: Grid<bool>): int
    requires SameShape(img, mask)
  {
    if |img| == 0 then 0 else SumRow(img[0], mask[0]) + SumWhere(img[1..], mask[1..])
  }

  lemma {:induction false} CountRowPositive(row: seq<bool>)
    ensures CountRow(row) > 0 <==> exists c :: 0 <= c < |row| && row[c]
  {
    if |row| > 0 {
      CountRowPositive(row[1..]);
      if exists c :: 0 <= c < |row[1..]| && row[1..][c] {
        var c :| 0 <= c < |row[1..]| && row[1..][c];
        assert row[c + 1];
      }
      if exists c :: 0 <= c < |row| && row[c] {
        var c :| 0 <= c < |row| && row[c];
        if c > 0 { assert row[1..][c - 1]; }
      }
    }
  }

  /** A boolean image sums to a positive number exactly when one of its pixels is true. */
  lemma {:induction false} CountPositive(m: Grid<bool>)
    ensures Count(m) > 0 <==> exists r, c :: 0 <= r < |m| && 0 <= c < |m[r]| && m[r][c]
  {
    if |m| > 0 {
      CountPositive(m[1..]);
      CountRowPositive(m[0]);
      if exists r, c :: 0 <= r < |m[1..]| && 0 <= c < |m[1..][r]| && m[1..][r][c] {
        var r, c :| 0 <= r < |m[1..]| && 0 <= c < |m[1..][r]| && m[1..][r][c];
        assert m[r + 1][c];
      }
      if exists r, c :: 0 <= r < |m| && 0 <= c < |m[r]| && m[r][c] {
        var r, c :| 0 <= r < |m| && 0 <= c < |m[r]| && m[r][c];
        if r > 0 { assert m[1..][r - 1][c]; }
      }
    }
  }

  lemma {:induction false} CountRowMono(a: seq<bool>, b: seq<bool>)
    requires |a| == |b|
    requires forall c :: 0 <= c < |a| && a[c] ==> b[c]
    ensures CountRow(a) <= CountRow(b)
  {
    if |a| > 0 {
      assert forall c :: 0 <= c < |a[1..]| && a[1..][c] ==> b[1..][c] by {
        forall c | 0 <= c < |a[1..]| && a[1..][c] ensures b[1..][c] { assert a[c + 1]; }
      }
      CountRowMono(a[1..], b[1..]);
    }
  }

  /** A mask contained in another one has no more true pixels. */
  lemma {:induction false} CountMono(a: Grid<bool>, b: Grid<bool>)
    requires SameShape(a, b)
    requires forall r, c :: 0 <= r < |a| && 0 <= c < |a[r]| && a[r][c] ==> b[r][c]
    ensures Count(a) <= Count(b)
  {
    if |a| > 0 {
      CountRowMono(a[0], b[0]);
      assert forall r, c :: 0 <= r < |a[1..]| && 0 <= c < |a[1..][r]| && a[1..][r][c] ==> b[1..][r][c] by {
        forall r, c | 0 <= r < |a[1..]| && 0 <= c < |a[1..][r]| && a[1..][r][c]
          ensures b[1..][r][c]
        {
          assert a[r + 1][c];
        }
      }
      CountMono(a[1..], b[1..]);
    }
  }

  /** numpy's masked assignment `a[mask] = v`, done pixel by pixel. */
  method SetWhere(a: array2<int>, mask: Grid<bool>, v: int)
    requires IsGrid(mask, a.Length0, a.Length1)
    modifies a
    ensures Snap(a) == Select(mask, v, old(Snap(a)))
  {
    ghost var before := Snap(a);
    for r := 0 to a.Length0
      invariant forall i, j :: 0 <= i < a.Length0 && 0 <= j < a.Length1 ==>
        a[i, j] == if i < r && mask[i][j] then v else before[i][j]
    {
      for c := 0 to a.Length1
        invariant forall i, j :: 0 <= i < a.Length0 && 0 <= j < a.Length1 ==>
          a[i, j] == if (i < r || (i == r && j < c)) && mask[i][j] then v else before[i][j]
      {
        if mask[r][c] {
          a[r, c] := v;
        }
      }
    }
    GridEq(Snap(a), Select(mask, v, before));
  }
}
