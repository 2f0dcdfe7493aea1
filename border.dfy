/** Removal of the cells that touch the image border.

    The source copies the watershed labels `ws` into `clean_ws`, then walks the
    distinct labels of `ws` in ascending order (background 0 included); when
    `ws == label` overlaps the border mask in at least one pixel, every pixel of
    that label is set to 0 in the copy.  Decisions read only `ws`, never the
    copy being updated.
 */
module BorderCleaner {
  import opened Grids
  import opened Labels
  import Morphology

  /** Label `id` has at least one pixel where `border` is true. */
  predicate Touches(g: Grid<int>, border: Grid<bool>, id: int)
    requires SameShape(g, border)
  {
    exists r, c :: 0 <= r < |g| && 0 <= c < |g[r]| && g[r][c] == id && border[r][c]
  }

  /** The label map once every label touching `border` has been zeroed. */
  function RemoveTouching(g: Grid<int>, border: Grid<bool>): (s: Grid<int>)
    requires SameShape(g, border)
    ensures SameShape(s, g)
  {
    seq(|g|, r requires 0 <= r < |g| =>
      seq(|g[r]|, c requires 0 <= c < |g[r]| =>
        if Touches(g, border, g[r][c]) then 0 else g[r][c]))
  }

  /** The copy after the loop has examined the labels in `done`. */
  function RemovedSoFar(g: Grid<int>, border: Grid<bool>, done: seq<int>): (s: Grid<int>)
    requires SameShape(g, border)
    ensures SameShape(s, g)
  {
    seq(|g|, r requires 0 <= r < |g| =>
      seq(|g[r]|, c requires 0 <= c < |g[r]| =>
        if g[r][c] in done && Touches(g, border, g[r][c]) then 0 else g[r][c]))
  }

  /** One iteration of the removal loop, on label `id`. */
  lemma RemoveStep(g: Grid<int>, border: Grid<bool>, done: seq<int>, id: int)
    requires SameShape(g, border)
    ensures Touches(g, border, id) ==>
      Select(EqMask(g, id), 0, RemovedSoFar(g, border, done)) == RemovedSoFar(g, border, done + [id])
    ensures !Touches(g, border, id) ==>
      RemovedSoFar(g, border, done) == RemovedSoFar(g, border, done + [id])
  {
    var before := RemovedSoFar(g, border, done);
    var after := RemovedSoFar(g, border, done + [id]);
    if Touches(g, border, id) {
      GridEq(Select(EqMask(g, id), 0, before), after);
    } else {
      GridEq(before, after);
    }
  }

  /** Once every label of `g` has been examined, the copy is the cleaned map. */
  lemma RemovedAll(g: Grid<int>, border: Grid<bool>, labels: seq<int>)
    requires SameShape(g, border)
    requires forall v :: v in labels <==> Occurs(g, v)
    ensures RemovedSoFar(g, border, labels) == RemoveTouching(g, border)
  {
    forall r, c | 0 <= r < |g| && 0 <= c < |g[r]| ensures g[r][c] in labels {
      assert g[r][c] in g[r];
      assert Occurs(g, g[r][c]);
    }
    GridEq(RemovedSoFar(g, border, labels), RemoveTouching(g, border));
  }

  /** `np.copy(ws)`. */
  method Copy(ws: array2<int>) returns (a: array2<int>)
    ensures fresh(a)
    ensures Snap(a) == Snap(ws)
  {
    a := new int[ws.Length0, ws.Length1];
    for r := 0 to ws.Length0
      invariant forall i, j :: 0 <= i < r && 0 <= j < ws.Length1 ==> a[i, j] == ws[i, j]
    {
      for c := 0 to ws.Length1
        invariant forall i, j :: 0 <= i < r && 0 <= j < ws.Length1 ==> a[i, j] == ws[i, j]
        invariant forall j :: 0 <= j < c ==> a[r, j] == ws[r, j]
      {
        a[r, c] := ws[r, c];
      }
    }
    GridEq(Snap(a), Snap(ws));
  }

  /** One iteration: zero label `id` in the copy when `ws == id` overlaps the border. */
  method RemoveIfTouching(clean: array2<int>, g: Grid<int>, border: Grid<bool>, ghost done: seq<int>, id: int)
    requires IsGrid(g, clean.Length0, clean.Length1) && IsGrid(border, clean.Length0, clean.Length1)
    requires Snap(clean) == RemovedSoFar(g, border, done)
    modifies clean
    ensures Snap(clean) == RemovedSoFar(g, border, done + [id])
  {
    var cellMask := EqMask(g, id);
    var overlap := Count(And(cellMask, border));
    CountPositive(And(cellMask, border));
    RemoveStep(g, border, done, id);
    if overlap > 0 {
      SetWhere(clean, cellMask, 0);
    }
  }

  /** The tutorial's and the batch script's removal loop. */
  method RemoveBorderCells(ws: array2<int>, border: Grid<bool>) returns (clean: array2<int>)
    requires IsGrid(border, ws.Length0, ws.Length1)
    ensures fresh(clean)
    ensures Snap(clean) == RemoveTouching(Snap(ws), border)
  {
    clean := Copy(ws);
    var g := Snap(ws);
    GridEq(g, RemovedSoFar(g, border, []));
    var labels := Unique(g);
    for k := 0 to |labels|
      invariant Snap(clean) == RemovedSoFar(g, border, labels[..k])
    {
      RemoveIfTouching(clean, g, border, labels[..k], labels[k]);
      assert labels[..k + 1] == labels[..k] + [labels[k]];
    }
    assert labels[..|labels|] == labels;
    RemovedAll(g, border, labels);
  }

  /** With the image-border ring as the mask: a label with a pixel on the ring
      loses all its pixels, and a label with no pixel on the ring keeps all of them. */
  lemma RemovalPerLabel(g: Grid<int>, h: nat, w: nat, id: int)
    requires IsGrid(g, h, w)
    ensures (exists r, c :: 0 <= r < h && 0 <= c < w && g[r][c] == id && Morphology.OnRing(h, w, r, c)) ==>
      forall r, c :: 0 <= r < h && 0 <= c < w && g[r][c] == id ==> RemoveTouching(g, Morphology.Ring(h, w))[r][c] == 0
    ensures (forall r, c :: 0 <= r < h && 0 <= c < w && g[r][c] == id ==> !Morphology.OnRing(h, w, r, c)) ==>
      forall r, c :: 0 <= r < h && 0 <= c < w && g[r][c] == id ==> RemoveTouching(g, Morphology.Ring(h, w))[r][c] == id
  {
    var ring := Morphology.Ring(h, w);
    if exists r, c :: 0 <= r < h && 0 <= c < w && g[r][c] == id && Morphology.OnRing(h, w, r, c) {
      var r, c :| 0 <= r < h && 0 <= c < w && g[r][c] == id && Morphology.OnRing(h, w, r, c);
      assert ring[r][c];
      assert Touches(g, ring, id);
    }
  }

  /** Border exclusion: after removal every pixel of the ring is background. */
  lemma RingCleared(g: Grid<int>, h: nat, w: nat, r: int, c: int)
    requires IsGrid(g, h, w)
    requires 0 <= r < h && 0 <= c < w && Morphology.OnRing(h, w, r, c)
    ensures RemoveTouching(g, Morphology.Ring(h, w))[r][c] == 0
  {
    var ring := Morphology.Ring(h, w);
    assert ring[r][c];
    assert Touches(g, ring, g[r][c]);
  }

  /** Removal only ever writes 0: every pixel keeps its label or becomes background,
      so labels stay non-negative and background stays background. */
  lemma RemovalKeepsOrZeroes(g: Grid<int>, border: Grid<bool>, r: int, c: int)
    requires SameShape(g, border)
    requires 0 <= r < |g| && 0 <= c < |g[r]|
    ensures RemoveTouching(g, border)[r][c] in {0, g[r][c]}
  {
  }

  /** The loop's turn on label 0, when 0 touches the mask, writes 0 over pixels
      that already hold 0: it leaves the partly cleaned copy unchanged. */
  lemma ZeroTurnNoOp(g: Grid<int>, border: Grid<bool>, done: seq<int>)
    requires SameShape(g, border)
    ensures Select(EqMask(g, 0), 0, RemovedSoFar(g, border, done)) == RemovedSoFar(g, border, done)
  {
    GridEq(Select(EqMask(g, 0), 0, RemovedSoFar(g, border, done)), RemovedSoFar(g, border, done));
  }

  /** On a non-empty image with non-negative labels, the cleaned map has 0 as its
      smallest label: the corner pixel is on the ring and hence 0. */
  lemma ZeroIsSmallestAfterRemoval(g: Grid<int>, h: nat, w: nat)
    requires IsGrid(g, h, w) && h >= 1 && w >= 1
    requires NonNegative(g)
    ensures |Unique(RemoveTouching(g, Morphology.Ring(h, w)))| > 0
    ensures Unique(RemoveTouching(g, Morphology.Ring(h, w)))[0] == 0
  {
    var s := RemoveTouching(g, Morphology.Ring(h, w));
    RingCleared(g, h, w, 0, 0);
    assert 0 in s[0];
    forall r, c | 0 <= r < |s| && 0 <= c < |s[r]| ensures s[r][c] >= 0 {
      RemovalKeepsOrZeroes(g, Morphology.Ring(h, w), r, c);
    }
    ZeroFirst(s);
  }

  /** After removal, the only label that still touches the border is 0. */
  lemma OnlyBackgroundTouches(g: Grid<int>, border: Grid<bool>, v: int)
    requires SameShape(g, border)
    requires Touches(RemoveTouching(g, border), border, v)
    ensures v == 0
  {
    var s := RemoveTouching(g, border);
    var r, c :| 0 <= r < |s| && 0 <= c < |s[r]| && s[r][c] == v && border[r][c];
    assert Touches(g, border, g[r][c]);
  }

  /** Running the removal a second time changes nothing. */
  lemma RemovalIdempotent(g: Grid<int>, border: Grid<bool>)
    requires SameShape(g, border)
    ensures RemoveTouching(RemoveTouching(g, border), border) == RemoveTouching(g, border)
  {
    var s := RemoveTouching(g, border);
    forall r, c | 0 <= r < |s| && 0 <= c < |s[r]|
      ensures RemoveTouching(s, border)[r][c] == s[r][c]
    {
      if Touches(s, border, s[r][c]) {
        OnlyBackgroundTouches(g, border, s[r][c]);
      }
    }
    GridEq(RemoveTouching(s, border), s);
  }
}
