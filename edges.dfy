/** Cell edges.

    `edges` starts as zeros; for each cell ID in `np.unique(clean_ws)[1:]` the
    source erodes the cell's mask once (cross structure, border value 0), takes
    the XOR of mask and eroded mask, and writes the ID at those pixels.
 */
module Edges {
  import opened Grids
  import opened Labels
  import Morphology

  /** `logical_xor(cell_mask, binary_erosion(cell_mask))` for the cell `id`. */
  function CellEdgeMask(g: Grid<int>, id: int): (m: Grid<bool>)
    ensures SameShape(m, g)
    ensures forall r, c :: 0 <= r < |g| && 0 <= c < |g[r]| && m[r][c] ==> g[r][c] == id
  {
    var cell := EqMask(g, id);
    Xor(cell, Morphology.Erode(cell, false))
  }

  /** (r, c) is inside the image and labelled `id`. */
  predicate InCell(g: Grid<int>, r: int, c: int, id: int) {
    InBounds(g, r, c) && g[r][c] == id
  }

  /** The pixel has a 4-neighbour outside the image or outside its own cell. */
  predicate OnCellBoundary(g: Grid<int>, r: int, c: int)
    requires InBounds(g, r, c)
  {
    var id := g[r][c];
    !(InCell(g, r - 1, c, id) && InCell(g, r + 1, c, id) && InCell(g, r, c - 1, id) && InCell(g, r, c + 1, id))
  }

  /** A cell's edge pixels are exactly its pixels with a 4-neighbour outside the
      cell or outside the image. */
  lemma CellEdgeMaskAt(g: Grid<int>, id: int, r: int, c: int)
    requires InBounds(g, r, c)
    ensures CellEdgeMask(g, id)[r][c] <==> g[r][c] == id && OnCellBoundary(g, r, c)
  {
    var cell := EqMask(g, id);
    assert forall i, j :: Morphology.Get(cell, i, j, false) == InCell(g, i, j, id);
    assert Morphology.Erode(cell, false)[r][c] ==
      (Morphology.Get(cell, r, c, false) && Morphology.Get(cell, r - 1, c, false) && Morphology.Get(cell, r + 1, c, false)
        && Morphology.Get(cell, r, c - 1, false) && Morphology.Get(cell, r, c + 1, false));
  }

  /** The edge map once the cells in `done` have been written. */
  function EdgesOver(g: Grid<int>, done: seq<int>): (e: Grid<int>)
    ensures SameShape(e, g)
  {
    seq(|g|, r requires 0 <= r < |g| =>
      seq(|g[r]|, c requires 0 <= c < |g[r]| =>
        if g[r][c] in done && OnCellBoundary(g, r, c) then g[r][c] else 0))
  }

  /** The edge map proper: every non-zero cell's boundary pixels carry its ID. */
  function EdgeMap(g: Grid<int>): (e: Grid<int>)
    ensures SameShape(e, g)
  {
    seq(|g|, r requires 0 <= r < |g| =>
      seq(|g[r]|, c requires 0 <= c < |g[r]| =>
        if g[r][c] != 0 && OnCellBoundary(g, r, c) then g[r][c] else 0))
  }

  /** One iteration of the edge loop, on cell `id`. */
  lemma EdgeStep(g: Grid<int>, done: seq<int>, id: int)
    ensures Select(CellEdgeMask(g, id), id, EdgesOver(g, done)) == EdgesOver(g, done + [id])
  {
    forall r, c | 0 <= r < |g| && 0 <= c < |g[r]|
      ensures Select(CellEdgeMask(g, id), id, EdgesOver(g, done))[r][c] == EdgesOver(g, done + [id])[r][c]
    {
      CellEdgeMaskAt(g, id, r, c);
    }
    GridEq(Select(CellEdgeMask(g, id), id, EdgesOver(g, done)), EdgesOver(g, done + [id]));
  }

  /** `edges[edge_mask] = cell_ID` for one cell. */
  method AddCellEdge(edges: array2<int>, g: Grid<int>, ghost done: seq<int>, id: int)
    requires IsGrid(g, edges.Length0, edges.Length1)
    requires Snap(edges) == EdgesOver(g, done)
    modifies edges
    ensures Snap(edges) == EdgesOver(g, done + [id])
  {
    var edgeMask := CellEdgeMask(g, id);
    EdgeStep(g, done, id);
    SetWhere(edges, edgeMask, id);
  }

  /** The edge loop of both variants. */
  method ExtractEdges(clean: array2<int>) returns (edges: array2<int>)
    ensures fresh(edges)
    ensures Snap(edges) == EdgesOver(Snap(clean), SkipFirst(Unique(Snap(clean))))
  {
    edges := new int[clean.Length0, clean.Length1]((r, c) => 0);
    var g := Snap(clean);
    GridEq(Snap(edges), EdgesOver(g, []));
    var ids := SkipFirst(Unique(g));
    for k := 0 to |ids|
      invariant Snap(edges) == EdgesOver(g, ids[..k])
    {
      AddCellEdge(edges, g, ids[..k], ids[k]);
      assert ids[..k + 1] == ids[..k] + [ids[k]];
    }
    assert ids[..|ids|] == ids;
  }

  /** When 0 is the smallest label, the loop over `np.unique(...)[1:]` writes the
      edges of exactly the non-zero cells. */
  lemma LoopGivesEdgeMap(g: Grid<int>)
    requires |Unique(g)| > 0 && Unique(g)[0] == 0
    ensures EdgesOver(g, SkipFirst(Unique(g))) == EdgeMap(g)
  {
    var u := Unique(g);
    forall r, c | 0 <= r < |g| && 0 <= c < |g[r]|
      ensures (g[r][c] in SkipFirst(u)) == (g[r][c] != 0)
    {
      assert g[r][c] in g[r];
      assert Occurs(g, g[r][c]);
      var i :| 0 <= i < |u| && u[i] == g[r][c];
      if i > 0 {
        assert SkipFirst(u)[i - 1] == g[r][c];
      }
      if g[r][c] in SkipFirst(u) {
        var j :| 0 <= j < |SkipFirst(u)| && SkipFirst(u)[j] == g[r][c];
        assert u[0] < u[j + 1];
      }
    }
    GridEq(EdgesOver(g, SkipFirst(u)), EdgeMap(g));
  }

  /** Every non-zero edge pixel carries the cell ID of that pixel, and a cell's
      edge pixels are exactly its boundary pixels. */
  lemma EdgeMapAt(g: Grid<int>, r: int, c: int, id: int)
    requires 0 <= r < |g| && 0 <= c < |g[r]|
    requires id != 0
    ensures EdgeMap(g)[r][c] != 0 ==> EdgeMap(g)[r][c] == g[r][c]
    ensures EdgeMap(g)[r][c] == id <==> g[r][c] == id && OnCellBoundary(g, r, c)
    ensures EdgeMap(g)[r][c] == id <==> CellEdgeMask(g, id)[r][c]
  {
    CellEdgeMaskAt(g, id, r, c);
  }

  /** Every cell that occurs has at least one edge pixel: walking up from any of
      its pixels one leaves the cell or the image. */
  lemma {:induction false} EdgeNonEmpty(g: Grid<int>, h: nat, w: nat, r: nat, c: nat)
    requires IsGrid(g, h, w)
    requires r < h && c < w && g[r][c] != 0
    ensures exists r' :: 0 <= r' <= r && EdgeMap(g)[r'][c] == g[r][c]
  {
    if r == 0 || g[r - 1][c] != g[r][c] {
      assert !InCell(g, r - 1, c, g[r][c]);
      assert EdgeMap(g)[r][c] == g[r][c];
    } else {
      EdgeNonEmpty(g, h, w, r - 1, c);
    }
  }
}
