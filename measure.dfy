/** Per-cell measurements.

    For each cell ID in `np.unique(clean_ws)[1:]`, ascending, the source appends
    one entry to every list of its results dictionary: the ID, the mean
    intensity over the cell and over its edge (per channel), the cell's area and
    its edge's pixel count.  A mean is kept here as the sum and the pixel count
    it divides.
 */
module Measurements {
  import opened Grids
  import opened Labels
  import Edges

  /** `np.mean(img[mask])` as numerator and denominator; a zero count is numpy's NaN. */
  datatype Mean = Mean(sum: int, count: nat)

  /** The mean over `mask`; it is defined (a positive count) exactly when the
      mask selects a pixel. */
  function MeanOver(img: Grid<int>, mask: Grid<bool>): (m: Mean)
    requires SameShape(img, mask)
    ensures m.count > 0 <==> exists r, c :: 0 <= r < |mask| && 0 <= c < |mask[r]| && mask[r][c]
  {
    CountPositive(mask);
    Mean(SumWhere(img, mask), Count(mask))
  }

  /** The tutorial's results: green is channel 0, red channel 1. */
  datatype TwoChannelTable = TwoChannelTable(
    cellId: seq<int>,
    greenMean: seq<Mean>,
    redMean: seq<Mean>,
    greenMemMean: seq<Mean>,
    redMemMean: seq<Mean>,
    cellArea: seq<nat>,
    cellEdge: seq<nat>)

  /** The batch script's results, for a single-channel image. */
  datatype OneChannelTable = OneChannelTable(
    cellId: seq<int>,
    intMean: seq<Mean>,
    intMemMean: seq<Mean>,
    cellArea: seq<nat>,
    cellEdge: seq<nat>)

  /** The IDs the measurement loops walk: `np.unique(clean_ws)[1:]`. */
  function CellIds(clean: Grid<int>): (ids: seq<int>)
    ensures Increasing(ids)
    ensures forall k :: 0 <= k < |ids| ==> Occurs(clean, ids[k]) && Unique(clean)[0] < ids[k]
    ensures forall v :: Occurs(clean, v) ==> v == Unique(clean)[0] || v in ids
  {
    SkipFirst(Unique(clean))
  }

  /** The tutorial's table has one row per ID of `CellIds(clean)`, in order:
      the ID, both channels' means over the cell and over its edge, and the
      pixel counts of cell and edge. */
  predicate TwoChannelRows(green: Grid<int>, red: Grid<int>, clean: Grid<int>, edges: Grid<int>, t: TwoChannelTable)
    requires SameShape(green, clean) && SameShape(red, clean) && SameShape(edges, clean)
  {
    var n := |CellIds(clean)|;
    && |t.cellId| == n && |t.greenMean| == n && |t.redMean| == n && |t.greenMemMean| == n
    && |t.redMemMean| == n && |t.cellArea| == n && |t.cellEdge| == n
    && forall j :: 0 <= j < n ==>
      var id := CellIds(clean)[j];
      && t.cellId[j] == id
      && t.greenMean[j] == MeanOver(green, EqMask(clean, id))
      && t.redMean[j] == MeanOver(red, EqMask(clean, id))
      && t.greenMemMean[j] == MeanOver(green, EqMask(edges, id))
      && t.redMemMean[j] == MeanOver(red, EqMask(edges, id))
      && t.cellArea[j] == Count(EqMask(clean, id))
      && t.cellEdge[j] == Count(EqMask(edges, id))
  }

  /** The tutorial's measurement loop. */
  method MeasureTwoChannel(green: Grid<int>, red: Grid<int>, clean: Grid<int>, edges: Grid<int>)
    returns (t: TwoChannelTable)
    requires SameShape(green, clean) && SameShape(red, clean) && SameShape(edges, clean)
    ensures TwoChannelRows(green, red, clean, edges, t)
  {
    var ids := CellIds(clean);
    var cellId, greenMean, redMean, greenMemMean, redMemMean, cellArea, cellEdge := [], [], [], [], [], [], [];
    for k := 0 to |ids|
      invariant |cellId| == k && |greenMean| == k && |redMean| == k && |greenMemMean| == k
      invariant |redMemMean| == k && |cellArea| == k && |cellEdge| == k
      invariant forall j :: 0 <= j < k ==>
        var id := ids[j];
        && cellId[j] == id
        && greenMean[j] == MeanOver(green, EqMask(clean, id))
        && redMean[j] == MeanOver(red, EqMask(clean, id))
        && greenMemMean[j] == MeanOver(green, EqMask(edges, id))
        && redMemMean[j] == MeanOver(red, EqMask(edges, id))
        && cellArea[j] == Count(EqMask(clean, id))
        && cellEdge[j] == Count(EqMask(edges, id))
    {
      var cellMask := EqMask(clean, ids[k]);
      var edgeMask := EqMask(edges, ids[k]);
      cellId := cellId + [ids[k]];
      greenMean := greenMean + [MeanOver(green, cellMask)];
      redMean := redMean + [MeanOver(red, cellMask)];
      greenMemMean := greenMemMean + [MeanOver(green, edgeMask)];
      redMemMean := redMemMean + [MeanOver(red, edgeMask)];
      cellArea := cellArea + [Count(cellMask)];
      cellEdge := cellEdge + [Count(edgeMask)];
    }
    t := TwoChannelTable(cellId, greenMean, redMean, greenMemMean, redMemMean, cellArea, cellEdge);
  }

  /** The batch script's table has one row per ID of `CellIds(clean)`, in order. */
  predicate OneChannelRows(img: Grid<int>, clean: Grid<int>, edges: Grid<int>, t: OneChannelTable)
    requires SameShape(img, clean) && SameShape(edges, clean)
  {
    var n := |CellIds(clean)|;
    && |t.cellId| == n && |t.intMean| == n && |t.intMemMean| == n && |t.cellArea| == n && |t.cellEdge| == n
    && forall j :: 0 <= j < n ==>
      var id := CellIds(clean)[j];
      && t.cellId[j] == id
      && t.intMean[j] == MeanOver(img, EqMask(clean, id))
      && t.intMemMean[j] == MeanOver(img, EqMask(edges, id))
      && t.cellArea[j] == Count(EqMask(clean, id))
      && t.cellEdge[j] == Count(EqMask(edges, id))
  }

  /** The batch script's measurement loop. */
  method MeasureOneChannel(img: Grid<int>, clean: Grid<int>, edges: Grid<int>) returns (t: OneChannelTable)
    requires SameShape(img, clean) && SameShape(edges, clean)
    ensures OneChannelRows(img, clean, edges, t)
  {
    var ids := CellIds(clean);
    var cellId, intMean, intMemMean, cellArea, cellEdge := [], [], [], [], [];
    for k := 0 to |ids|
      invariant |cellId| == k && |intMean| == k && |intMemMean| == k && |cellArea| == k && |cellEdge| == k
      invariant forall j :: 0 <= j < k ==>
        var id := ids[j];
        && cellId[j] == id
        && intMean[j] == MeanOver(img, EqMask(clean, id))
        && intMemMean[j] == MeanOver(img, EqMask(edges, id))
        && cellArea[j] == Count(EqMask(clean, id))
        && cellEdge[j] == Count(EqMask(edges, id))
    {
      var cellMask := EqMask(clean, ids[k]);
      var edgeMask := EqMask(edges, ids[k]);
      cellId := cellId + [ids[k]];
      intMean := intMean + [MeanOver(img, cellMask)];
      intMemMean := intMemMean + [MeanOver(img, edgeMask)];
      cellArea := cellArea + [Count(cellMask)];
      cellEdge := cellEdge + [Count(edgeMask)];
    }
    t := OneChannelTable(cellId, intMean, intMemMean, cellArea, cellEdge);
  }

  /** On a map whose labels are exactly 0..N, the measured IDs are 1, 2, ..., N. */
  lemma CellIdsAscending(clean: Grid<int>, n: nat)
    requires forall v :: Occurs(clean, v) <==> 0 <= v <= n
    ensures |CellIds(clean)| == n
    ensures forall j :: 0 <= j < n ==> CellIds(clean)[j] == j + 1
  {
    UniqueOfContiguous(clean, n + 1);
  }

  /** Every cell that occurs has a positive area. */
  lemma AreaPositive(clean: Grid<int>, id: int)
    requires Occurs(clean, id)
    ensures Count(EqMask(clean, id)) >= 1
  {
    var r :| 0 <= r < |clean| && id in clean[r];
    var c :| 0 <= c < |clean[r]| && clean[r][c] == id;
    CountPositive(EqMask(clean, id));
  }

  /** A cell's edge is part of the cell, so its pixel count is at most the area. */
  lemma EdgeWithinArea(clean: Grid<int>, id: int)
    requires id != 0
    ensures Count(EqMask(Edges.EdgeMap(clean), id)) <= Count(EqMask(clean, id))
  {
    var e := Edges.EdgeMap(clean);
    forall r, c | 0 <= r < |clean| && 0 <= c < |clean[r]| && EqMask(e, id)[r][c]
      ensures EqMask(clean, id)[r][c]
    {
      Edges.EdgeMapAt(clean, r, c, id);
    }
    CountMono(EqMask(e, id), EqMask(clean, id));
  }

  /** Every non-zero cell of a rectangular map has at least one edge pixel, so the
      mean over its edge is defined. */
  lemma EdgeCountPositive(clean: Grid<int>, h: nat, w: nat, id: int)
    requires IsGrid(clean, h, w)
    requires id != 0 && Occurs(clean, id)
    ensures Count(EqMask(Edges.EdgeMap(clean), id)) >= 1
  {
    var r :| 0 <= r < |clean| && id in clean[r];
    var c :| 0 <= c < |clean[r]| && clean[r][c] == id;
    Edges.EdgeNonEmpty(clean, h, w, r, c);
    var r' :| 0 <= r' <= r && Edges.EdgeMap(clean)[r'][c] == id;
    assert EqMask(Edges.EdgeMap(clean), id)[r'][c];
    CountPositive(EqMask(Edges.EdgeMap(clean), id));
  }
}
