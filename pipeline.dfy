/** The back half of `run_pipeline`, from the watershed labels `ws` to the
    returned segmentation `clean_ws` and results table, in both variants:
    border-cell removal, relabelling to 1..N, edge extraction and measurement.
    The tutorial builds its border mask by erosion and measures two channels;
    the batch script builds it by dilation and measures one.
 */
module Pipeline {
  import opened Grids
  import opened Labels
  import Morphology
  import BorderCleaner
  import Relabel
  import Edges
  import opened Measurements

  /** `clean_ws` after the removal loop. */
  function Cleaned(ws: Grid<int>, h: nat, w: nat): (s: Grid<int>)
    requires IsGrid(ws, h, w)
    ensures IsGrid(s, h, w)
    ensures forall r, c :: 0 <= r < h && 0 <= c < w ==> s[r][c] == ws[r][c] || s[r][c] == 0
  {
    BorderCleaner.RemoveTouching(ws, Morphology.Ring(h, w))
  }

  /** `clean_ws` as returned, after the relabelling loop. */
  function Segment(ws: Grid<int>, h: nat, w: nat): (seg: Grid<int>)
    requires IsGrid(ws, h, w)
    ensures IsGrid(seg, h, w)
    ensures forall r, c :: 0 <= r < h && 0 <= c < w ==>
      seg[r][c] == Cleaned(ws, h, w)[r][c] || 1 <= seg[r][c] < |Unique(Cleaned(ws, h, w))|
  {
    Relabel.InPlaceRelabel(Cleaned(ws, h, w))
  }

  /** What the returned segmentation promises about the watershed labels it
      came from, with n surviving cells. */
  ghost predicate IsSegmentation(ws: Grid<int>, seg: Grid<int>, h: nat, w: nat, n: nat)
    requires IsGrid(ws, h, w) && IsGrid(seg, h, w)
  {
    // Background is 0 and the cells are numbered 1..n without gaps.
    && Occurs(seg, 0)
    && (forall v :: v != 0 ==> (Occurs(seg, v) <==> 1 <= v <= n))
    // No pixel of the image-border ring belongs to a cell.
    && (forall r, c :: 0 <= r < h && 0 <= c < w && Morphology.OnRing(h, w, r, c) ==> seg[r][c] == 0)
    // A pixel keeps a cell exactly when its watershed label is non-zero and
    // has no pixel on the ring.
    && (forall r, c :: 0 <= r < h && 0 <= c < w ==>
          (seg[r][c] != 0 <==> ws[r][c] != 0 && !BorderCleaner.Touches(ws, Morphology.Ring(h, w), ws[r][c])))
    // Surviving cells keep their identity and their relative order.
    && (forall r1, c1, r2, c2 ::
          0 <= r1 < h && 0 <= c1 < w && 0 <= r2 < h && 0 <= c2 < w && seg[r1][c1] != 0 && seg[r2][c2] != 0 ==>
          (ws[r1][c1] < ws[r2][c2] <==> seg[r1][c1] < seg[r2][c2])
          && (ws[r1][c1] == ws[r2][c2] <==> seg[r1][c1] == seg[r2][c2]))
  }

  /** On a non-empty image with non-negative watershed labels, the returned
      segmentation has background 0 as its smallest label and numbers its
      cells 1..N without gaps. */
  lemma SegmentNumbering(ws: Grid<int>, h: nat, w: nat)
    requires IsGrid(ws, h, w) && h >= 1 && w >= 1
    requires NonNegative(ws)
    ensures Occurs(Segment(ws, h, w), 0)
    ensures forall v :: v != 0 ==> (Occurs(Segment(ws, h, w), v) <==> 1 <= v <= |CellIds(Segment(ws, h, w))|)
    ensures |Unique(Segment(ws, h, w))| > 0 && Unique(Segment(ws, h, w))[0] == 0
  {
    var s := Cleaned(ws, h, w);
    BorderCleaner.ZeroIsSmallestAfterRemoval(ws, h, w);
    Relabel.RelabelContiguous(s);
    var seg := Relabel.InPlaceRelabel(s);
    assert seg == Segment(ws, h, w);
    var n := |Unique(s)| - 1;
    assert forall v :: Occurs(seg, v) <==> 0 <= v <= n;
    CellIdsAscending(seg, n);
    assert NonNegative(seg) by {
      forall r, c | 0 <= r < |seg| && 0 <= c < |seg[r]| ensures seg[r][c] >= 0 {
        assert seg[r][c] in seg[r];
        assert Occurs(seg, seg[r][c]);
      }
    }
    ZeroFirst(seg);
  }

  /** At one pixel: a ring pixel is background, and a pixel keeps a cell
      exactly when its watershed label is non-zero and has no pixel on the ring. */
  lemma SegmentPixel(ws: Grid<int>, h: nat, w: nat, r: int, c: int)
    requires IsGrid(ws, h, w) && h >= 1 && w >= 1
    requires NonNegative(ws)
    requires 0 <= r < h && 0 <= c < w
    ensures Morphology.OnRing(h, w, r, c) ==> Segment(ws, h, w)[r][c] == 0
    ensures Segment(ws, h, w)[r][c] != 0 <==>
      ws[r][c] != 0 && !BorderCleaner.Touches(ws, Morphology.Ring(h, w), ws[r][c])
  {
    var s := Cleaned(ws, h, w);
    BorderCleaner.ZeroIsSmallestAfterRemoval(ws, h, w);
    Relabel.InPlaceAt(s, r, c);
    if Morphology.OnRing(h, w, r, c) {
      BorderCleaner.RingCleared(ws, h, w, r, c);
    }
    RankMapKeepsZero(s, r, c);
  }

  /** For two pixels that keep a cell: their new IDs compare as their
      watershed labels do. */
  lemma SegmentOrderAt(ws: Grid<int>, h: nat, w: nat, r1: int, c1: int, r2: int, c2: int)
    requires IsGrid(ws, h, w) && h >= 1 && w >= 1
    requires NonNegative(ws)
    requires 0 <= r1 < h && 0 <= c1 < w && 0 <= r2 < h && 0 <= c2 < w
    requires Segment(ws, h, w)[r1][c1] != 0 && Segment(ws, h, w)[r2][c2] != 0
    ensures ws[r1][c1] < ws[r2][c2] <==> Segment(ws, h, w)[r1][c1] < Segment(ws, h, w)[r2][c2]
    ensures ws[r1][c1] == ws[r2][c2] <==> Segment(ws, h, w)[r1][c1] == Segment(ws, h, w)[r2][c2]
  {
    var s := Cleaned(ws, h, w);
    BorderCleaner.ZeroIsSmallestAfterRemoval(ws, h, w);
    Relabel.InPlaceAt(s, r1, c1);
    Relabel.InPlaceAt(s, r2, c2);
    RankMapKeepsZero(s, r1, c1);
    RankMapKeepsZero(s, r2, c2);
    RankMapOrder(s, r1, c1, r2, c2);
  }

  /** On a non-empty image with non-negative watershed labels, the returned
      segmentation has every property above, and 0 is its smallest label. */
  lemma SegmentProperties(ws: Grid<int>, h: nat, w: nat)
    requires IsGrid(ws, h, w) && h >= 1 && w >= 1
    requires NonNegative(ws)
    ensures IsSegmentation(ws, Segment(ws, h, w), h, w, |CellIds(Segment(ws, h, w))|)
    ensures |Unique(Segment(ws, h, w))| > 0 && Unique(Segment(ws, h, w))[0] == 0
  {
    var seg := Segment(ws, h, w);
    SegmentNumbering(ws, h, w);
    forall r, c | 0 <= r < h && 0 <= c < w
      ensures Morphology.OnRing(h, w, r, c) ==> seg[r][c] == 0
      ensures seg[r][c] != 0 <==> ws[r][c] != 0 && !BorderCleaner.Touches(ws, Morphology.Ring(h, w), ws[r][c])
    {
      SegmentPixel(ws, h, w, r, c);
    }
    forall r1, c1, r2, c2 |
      0 <= r1 < h && 0 <= c1 < w && 0 <= r2 < h && 0 <= c2 < w && seg[r1][c1] != 0 && seg[r2][c2] != 0
      ensures ws[r1][c1] < ws[r2][c2] <==> seg[r1][c1] < seg[r2][c2]
      ensures ws[r1][c1] == ws[r2][c2] <==> seg[r1][c1] == seg[r2][c2]
    {
      SegmentOrderAt(ws, h, w, r1, c1, r2, c2);
    }
  }

  /** In a segmentation numbered 1..n, every cell has at least one edge pixel
      and no more edge pixels than pixels. */
  lemma EdgeCountsBounded(seg: Grid<int>, h: nat, w: nat, n: nat)
    requires IsGrid(seg, h, w)
    requires forall v :: v != 0 ==> (Occurs(seg, v) <==> 1 <= v <= n)
    ensures forall id :: 1 <= id <= n ==>
      1 <= Count(EqMask(Edges.EdgeMap(seg), id)) <= Count(EqMask(seg, id))
  {
    forall id | 1 <= id <= n
      ensures 1 <= Count(EqMask(Edges.EdgeMap(seg), id)) <= Count(EqMask(seg, id))
    {
      assert Occurs(seg, id);
      EdgeWithinArea(seg, id);
      EdgeCountPositive(seg, h, w, id);
    }
  }

  /** The tutorial's table describes cells 1..N of `seg` in order. */
  predicate TwoChannelMeasured(green: Grid<int>, red: Grid<int>, seg: Grid<int>, t: TwoChannelTable)
    requires SameShape(green, seg) && SameShape(red, seg)
  {
    var n := |t.cellId|;
    var edges := Edges.EdgeMap(seg);
    && |t.greenMean| == n && |t.redMean| == n && |t.greenMemMean| == n && |t.redMemMean| == n
    && |t.cellArea| == n && |t.cellEdge| == n
    && forall j :: 0 <= j < n ==>
      && t.cellId[j] == j + 1
      && t.greenMean[j] == MeanOver(green, EqMask(seg, j + 1))
      && t.redMean[j] == MeanOver(red, EqMask(seg, j + 1))
      && t.greenMemMean[j] == MeanOver(green, EqMask(edges, j + 1))
      && t.redMemMean[j] == MeanOver(red, EqMask(edges, j + 1))
      && t.cellArea[j] == Count(EqMask(seg, j + 1))
      && t.cellEdge[j] == Count(EqMask(edges, j + 1))
      && 1 <= t.cellEdge[j] <= t.cellArea[j]
  }

  /** The batch script's table describes cells 1..N of `seg` in order. */
  predicate OneChannelMeasured(img: Grid<int>, seg: Grid<int>, t: OneChannelTable)
    requires SameShape(img, seg)
  {
    var n := |t.cellId|;
    var edges := Edges.EdgeMap(seg);
    && |t.intMean| == n && |t.intMemMean| == n && |t.cellArea| == n && |t.cellEdge| == n
    && forall j :: 0 <= j < n ==>
      && t.cellId[j] == j + 1
      && t.intMean[j] == MeanOver(img, EqMask(seg, j + 1))
      && t.intMemMean[j] == MeanOver(img, EqMask(edges, j + 1))
      && t.cellArea[j] == Count(EqMask(seg, j + 1))
      && t.cellEdge[j] == Count(EqMask(edges, j + 1))
      && 1 <= t.cellEdge[j] <= t.cellArea[j]
  }

  /** The table the tutorial's loop builds on a segmentation numbered 1..N,
      with 0 as its smallest label, lists cells 1..N in order, each with an
      edge of at least one and at most its area pixels. */
  lemma TwoChannelTableFacts(green: Grid<int>, red: Grid<int>, seg: Grid<int>, h: nat, w: nat, t: TwoChannelTable)
    requires IsGrid(seg, h, w) && IsGrid(green, h, w) && IsGrid(red, h, w)
    requires |Unique(seg)| > 0 && Unique(seg)[0] == 0
    requires forall v :: v != 0 ==> (Occurs(seg, v) <==> 1 <= v <= |CellIds(seg)|)
    requires TwoChannelRows(green, red, seg, Edges.EdgeMap(seg), t)
    ensures TwoChannelMeasured(green, red, seg, t)
  {
    var n := |CellIds(seg)|;
    ZeroFirst(seg);
    CellIdsAscending(seg, n);
    EdgeCountsBounded(seg, h, w, n);
    forall j | 0 <= j < n
      ensures t.cellId[j] == j + 1 && 1 <= t.cellEdge[j] <= t.cellArea[j]
    {
      assert CellIds(seg)[j] == j + 1;
    }
  }

  /** The same for the batch script's table. */
  lemma OneChannelTableFacts(img: Grid<int>, seg: Grid<int>, h: nat, w: nat, t: OneChannelTable)
    requires IsGrid(seg, h, w) && IsGrid(img, h, w)
    requires |Unique(seg)| > 0 && Unique(seg)[0] == 0
    requires forall v :: v != 0 ==> (Occurs(seg, v) <==> 1 <= v <= |CellIds(seg)|)
    requires OneChannelRows(img, seg, Edges.EdgeMap(seg), t)
    ensures OneChannelMeasured(img, seg, t)
  {
    var n := |CellIds(seg)|;
    ZeroFirst(seg);
    CellIdsAscending(seg, n);
    EdgeCountsBounded(seg, h, w, n);
    forall j | 0 <= j < n
      ensures t.cellId[j] == j + 1 && 1 <= t.cellEdge[j] <= t.cellArea[j]
    {
      assert CellIds(seg)[j] == j + 1;
    }
  }

  /** The tutorial's back half: `green` and `red` are `img[0]` and `img[1]`. */
  method TutorialBackHalf(green: Grid<int>, red: Grid<int>, ws: array2<int>)
    returns (clean: array2<int>, results: TwoChannelTable)
    requires IsGrid(green, ws.Length0, ws.Length1) && IsGrid(red, ws.Length0, ws.Length1)
    ensures fresh(clean)
    ensures Snap(clean) == Segment(Snap(ws), ws.Length0, ws.Length1)
    ensures var n := |results.cellId|;
      |results.greenMean| == n && |results.redMean| == n && |results.greenMemMean| == n
      && |results.redMemMean| == n && |results.cellArea| == n && |results.cellEdge| == n
    ensures ws.Length0 >= 1 && ws.Length1 >= 1 && NonNegative(Snap(ws)) ==>
      && IsSegmentation(Snap(ws), Snap(clean), ws.Length0, ws.Length1, |results.cellId|)
      && TwoChannelMeasured(green, red, Snap(clean), results)
  {
    var h, w := ws.Length0, ws.Length1;
    var boundaryMask := Morphology.ErosionRing(h, w);
    Morphology.ErosionRingIsRing(h, w);
    clean := BorderCleaner.RemoveBorderCells(ws, boundaryMask);
    Relabel.RelabelInPlace(clean);
    var edges := Edges.ExtractEdges(clean);
    var seg := Snap(clean);
    results := MeasureTwoChannel(green, red, seg, Snap(edges));
    if h >= 1 && w >= 1 && NonNegative(Snap(ws)) {
      SegmentProperties(Snap(ws), h, w);
      SegmentNumbering(Snap(ws), h, w);
      Edges.LoopGivesEdgeMap(seg);
      TwoChannelTableFacts(green, red, seg, h, w, results);
    }
  }

  /** The batch script's back half, on a single-channel image. */
  method BatchBackHalf(img: Grid<int>, ws: array2<int>)
    returns (clean: array2<int>, results: OneChannelTable)
    requires IsGrid(img, ws.Length0, ws.Length1)
    ensures fresh(clean)
    ensures Snap(clean) == Segment(Snap(ws), ws.Length0, ws.Length1)
    ensures var n := |results.cellId|;
      |results.intMean| == n && |results.intMemMean| == n && |results.cellArea| == n && |results.cellEdge| == n
    ensures ws.Length0 >= 1 && ws.Length1 >= 1 && NonNegative(Snap(ws)) ==>
      && IsSegmentation(Snap(ws), Snap(clean), ws.Length0, ws.Length1, |results.cellId|)
      && OneChannelMeasured(img, Snap(clean), results)
  {
    var h, w := ws.Length0, ws.Length1;
    var borderMask := Morphology.DilationRing(h, w);
    Morphology.DilationRingIsRing(h, w);
    clean := BorderCleaner.RemoveBorderCells(ws, borderMask);
    Relabel.RelabelInPlace(clean);
    var edges := Edges.ExtractEdges(clean);
    var seg := Snap(clean);
    results := MeasureOneChannel(img, seg, Snap(edges));
    if h >= 1 && w >= 1 && NonNegative(Snap(ws)) {
      SegmentProperties(Snap(ws), h, w);
      SegmentNumbering(Snap(ws), h, w);
      Edges.LoopGivesEdgeMap(seg);
      OneChannelTableFacts(img, seg, h, w, results);
    }
  }

  /** Both variants return the same segmentation for the same watershed labels. */
  lemma VariantsAgree(ws: Grid<int>, h: nat, w: nat)
    requires IsGrid(ws, h, w)
    ensures BorderCleaner.RemoveTouching(ws, Morphology.ErosionRing(h, w))
         == BorderCleaner.RemoveTouching(ws, Morphology.DilationRing(h, w))
  {
    Morphology.BorderMasksAgree(h, w);
  }

  /** Removing border cells from the returned segmentation changes nothing:
      its only label on the ring is 0. */
  lemma CleanedFixesSegment(ws: Grid<int>, h: nat, w: nat)
    requires IsGrid(ws, h, w) && h >= 1 && w >= 1
    requires NonNegative(ws)
    ensures Cleaned(Segment(ws, h, w), h, w) == Segment(ws, h, w)
  {
    var seg := Segment(ws, h, w);
    var s := Cleaned(seg, h, w);
    forall r, c | 0 <= r < h && 0 <= c < w ensures s[r][c] == seg[r][c] {
      if BorderCleaner.Touches(seg, Morphology.Ring(h, w), seg[r][c]) {
        var r', c' :| 0 <= r' < h && 0 <= c' < w && seg[r'][c'] == seg[r][c] && Morphology.Ring(h, w)[r'][c'];
        SegmentPixel(ws, h, w, r', c');
      }
    }
    GridEq(s, seg);
  }

  /** Running the back half again on the returned segmentation changes nothing. */
  lemma SegmentIdempotent(ws: Grid<int>, h: nat, w: nat)
    requires IsGrid(ws, h, w) && h >= 1 && w >= 1
    requires NonNegative(ws)
    ensures Segment(Segment(ws, h, w), h, w) == Segment(ws, h, w)
  {
    var seg := Segment(ws, h, w);
    SegmentNumbering(ws, h, w);
    CleanedFixesSegment(ws, h, w);
    var n := |CellIds(seg)|;
    assert forall v :: Occurs(seg, v) <==> 0 <= v < n + 1;
    Relabel.InPlaceIsRankMap(seg);
    RankMapFixesContiguous(seg, n + 1);
  }
}
