/** Relabelling the surviving cells to 1..N.

    The source walks `np.unique(clean_ws)[1:]` with `enumerate`, and for the
    k-th value (counting from 0) writes `k+1` over every pixel that currently
    holds that value, in place.  This is right only because 0 is the smallest
    value present (it is dropped by `[1:]`), so that the k-th remaining value is
    at least k+1 and no write lands on a value still to be processed.
 */
module Relabel {
  import opened Grids
  import opened Labels

  /** The map after the first n iterations of the loop over `rest`. */
  function RelabelSteps(g0: Grid<int>, rest: seq<int>, n: nat): (g: Grid<int>)
    requires n <= |rest|
    ensures SameShape(g, g0)
  {
    if n == 0 then g0
    else
      var prev := RelabelSteps(g0, rest, n - 1);
      Select(EqMask(prev, rest[n - 1]), n, prev)
  }

  /** After n iterations every pixel holds its original label or one of the
      written IDs 1..n. */
  lemma {:induction false} StepsRange(g0: Grid<int>, rest: seq<int>, n: nat)
    requires n <= |rest|
    ensures forall r, c :: 0 <= r < |g0| && 0 <= c < |g0[r]| ==>
      RelabelSteps(g0, rest, n)[r][c] == g0[r][c] || 1 <= RelabelSteps(g0, rest, n)[r][c] <= n
  {
    if n > 0 {
      StepsRange(g0, rest, n - 1);
    }
  }

  /** The map the source's loop leaves behind, as written: every pixel keeps its
      label or holds an ID below the number of distinct labels. */
  function InPlaceRelabel(g: Grid<int>): (s: Grid<int>)
    ensures SameShape(s, g)
    ensures forall r, c :: 0 <= r < |s| && 0 <= c < |s[r]| ==> s[r][c] == g[r][c] || 1 <= s[r][c] < |Unique(g)|
  {
    var rest := SkipFirst(Unique(g));
    StepsRange(g, rest, |rest|);
    RelabelSteps(g, rest, |rest|)
  }

  /** The relabelling loop of both variants, on the array itself. */
  method RelabelInPlace(a: array2<int>)
    modifies a
    ensures Snap(a) == InPlaceRelabel(old(Snap(a)))
  {
    ghost var g0 := Snap(a);
    var rest := SkipFirst(Unique(Snap(a)));
    for newId := 0 to |rest|
      invariant Snap(a) == RelabelSteps(g0, rest, newId)
    {
      var mask := EqMask(Snap(a), rest[newId]);
      SetWhere(a, mask, newId + 1);
    }
  }

  /** No write of the loop lands on a label still to be processed: when 0 is the
      smallest label, iteration k writes k+1, which is at most the label it
      replaces and differs from every later one. */
  lemma NoCollision(g: Grid<int>, k: nat)
    requires |Unique(g)| > 0 && Unique(g)[0] == 0
    requires k < |SkipFirst(Unique(g))|
    ensures k + 1 <= SkipFirst(Unique(g))[k]
    ensures forall j :: k < j < |SkipFirst(Unique(g))| ==> SkipFirst(Unique(g))[j] != k + 1
  {
    IncreasingFromZero(Unique(g), k + 1);
  }

  /** Iteration n writes n over the pixels that hold `rest[n-1]` after the
      earlier iterations, and leaves every other pixel as it was. */
  lemma StepAt(g0: Grid<int>, rest: seq<int>, n: nat, r: int, c: int)
    requires 1 <= n <= |rest|
    requires 0 <= r < |g0| && 0 <= c < |g0[r]|
    ensures var prev := RelabelSteps(g0, rest, n - 1);
      RelabelSteps(g0, rest, n)[r][c] == if prev[r][c] == rest[n - 1] then n else prev[r][c]
  {
  }

  /** Iteration n matches a pixel of rank i exactly when i == n: a pixel the
      earlier iterations wrote holds i < n <= u[n], and an unwritten one holds
      u[i], which differs from u[n] unless i == n. */
  lemma RankStep(u: seq<int>, i: nat, n: nat)
    requires Increasing(u) && |u| > 0 && u[0] == 0
    requires i < |u| && 1 <= n < |u|
    ensures SkipFirst(u)[n - 1] == u[n]
    ensures ((if 1 <= i <= n - 1 then i else u[i]) == u[n]) <==> i == n
  {
    IncreasingFromZero(u, n);
  }

  /** After n iterations, the pixels whose label has rank 1..n carry that rank and
      all others still carry their original label. */
  lemma {:induction false} StepsAt(g: Grid<int>, n: nat, r: int, c: int)
    requires |Unique(g)| > 0 && Unique(g)[0] == 0
    requires n <= |Unique(g)| - 1
    requires 0 <= r < |g| && 0 <= c < |g[r]|
    ensures Occurs(g, g[r][c])
    ensures var i := IndexOf(Unique(g), g[r][c]);
      RelabelSteps(g, SkipFirst(Unique(g)), n)[r][c] == if 1 <= i <= n then i else g[r][c]
  {
    assert g[r][c] in g[r];
    var u := Unique(g);
    var i := IndexOf(u, g[r][c]);
    if n > 0 {
      StepsAt(g, n - 1, r, c);
      StepAt(g, SkipFirst(u), n, r, c);
      RankStep(u, i, n);
    }
  }

  /** At one pixel, the finished loop leaves the rank of the pixel's label. */
  lemma InPlaceAt(g: Grid<int>, r: int, c: int)
    requires |Unique(g)| > 0 && Unique(g)[0] == 0
    requires 0 <= r < |g| && 0 <= c < |g[r]|
    ensures InPlaceRelabel(g)[r][c] == RankMap(g)[r][c]
  {
    var u := Unique(g);
    var rest := SkipFirst(u);
    assert |rest| == |u| - 1;
    assert InPlaceRelabel(g) == RelabelSteps(g, rest, |u| - 1);
    StepsAt(g, |u| - 1, r, c);
    RankMapAt(g, r, c);
    var i := IndexOf(u, g[r][c]);
    if i == 0 {
      assert g[r][c] == u[0];
    }
  }

  /** The in-place loop computes the rank map whenever 0 is the smallest label. */
  lemma InPlaceIsRankMap(g: Grid<int>)
    requires |Unique(g)| > 0 && Unique(g)[0] == 0
    ensures InPlaceRelabel(g) == RankMap(g)
  {
    forall r, c | 0 <= r < |g| && 0 <= c < |g[r]|
      ensures InPlaceRelabel(g)[r][c] == RankMap(g)[r][c]
    {
      InPlaceAt(g, r, c);
    }
    GridEq(InPlaceRelabel(g), RankMap(g));
  }

  /** Contiguity: when 0 is the smallest label, after relabelling the non-zero
      labels are exactly 1..N, N being the number of non-zero labels before. */
  lemma RelabelContiguous(g: Grid<int>)
    requires |Unique(g)| > 0 && Unique(g)[0] == 0
    ensures forall v :: v != 0 ==> (Occurs(InPlaceRelabel(g), v) <==> 1 <= v <= |Unique(g)| - 1)
    ensures Occurs(InPlaceRelabel(g), 0)
  {
    InPlaceIsRankMap(g);
    RankMapValues(g);
  }

  /** Running the loop again on its own output changes nothing. */
  lemma RelabelIdempotent(g: Grid<int>)
    requires |Unique(g)| > 0 && Unique(g)[0] == 0
    ensures InPlaceRelabel(InPlaceRelabel(g)) == InPlaceRelabel(g)
  {
    var n := |Unique(g)|;
    InPlaceIsRankMap(g);
    RankMapValues(g);
    UniqueOfContiguous(RankMap(g), n);
    InPlaceIsRankMap(RankMap(g));
    RankMapIdempotent(g);
  }

  /** Dropping the first distinct value is only right because it is 0: on a map
      without background the loop can merge two cells or reverse their order.
      On `[[1, 2]]` it skips cell 1 and merges both cells. */
  lemma SkippingNonZeroMerges()
    ensures InPlaceRelabel([[1, 2]]) == [[1, 1]]
  {
    var g := [[1, 2]];
    assert forall v :: Occurs(g, v) <==> v in [1, 2] by {
      forall v ensures Occurs(g, v) <==> v in [1, 2] {
        if v in [1, 2] { assert v in g[0]; }
      }
    }
    IncreasingUnique(Unique(g), [1, 2]);
    assert SkipFirst(Unique(g)) == [2];
    var s := RelabelSteps(g, [2], 1);
    assert s == Select(EqMask(g, 2), 1, g);
    assert s[0][0] == 1 && s[0][1] == 1;
    GridEq(s, [[1, 1]]);
  }
}
