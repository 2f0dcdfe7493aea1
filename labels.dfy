/** Distinct label values of a label map (numpy's `np.unique`) and the
    rank map that compacts them: the k-th smallest value becomes k.
 */
module Labels {
  import opened Grids

  predicate Increasing(u: seq<int>) {
    forall i, j :: 0 <= i < j < |u| ==> u[i] < u[j]
  }

  /** Inserts `x` into the strictly increasing `u`, keeping it strictly increasing. */
  function Insert(u: seq<int>, x: int): (s: seq<int>)
    requires Increasing(u)
    ensures Increasing(s)
    ensures forall v :: v in s <==> v in u || v == x
  {
    if |u| == 0 then [x]
    else if x < u[0] then [x] + u
    else if x == u[0] then u
    else
      var rest := Insert(u[1..], x);
      assert forall k :: 0 <= k < |rest| ==> u[0] < rest[k] by {
        forall k | 0 <= k < |rest| ensures u[0] < rest[k] {
          assert rest[k] in rest;
          if rest[k] in u[1..] {
            var i :| 0 <= i < |u[1..]| && u[1..][i] == rest[k];
            assert u[i + 1] == rest[k];
          }
        }
      }
      [u[0]] + rest
  }

  /** Inserts every element of `xs` into `u`. */
  function InsertAll(u: seq<int>, xs: seq<int>): (s: seq<int>)
    requires Increasing(u)
    ensures Increasing(s)
    ensures forall v :: v in s <==> v in u || v in xs
    decreases |xs|
  {
    if |xs| == 0 then u else InsertAll(Insert(u, xs[0]), xs[1..])
  }

  /** `np.unique(g)`: the distinct pixel values of `g`, in ascending order. */
  function Unique(g: Grid<int>): (u: seq<int>)
    ensures Increasing(u)
    ensures forall v :: v in u <==> Occurs(g, v)
  {
    if |g| == 0 then []
    else
      var u := InsertAll(Unique(g[..|g| - 1]), g[|g| - 1]);
      assert forall v :: Occurs(g, v) <==> Occurs(g[..|g| - 1], v) || v in g[|g| - 1] by {
        forall v ensures Occurs(g, v) <==> Occurs(g[..|g| - 1], v) || v in g[|g| - 1] {
          if Occurs(g, v) {
            var r :| 0 <= r < |g| && v in g[r];
            if r < |g| - 1 { assert v in g[..|g| - 1][r]; }
          }
          if Occurs(g[..|g| - 1], v) {
            var r :| 0 <= r < |g| - 1 && v in g[..|g| - 1][r];
            assert v in g[r];
          }
        }
      }
      u
  }

  /** `np.unique(g)[1:]`: the distinct values with the smallest one dropped. */
  function SkipFirst(u: seq<int>): (s: seq<int>)
    ensures |u| > 0 ==> |s| == |u| - 1 && forall k :: 0 <= k < |s| ==> s[k] == u[k + 1]
    ensures |u| == 0 ==> s == []
  {
    if |u| == 0 then [] else u[1..]
  }

  /** Position of `v` in the strictly increasing `u`. */
  function IndexOf(u: seq<int>, v: int): (i: nat)
    requires Increasing(u)
    requires v in u
    ensures i < |u| && u[i] == v
    ensures forall j :: 0 <= j < |u| && u[j] == v ==> j == i
  {
    if u[0] == v then 0 else 1 + IndexOf(u[1..], v)
  }

  /** Every pixel replaced by the rank of its value among the distinct values of `g`:
      the smallest value becomes 0, the next one 1, and so on. */
  function RankMap(g: Grid<int>): (m: Grid<int>)
    ensures SameShape(m, g)
  {
    var u := Unique(g);
    seq(|g|, r requires 0 <= r < |g| =>
      seq(|g[r]|, c requires 0 <= c < |g[r]| =>
        assert Occurs(g, g[r][c]) by { assert g[r][c] in g[r]; }
        IndexOf(u, g[r][c])))
  }

  lemma RankMapAt(g: Grid<int>, r: int, c: int)
    requires 0 <= r < |g| && 0 <= c < |g[r]|
    ensures Occurs(g, g[r][c])
    ensures RankMap(g)[r][c] == IndexOf(Unique(g), g[r][c])
  {
    assert g[r][c] in g[r];
  }

  /** The integers 0, 1, ..., n-1 in order. */
  function Range(n: nat): (s: seq<int>)
    ensures |s| == n && forall k :: 0 <= k < n ==> s[k] == k
  {
    seq(n, k => k)
  }

  /** In a strictly increasing sequence starting at 0, the k-th element is at least k. */
  lemma {:induction false} IncreasingFromZero(u: seq<int>, k: nat)
    requires Increasing(u) && |u| > 0 && u[0] == 0
    requires k < |u|
    ensures u[k] >= k
  {
    if k > 0 {
      IncreasingFromZero(u, k - 1);
    }
  }

  /** A strictly increasing sequence is determined by its elements. */
  lemma {:induction false} IncreasingUnique(a: seq<int>, b: seq<int>)
    requires Increasing(a) && Increasing(b)
    requires forall v :: v in a <==> v in b
    ensures a == b
  {
    if |a| > 0 { assert a[0] in a; assert a[0] in b; }
    if |b| > 0 { assert b[0] in b; assert b[0] in a; }
    if |a| > 0 {
      assert a[0] == b[0] by {
        assert forall j :: 0 <= j < |a| ==> a[0] <= a[j];
        assert forall j :: 0 <= j < |b| ==> b[0] <= b[j];
      }
      forall v ensures v in a[1..] <==> v in b[1..] {
        if v in a[1..] {
          var i :| 0 <= i < |a[1..]| && a[1..][i] == v;
          assert a[0] < a[i + 1];
          assert v in b && v != b[0];
          var j :| 0 <= j < |b| && b[j] == v;
          assert b[1..][j - 1] == v;
        }
        if v in b[1..] {
          var i :| 0 <= i < |b[1..]| && b[1..][i] == v;
          assert b[0] < b[i + 1];
          assert v in a && v != a[0];
          var j :| 0 <= j < |a| && a[j] == v;
          assert a[1..][j - 1] == v;
        }
      }
      IncreasingUnique(a[1..], b[1..]);
    }
  }

  /** The rank map's values are exactly 0 .. N-1, N being the number of distinct labels. */
  lemma RankMapValues(g: Grid<int>)
    ensures forall v :: Occurs(RankMap(g), v) <==> 0 <= v < |Unique(g)|
  {
    var u := Unique(g);
    var m := RankMap(g);
    forall v ensures Occurs(m, v) <==> 0 <= v < |u| {
      if Occurs(m, v) {
        var r :| 0 <= r < |m| && v in m[r];
        var c :| 0 <= c < |m[r]| && m[r][c] == v;
        RankMapAt(g, r, c);
      }
      if 0 <= v < |u| {
        assert Occurs(g, u[v]);
        var r :| 0 <= r < |g| && u[v] in g[r];
        var c :| 0 <= c < |g[r]| && g[r][c] == u[v];
        RankMapAt(g, r, c);
        assert m[r][c] == v;
        assert v in m[r];
      }
    }
  }

  /** The rank map is strictly order preserving: it keeps both the order and the
      equality of labels between any two pixels. */
  lemma RankMapOrder(g: Grid<int>, r1: int, c1: int, r2: int, c2: int)
    requires 0 <= r1 < |g| && 0 <= c1 < |g[r1]|
    requires 0 <= r2 < |g| && 0 <= c2 < |g[r2]|
    ensures g[r1][c1] < g[r2][c2] <==> RankMap(g)[r1][c1] < RankMap(g)[r2][c2]
    ensures g[r1][c1] == g[r2][c2] <==> RankMap(g)[r1][c1] == RankMap(g)[r2][c2]
  {
    RankMapAt(g, r1, c1);
    RankMapAt(g, r2, c2);
  }

  /** When 0 is the smallest label (0 present, no negative label), background stays
      background and every other label gets a positive number. */
  lemma RankMapKeepsZero(g: Grid<int>, r: int, c: int)
    requires |Unique(g)| > 0 && Unique(g)[0] == 0
    requires 0 <= r < |g| && 0 <= c < |g[r]|
    ensures RankMap(g)[r][c] == 0 <==> g[r][c] == 0
  {
    RankMapAt(g, r, c);
  }

  /** 0 is the smallest label exactly when it occurs and no label is negative. */
  lemma {:induction false} ZeroFirst(g: Grid<int>)
    ensures (|Unique(g)| > 0 && Unique(g)[0] == 0) <==> (Occurs(g, 0) && NonNegative(g))
  {
    var u := Unique(g);
    if |u| > 0 && u[0] == 0 {
      assert 0 in u;
      forall r, c | 0 <= r < |g| && 0 <= c < |g[r]| ensures g[r][c] >= 0 {
        assert g[r][c] in g[r];
        assert Occurs(g, g[r][c]);
        var i :| 0 <= i < |u| && u[i] == g[r][c];
        assert i == 0 || u[0] < u[i];
      }
    }
    if Occurs(g, 0) && NonNegative(g) {
      assert 0 in u;
      assert u[0] in u;
      assert Occurs(g, u[0]);
      var r :| 0 <= r < |g| && u[0] in g[r];
      var c :| 0 <= c < |g[r]| && g[r][c] == u[0];
      var i :| 0 <= i < |u| && u[i] == 0;
      assert forall j :: 0 <= j < |u| ==> u[0] <= u[j];
    }
  }

  /** A map whose values are exactly 0 .. n-1 has those values as its `np.unique`. */
  lemma UniqueOfContiguous(g: Grid<int>, n: nat)
    requires forall v :: Occurs(g, v) <==> 0 <= v < n
    ensures Unique(g) == Range(n)
  {
    forall v ensures v in Range(n) <==> 0 <= v < n {
      if 0 <= v < n { assert Range(n)[v] == v; }
    }
    IncreasingUnique(Unique(g), Range(n));
  }

  /** Relabelling a map whose labels are already 0 .. n-1 changes nothing. */
  lemma RankMapFixesContiguous(g: Grid<int>, n: nat)
    requires forall v :: Occurs(g, v) <==> 0 <= v < n
    ensures RankMap(g) == g
  {
    UniqueOfContiguous(g, n);
    forall r, c | 0 <= r < |g| && 0 <= c < |g[r]| ensures RankMap(g)[r][c] == g[r][c] {
      RankMapAt(g, r, c);
    }
    GridEq(RankMap(g), g);
  }

  /** Relabelling is idempotent. */
  lemma RankMapIdempotent(g: Grid<int>)
    ensures RankMap(RankMap(g)) == RankMap(g)
  {
    RankMapValues(g);
    RankMapFixesContiguous(RankMap(g), |Unique(g)|);
  }
}
