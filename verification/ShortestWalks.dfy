/** Walks in a weighted complete digraph, and the recurrence behind all-pairs shortest paths. */
module ShortestWalks {
  import opened Matrices

  ghost predicate ZeroDiagonal(w: Matrix)
    requires Square(w)
  {
    forall i :: 0 <= i < |w| ==> w[i][i] == 0
  }

  // ---------- Walks ----------

  /** A nonempty sequence of vertices; consecutive vertices are joined by the matrix entry. */
  ghost predicate Walk(w: Matrix, v: seq<int>, i: int, j: int) {
    |v| > 0 && v[0] == i && v[|v| - 1] == j && forall t :: 0 <= t < |v| ==> 0 <= v[t] < |w|
  }

  ghost function Weight(w: Matrix, v: seq<int>): int
    requires Square(w) && |v| > 0 && forall t :: 0 <= t < |v| ==> 0 <= v[t] < |w|
  {
    if |v| == 1 then 0 else w[v[0]][v[1]] + Weight(w, v[1..])
  }

  ghost predicate NoNegativeCycle(w: Matrix)
    requires Square(w)
  {
    forall v, i :: Walk(w, v, i, i) ==> Weight(w, v) >= 0
  }

  ghost predicate IsLeastWeight(w: Matrix, i: int, j: int, x: int)
    requires Square(w)
  {
    (exists v :: Walk(w, v, i, j) && Weight(w, v) == x) &&
    (forall v :: Walk(w, v, i, j) ==> x <= Weight(w, v))
  }

  /** A single vertex weighs nothing and an edge its entry; walks add up where they are joined. */
  lemma EdgeWalkWeighs(w: Matrix, i: int, j: int)
    requires Square(w) && 0 <= i < |w| && 0 <= j < |w|
    ensures Walk(w, [i], i, i) && Weight(w, [i]) == 0
    ensures Walk(w, [i, j], i, j) && Weight(w, [i, j]) == w[i][j]
  {
    assert [i, j][1..] == [j];
  }

  /** Walks that share an end are joined there. */
  lemma {:induction false} JoinWalks(w: Matrix, u: seq<int>, v: seq<int>, i: int, k: int, j: int)
    requires Square(w) && Walk(w, u, i, k) && Walk(w, v, k, j)
    ensures Walk(w, u + v[1..], i, j)
    ensures Weight(w, u + v[1..]) == Weight(w, u) + Weight(w, v)
  {
    if |u| == 1 {
      assert u + v[1..] == v;
    } else {
      JoinWalks(w, u[1..], v, u[1], k, j);
      assert (u + v[1..])[1..] == u[1..] + v[1..];
    }
  }

  lemma {:induction false} SplitWalk(w: Matrix, v: seq<int>, i: int, j: int, t: int)
    requires Square(w) && Walk(w, v, i, j) && 0 <= t < |v|
    ensures Walk(w, v[..t + 1], i, v[t]) && Walk(w, v[t..], v[t], j)
    ensures Weight(w, v) == Weight(w, v[..t + 1]) + Weight(w, v[t..])
  {
    if t > 0 {
      SplitWalk(w, v[1..], v[1], j, t - 1);
      assert v[1..][..t] == v[..t + 1][1..];
      assert v[1..][t - 1..] == v[t..];
    }
  }

  // ---------- The recurrence ----------

  /** Least weight with intermediate vertices below k, one vertex added at a time. */
  ghost function Dist(w: Matrix, k: nat, i: int, j: int): int
    requires Square(w) && k <= |w| && 0 <= i < |w| && 0 <= j < |w|
  {
    if k == 0 then w[i][j] else
    var through := Dist(w, k - 1, i, k - 1) + Dist(w, k - 1, k - 1, j);
    if through < Dist(w, k - 1, i, j) then through else Dist(w, k - 1, i, j)
  }

  /** The last vertex that improved the entry, or -1. */
  ghost function Via(w: Matrix, k: nat, i: int, j: int): int
    requires Square(w) && k <= |w| && 0 <= i < |w| && 0 <= j < |w|
  {
    if k == 0 then -1 else
    if Dist(w, k - 1, i, k - 1) + Dist(w, k - 1, k - 1, j) < Dist(w, k - 1, i, j) then k - 1
    else Via(w, k - 1, i, j)
  }

  ghost predicate DiagonalStaysZero(w: Matrix, k: nat)
    requires Square(w) && k <= |w|
  {
    forall l: nat, v :: l <= k && 0 <= v < |w| ==> Dist(w, l, v, v) == 0
  }

  /** With a zero pivot, row and column k keep their values in step k. */
  lemma PivotRowKept(w: Matrix, k: nat, i: int)
    requires Square(w) && k < |w| && 0 <= i < |w| && Dist(w, k, k, k) == 0
    ensures Dist(w, k + 1, i, k) == Dist(w, k, i, k) && Dist(w, k + 1, k, i) == Dist(w, k, k, i)
    ensures Via(w, k + 1, i, k) == Via(w, k, i, k) && Via(w, k + 1, k, i) == Via(w, k, k, i)
  {}

  lemma {:induction false} DistDecreases(w: Matrix, k: nat, l: nat, i: int, j: int)
    requires Square(w) && k <= l <= |w| && 0 <= i < |w| && 0 <= j < |w|
    ensures Dist(w, l, i, j) <= Dist(w, k, i, j)
  {
    if k < l {
      DistDecreases(w, k, l - 1, i, j);
    }
  }

  /** Every value of the recurrence is the weight of some walk. */
  lemma {:induction false} DistIsWeight(w: Matrix, k: nat, i: int, j: int) returns (v: seq<int>)
    requires Square(w) && k <= |w| && 0 <= i < |w| && 0 <= j < |w|
    ensures Walk(w, v, i, j) && Weight(w, v) == Dist(w, k, i, j)
  {
    if k == 0 {
      v := [i, j];
      assert v[1..] == [j];
    } else if Dist(w, k, i, j) == Dist(w, k - 1, i, j) {
      v := DistIsWeight(w, k - 1, i, j);
    } else {
      var u1 := DistIsWeight(w, k - 1, i, k - 1);
      var u2 := DistIsWeight(w, k - 1, k - 1, j);
      JoinWalks(w, u1, u2, i, k - 1, j);
      v := u1 + u2[1..];
    }
  }

  ghost predicate InnerBelow(v: seq<int>, k: int) {
    forall t :: 0 < t < |v| - 1 ==> v[t] < k
  }

  /** No walk with inner vertices below k is lighter than the recurrence says. */
  lemma {:induction false} DistIsLowerBound(w: Matrix, k: nat, v: seq<int>, i: int, j: int)
    requires Square(w) && k <= |w| && DiagonalStaysZero(w, k)
    requires Walk(w, v, i, j) && |v| >= 2 && InnerBelow(v, k)
    ensures Dist(w, k, i, j) <= Weight(w, v)
    decreases k, |v|
  {
    if k == 0 {
      assert |v| == 2;
      assert v[1..] == [j];
    } else if t :| 0 < t < |v| - 1 && v[t] == k - 1 {
      SplitWalk(w, v, i, j, t);
      DistIsLowerBound(w, k, v[..t + 1], i, k - 1);
      DistIsLowerBound(w, k, v[t..], k - 1, j);
      assert Dist(w, k - 1, k - 1, k - 1) == 0;
      PivotRowKept(w, k - 1, i);
      PivotRowKept(w, k - 1, j);
    } else {
      DistIsLowerBound(w, k - 1, v, i, j);
    }
  }

  /** A walk of one vertex weighs what the zero self-loop weighs. */
  lemma DistIsLeast(w: Matrix, i: int, j: int)
    requires Square(w) && DiagonalStaysZero(w, |w|) && 0 <= i < |w| && 0 <= j < |w|
    ensures IsLeastWeight(w, i, j, Dist(w, |w|, i, j))
  {
    var u := DistIsWeight(w, |w|, i, j);
    forall v | Walk(w, v, i, j) ensures Dist(w, |w|, i, j) <= Weight(w, v) {
      if |v| >= 2 {
        DistIsLowerBound(w, |w|, v, i, j);
      }
    }
  }

  /** Without negative cycles the diagonal stays zero, and only then. */
  lemma DiagonalZeroIffNoNegativeCycle(w: Matrix)
    requires Square(w) && ZeroDiagonal(w)
    ensures DiagonalStaysZero(w, |w|) <==> NoNegativeCycle(w)
  {
    if NoNegativeCycle(w) {
      forall l: nat, v | l <= |w| && 0 <= v < |w| ensures Dist(w, l, v, v) == 0 {
        var u := DistIsWeight(w, l, v, v);
        DistDecreases(w, 0, l, v, v);
      }
    }
    if DiagonalStaysZero(w, |w|) {
      forall v, i | Walk(w, v, i, i) ensures Weight(w, v) >= 0 {
        DistIsLeast(w, i, i);
      }
    }
  }

  /** Entries bounded by b keep all values within b, and hence all sums within 2b. */
  lemma DistBounded(w: Matrix, b: int, k: nat, i: int, j: int)
    requires Square(w) && NoNegativeCycle(w) && k <= |w| && 0 <= i < |w| && 0 <= j < |w|
    requires forall p, q :: 0 <= p < |w| && 0 <= q < |w| ==> -b <= w[p][q] <= b
    ensures -b <= Dist(w, k, i, j) <= b
  {
    var u := DistIsWeight(w, k, i, j);
    JoinWalks(w, u, [j, i], i, j, i);
    assert [j, i][1..] == [i];
    assert Weight(w, [j, i]) == w[j][i];
    DistDecreases(w, 0, k, i, j);
  }

  // ---------- Reading shortest walks off the table of last improvements ----------

  ghost predicate Triangle(w: Matrix, i: int, k: int, j: int)
    requires Square(w) && 0 <= i < |w| && 0 <= j < |w| && 0 <= k < |w|
  {
    Dist(w, |w|, i, j) <= Dist(w, |w|, i, k) + Dist(w, |w|, k, j)
  }

  lemma TriangleHolds(w: Matrix, i: int, k: int, j: int)
    requires Square(w) && DiagonalStaysZero(w, |w|) && 0 <= i < |w| && 0 <= j < |w| && 0 <= k < |w|
    ensures Triangle(w, i, k, j)
  {
    var u1 := DistIsWeight(w, |w|, i, k);
    var u2 := DistIsWeight(w, |w|, k, j);
    JoinWalks(w, u1, u2, i, k, j);
    DistIsLeast(w, i, j);
  }

  /** Via names the last step at which the value changed. */
  lemma {:induction false} ViaMeans(w: Matrix, k: nat, i: int, j: int)
    requires Square(w) && k <= |w| && 0 <= i < |w| && 0 <= j < |w|
    ensures var p := Via(w, k, i, j);
            -1 <= p < k && Dist(w, k, i, j) == Dist(w, p + 1, i, j) &&
            (p == -1 ==> Dist(w, k, i, j) == w[i][j]) &&
            (p >= 0 ==> Dist(w, k, i, j) == Dist(w, p, i, p) + Dist(w, p, p, j))
  {
    if k > 0 {
      ViaMeans(w, k - 1, i, j);
    }
  }

  lemma {:induction false} ViaUnchanged(w: Matrix, p: nat, k: nat, i: int, j: int)
    requires Square(w) && p <= k <= |w| && 0 <= i < |w| && 0 <= j < |w|
    requires Dist(w, k, i, j) == Dist(w, p, i, j)
    ensures Via(w, k, i, j) == Via(w, p, i, j)
  {
    if p < k {
      DistDecreases(w, p, k - 1, i, j);
      ViaUnchanged(w, p, k - 1, i, j);
    }
  }

  /** A pair improved last through p splits at p, and both halves were improved before p. */
  lemma ViaSplits(w: Matrix, i: int, j: int)
    requires Square(w) && DiagonalStaysZero(w, |w|) && 0 <= i < |w| && 0 <= j < |w|
    requires Via(w, |w|, i, j) >= 0
    ensures var n, p := |w|, Via(w, |w|, i, j);
            p < n && Dist(w, n, i, j) == Dist(w, n, i, p) + Dist(w, n, p, j) &&
            Via(w, n, i, p) < p && Via(w, n, p, j) < p
  {
    var n, p := |w|, Via(w, |w|, i, j);
    ViaMeans(w, n, i, j);
    TriangleHolds(w, i, p, j);
    DistDecreases(w, p, n, i, p);
    DistDecreases(w, p, n, p, j);
    ViaUnchanged(w, p, n, i, p);
    ViaUnchanged(w, p, n, p, j);
    ViaMeans(w, p, i, p);
    ViaMeans(w, p, p, j);
  }

  /** Expanding a table of last improvements into a walk. */
  ghost function Expand(path: Matrix, i: int, j: int): (v: seq<int>)
    requires Expandable(path) && 0 <= i < |path| && 0 <= j < |path|
    ensures |v| >= 2
    decreases path[i][j] + 1
  {
    var k := path[i][j];
    assert SplitsBelow(path, i, j, k);
    if k == -1 then [i, j] else Expand(path, i, k) + Expand(path, k, j)[1..]
  }

  /** An entry -1 stands for the edge itself, and any other is a vertex on the way. */
  lemma ExpandMeans(path: Matrix, i: int, j: int)
    requires Expandable(path) && 0 <= i < |path| && 0 <= j < |path|
    ensures path[i][j] == -1 ==> Expand(path, i, j) == [i, j]
    ensures path[i][j] != -1 ==>
              var k := path[i][j];
              0 <= k < |path| && Expand(path, i, j) == Expand(path, i, k) + Expand(path, k, j)[1..]
  {
    assert SplitsBelow(path, i, j, path[i][j]);
  }

  /** Intermediate indices strictly decrease, so that expanding ends. */
  ghost predicate Expandable(path: Matrix) {
    Square(path) && forall i, j :: 0 <= i < |path| && 0 <= j < |path| ==> SplitsBelow(path, i, j, path[i][j])
  }

  ghost predicate SplitsBelow(path: Matrix, i: int, j: int, k: int)
    requires Square(path) && 0 <= i < |path| && 0 <= j < |path|
  {
    -1 <= k < |path| && (k >= 0 ==> path[i][k] < k && path[k][j] < k)
  }

  ghost predicate IsTable(w: Matrix, d: Matrix, path: Matrix)
    requires Square(w)
  {
    Square(d) && Square(path) && |d| == |path| == |w| &&
    forall i, j :: 0 <= i < |w| && 0 <= j < |w| ==>
      d[i][j] == Dist(w, |w|, i, j) && path[i][j] == Via(w, |w|, i, j)
  }

  lemma TableIsExpandable(w: Matrix, d: Matrix, path: Matrix)
    requires Square(w) && DiagonalStaysZero(w, |w|) && IsTable(w, d, path)
    ensures Expandable(path)
  {
    forall i, j | 0 <= i < |path| && 0 <= j < |path|
      ensures SplitsBelow(path, i, j, path[i][j])
    {
      ViaMeans(w, |w|, i, j);
      if path[i][j] >= 0 {
        ViaSplits(w, i, j);
      }
    }
  }

  /** The expansion is a walk whose weight is the table entry. */
  lemma {:induction false} ExpandIsShortest(w: Matrix, d: Matrix, path: Matrix, i: int, j: int)
    requires Square(w) && DiagonalStaysZero(w, |w|) && IsTable(w, d, path) && Expandable(path)
    requires 0 <= i < |w| && 0 <= j < |w|
    ensures Walk(w, Expand(path, i, j), i, j) && Weight(w, Expand(path, i, j)) == d[i][j]
    decreases path[i][j] + 1
  {
    ViaMeans(w, |w|, i, j);
    var k := path[i][j];
    assert SplitsBelow(path, i, j, k);
    if k == -1 {
      assert [i, j][1..] == [j];
    } else {
      ViaSplits(w, i, j);
      ExpandIsShortest(w, d, path, i, k);
      ExpandIsShortest(w, d, path, k, j);
      JoinWalks(w, Expand(path, i, k), Expand(path, k, j), i, k, j);
    }
  }
}
