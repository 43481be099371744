/** All-pairs shortest paths computed in place (Fig10_53). */
module AllPairs {
  import opened MachineIntegers
  import opened Matrices
  import opened ShortestWalks

  const NOT_A_VERTEX := -1

  /** x is the weight of some walk from i to j. */
  ghost predicate IsWeight(w: Matrix, i: int, j: int, x: int)
    requires Square(w)
  {
    exists v :: Walk(w, v, i, j) && Weight(w, v) == x
  }

  ghost predicate Sound(w: Matrix, d: array2<int>)
    requires Square(w) && d.Length0 == d.Length1 == |w|
    reads d
  {
    (forall i :: 0 <= i < |w| ==> d[i, i] <= 0) &&
    (forall i, j :: 0 <= i < |w| && 0 <= j < |w| ==> IsWeight(w, i, j, d[i, j]))
  }

  ghost predicate ZeroDiag(d: array2<int>)
    requires d.Length0 == d.Length1
    reads d
  {
    forall i :: 0 <= i < d.Length0 ==> d[i, i] == 0
  }

  /** How many vertices cell (i, j) has seen while step k is about to treat cell (r, c). */
  ghost function Level(n: nat, k: nat, r: int, c: int, i: int, j: int): (l: nat)
    requires k <= n
    ensures l <= n
  {
    if k < n && (i < r || (i == r && j < c)) then k + 1 else k
  }

  /** Cell (i, j) holds the value of the recurrence at level l. */
  ghost predicate CellAt(w: Matrix, d: array2<int>, path: array2<int>, l: nat, i: int, j: int)
    requires Square(w) && d.Length0 == d.Length1 == path.Length0 == path.Length1 == |w| && l <= |w|
    requires 0 <= i < |w| && 0 <= j < |w|
    reads d, path
  {
    d[i, j] == Dist(w, l, i, j) && path[i, j] == Via(w, l, i, j)
  }

  /** As long as the diagonal is zero, d and path hold the values of the recurrence. */
  ghost predicate Progress(w: Matrix, d: array2<int>, path: array2<int>, k: nat, r: int, c: int)
    requires Square(w) && d.Length0 == d.Length1 == path.Length0 == path.Length1 == |w| && k <= |w|
    reads d, path
  {
    ZeroDiag(d) ==>
      DiagonalStaysZero(w, k) &&
      forall i, j, l :: 0 <= i < |w| && 0 <= j < |w| && l == Level(|w|, k, r, c, i, j) ==> CellAt(w, d, path, l, i, j)
  }

  lemma JoinWeights(w: Matrix, i: int, k: int, j: int, x: int, y: int)
    requires Square(w) && IsWeight(w, i, k, x) && IsWeight(w, k, j, y)
    ensures IsWeight(w, i, j, x + y)
  {
    var u :| Walk(w, u, i, k) && Weight(w, u) == x;
    var v :| Walk(w, v, k, j) && Weight(w, v) == y;
    JoinWalks(w, u, v, i, k, j);
  }

  lemma EdgeWeight(w: Matrix, i: int, j: int)
    requires Square(w) && 0 <= i < |w| && 0 <= j < |w|
    ensures IsWeight(w, i, j, w[i][j])
  {
    var v := DistIsWeight(w, 0, i, j);
  }

  /** What the test of the innermost statement compares. */
  lemma PivotValues(w: Matrix, d: array2<int>, path: array2<int>, k: nat, i: int, j: int)
    requires Square(w) && d.Length0 == d.Length1 == path.Length0 == path.Length1 == |w| && k < |w|
    requires 0 <= i < |w| && 0 <= j < |w|
    requires Progress(w, d, path, k, i, j) && ZeroDiag(d)
    ensures d[i, k] == Dist(w, k, i, k) && d[k, j] == Dist(w, k, k, j) && CellAt(w, d, path, k, i, j)
  {
    assert CellAt(w, d, path, Level(|w|, k, i, j, i, k), i, k);
    assert CellAt(w, d, path, Level(|w|, k, i, j, k, j), k, j);
    assert CellAt(w, d, path, Level(|w|, k, i, j, i, j), i, j);
  }

  // ---------- Sums of 32 bits ----------

  const MAX_INT := 0x7FFF_FFFF

  /** b, six times as large with every round. */
  function Grown(b: int, k: nat): int {
    if k == 0 then b else 6 * Grown(b, k - 1)
  }

  lemma {:induction false} GrownMonotone(b: int, k: nat, n: nat)
    requires b >= 0 && k <= n
    ensures b <= Grown(b, k) <= Grown(b, n)
    decreases n - k, k
  {
    if k < n {
      GrownMonotone(b, k, n - 1);
    } else if k > 0 {
      GrownMonotone(b, k - 1, k - 1);
    }
  }

  /** Entries at most b in absolute value, and no sum that leaves 32 bits: without negative cycles sums are at most 2b,
      with them an entry can become six times as large in every round. */
  ghost predicate Fits(w: Matrix, b: int)
    requires Square(w)
  {
    b >= 0 && (forall i, j :: 0 <= i < |w| && 0 <= j < |w| ==> -b <= w[i][j] <= b) &&
    if NoNegativeCycle(w) then 2 * b <= MAX_INT else Grown(b, |w|) <= MAX_INT
  }

  /** How low cell (i, j) can be in round k, before cell (r, c) is treated, if no cell was below -m when the
      round began. */
  ghost function Lowest(k: int, r: int, c: int, i: int, j: int, m: int): int {
    if !(i < r || (i == r && j < c)) then -m
    else if i <= k then (if j <= k then -2 * m else -3 * m)
    else if j <= k then -3 * m
    else -6 * m
  }

  ghost predicate Bounded(d: array2<int>, k: int, r: int, c: int, b: int, m: int)
    requires d.Length0 == d.Length1
    reads d
  {
    forall i, j :: 0 <= i < d.Length0 && 0 <= j < d.Length0 ==> Lowest(k, r, c, i, j, m) <= d[i, j] <= b
  }

  /** What keeps every sum of the computation in 32 bits. */
  ghost predicate Safe(w: Matrix, d: array2<int>, k: nat, r: int, c: int, b: int)
    requires Square(w) && d.Length0 == d.Length1 == |w|
    reads d
  {
    !NoNegativeCycle(w) ==> Bounded(d, k, r, c, b, Grown(b, k))
  }

  /** The computation before cell (r, c) of round k; what it has computed means something if the sums fit. */
  ghost predicate Underway(w: Matrix, d: array2<int>, path: array2<int>, k: nat, r: int, c: int, b: int)
    reads d, path
  {
    Square(w) && d.Length0 == d.Length1 == path.Length0 == path.Length1 == |w| && d != path && k <= |w| &&
    (Fits(w, b) ==> Sound(w, d) && Progress(w, d, path, k, r, c) && Safe(w, d, k, r, c, b))
  }

  lemma SumFits(w: Matrix, d: array2<int>, path: array2<int>, k: nat, i: nat, j: nat, b: int)
    requires Underway(w, d, path, k, i, j, b) && k < |w| && i < |w| && j < |w| && Fits(w, b)
    ensures Wrap32(d[i, k] + d[k, j]) == d[i, k] + d[k, j]
  {
    if NoNegativeCycle(w) {
      ZeroDiagKept(w, d);
      PivotValues(w, d, path, k, i, j);
      DistBounded(w, b, k, i, k);
      DistBounded(w, b, k, k, j);
    } else {
      GrownMonotone(b, k, k);
      GrownMonotone(b, k + 1, |w|);
      SumBounded(d, k, i, j, b, Grown(b, k));
    }
    WrapInRange(d[i, k] + d[k, j]);
  }

  /** Without a negative cycle no walk leads below zero on the diagonal. */
  lemma ZeroDiagKept(w: Matrix, d: array2<int>)
    requires Square(w) && d.Length0 == d.Length1 == |w| && NoNegativeCycle(w) && Sound(w, d)
    ensures ZeroDiag(d)
  {
    forall i | 0 <= i < |w| ensures d[i, i] == 0 {
      assert IsWeight(w, i, i, d[i, i]);
    }
  }

  /** A new value is a sum, and no lower than the two entries allow. */
  lemma SumBounded(d: array2<int>, k: nat, i: nat, j: nat, b: int, m: int)
    requires d.Length0 == d.Length1 && k < d.Length0 && i < d.Length0 && j < d.Length0 && 0 <= b <= m
    requires Bounded(d, k, i, j, b, m)
    ensures Lowest(k, i, j + 1, i, j, m) <= d[i, k] + d[k, j] <= 2 * b
    ensures -6 * m <= Lowest(k, i, j + 1, i, j, m)
  {}

  // ---------- The computation ----------

  method UpdateCell(ghost w: Matrix, d: array2<int>, path: array2<int>, k: nat, i: nat, j: nat, ghost b: int)
    requires Underway(w, d, path, k, i, j, b) && k < |w| && i < |w| && j < |w|
    modifies d, path
    ensures Underway(w, d, path, k, i, j + 1, b)
  {
    ghost var m, fits := Grown(b, k), Fits(w, b);
    if fits {
      SumFits(w, d, path, k, i, j, b);
      if !NoNegativeCycle(w) {
        GrownMonotone(b, k, k);
        SumBounded(d, k, i, j, b, m);
      }
    }
    Relax(w, d, path, k, i, j, fits);
    if fits && !NoNegativeCycle(w) {
      assert Bounded(d, k, i, j + 1, b, m);
    }
  }

  /** The innermost statement; its sum is that of two 32-bit integers, and the sum meant if it fits. */
  method Relax(ghost w: Matrix, d: array2<int>, path: array2<int>, k: nat, i: nat, j: nat, ghost fits: bool)
    requires Square(w) && d.Length0 == d.Length1 == path.Length0 == path.Length1 == |w| && d != path
    requires k < |w| && i < |w| && j < |w|
    requires fits ==> Sound(w, d) && Progress(w, d, path, k, i, j)
    requires fits ==> Wrap32(d[i, k] + d[k, j]) == d[i, k] + d[k, j]
    modifies d, path
    ensures fits ==> Sound(w, d) && Progress(w, d, path, k, i, j + 1)
    ensures var sum := Wrap32(old(d[i, k] + d[k, j]));
            d[i, j] == (if sum < old(d[i, j]) then sum else old(d[i, j])) &&
            path[i, j] == if sum < old(d[i, j]) then k else old(path[i, j])
    ensures forall p, q :: 0 <= p < |w| && 0 <= q < |w| && !(p == i && q == j) ==>
              d[p, q] == old(d[p, q]) && path[p, q] == old(path[p, q])
  {
    ghost var zero := fits && ZeroDiag(d);
    if zero {
      PivotValues(w, d, path, k, i, j);
    }
    if fits {
      JoinWeights(w, i, k, j, d[i, k], d[k, j]);
    }
    var sum := Wrap32(d[i, k] + d[k, j]);
    if sum < d[i, j] {
      d[i, j] := sum;
      path[i, j] := k;
      assert fits && i == j ==> d[i, i] < 0;
      assert fits && ZeroDiag(d) ==> zero by {
        if fits && i != j && ZeroDiag(d) {
          assert forall v :: 0 <= v < |w| ==> old(d[v, v]) == d[v, v];
        }
      }
    }
    if zero {
      assert CellAt(w, d, path, k + 1, i, j);
      forall p, q, l | 0 <= p < |w| && 0 <= q < |w| && l == Level(|w|, k, i, j + 1, p, q)
        ensures CellAt(w, d, path, l, p, q)
      {
        if !(p == i && q == j) {
          assert old(CellAt(w, d, path, l, p, q));
        }
      }
    }
  }

  method Initialize(a: array2<int>, d: array2<int>, path: array2<int>)
    requires a.Length0 == a.Length1 == d.Length0 == d.Length1 == path.Length0 == path.Length1
    requires d != path && a != path
    modifies d, path
    ensures forall i, j :: 0 <= i < a.Length0 && 0 <= j < a.Length0 ==>
      d[i, j] == old(a[i, j]) && path[i, j] == -1
  {
    var n := a.Length0;
    for i := 0 to n
      invariant forall r, c :: 0 <= r < i && 0 <= c < n ==> d[r, c] == old(a[r, c]) && path[r, c] == NOT_A_VERTEX
      invariant forall r, c :: 0 <= r < n && 0 <= c < n ==> a[r, c] == old(a[r, c])
    {
      for j := 0 to n
        invariant forall r, c :: 0 <= r < n && 0 <= c < n && (r < i || (r == i && c < j)) ==>
          d[r, c] == old(a[r, c]) && path[r, c] == NOT_A_VERTEX
        invariant forall r, c :: 0 <= r < n && 0 <= c < n ==> a[r, c] == old(a[r, c])
      {
        d[i, j] := a[i, j];
        path[i, j] := NOT_A_VERTEX;
      }
    }
  }

  /** A negative diagonal entry is the sign of a negative cycle. */
  ghost predicate ShowsCycles(w: Matrix, d: array2<int>)
    requires Square(w) && d.Length0 == d.Length1
    reads d
  {
    (exists i :: 0 <= i < d.Length0 && d[i, i] < 0) <==> !NoNegativeCycle(w)
  }

  /** d holds the least weights over all walks, and path expands to walks of these weights. */
  ghost predicate Shortest(w: Matrix, d: array2<int>, path: array2<int>)
    requires Square(w) && d.Length0 == d.Length1 == path.Length0 == path.Length1 == |w|
    reads d, path
  {
    Expandable(Rows(path)) &&
    forall i, j :: 0 <= i < |w| && 0 <= j < |w| ==>
      var v := Expand(Rows(path), i, j);
      IsLeastWeight(w, i, j, d[i, j]) && Walk(w, v, i, j) && Weight(w, v) == d[i, j]
  }

  /** If b bounds the entries so that the sums fit, then either a negative cycle shows on the diagonal, or d holds
      the least weights of all walks and path expands into walks of these weights. */
  method AllPairsShortest(a: array2<int>, d: array2<int>, path: array2<int>, ghost b: int)
    requires a.Length0 == a.Length1 == d.Length0 == d.Length1 == path.Length0 == path.Length1
    requires d != path && a != path
    requires forall i :: 0 <= i < a.Length0 ==> a[i, i] == 0
    modifies d, path
    ensures Fits(old(Rows(a)), b) ==> ShowsCycles(old(Rows(a)), d)
    ensures Fits(old(Rows(a)), b) && NoNegativeCycle(old(Rows(a))) ==> Shortest(old(Rows(a)), d, path)
  {
    ghost var w := Rows(a);
    Initialize(a, d, path);
    Start(w, d, path, b);
    ConsiderAll(w, d, path, b);
    if Fits(w, b) {
      Finish(w, d, path);
    }
  }

  method ConsiderAll(ghost w: Matrix, d: array2<int>, path: array2<int>, ghost b: int)
    requires Underway(w, d, path, 0, 0, 0, b)
    modifies d, path
    ensures Underway(w, d, path, |w|, 0, 0, b)
  {
    for k := 0 to d.Length0
      invariant Underway(w, d, path, k, 0, 0, b)
    {
      ConsiderVertex(w, d, path, k, b);
    }
  }

  /** One round: vertex k as an intermediate, for every pair. */
  method ConsiderVertex(ghost w: Matrix, d: array2<int>, path: array2<int>, k: nat, ghost b: int)
    requires Underway(w, d, path, k, 0, 0, b) && k < |w|
    modifies d, path
    ensures Underway(w, d, path, k + 1, 0, 0, b)
  {
    var n := d.Length0;
    for i := 0 to n
      invariant Underway(w, d, path, k, i, 0, b)
    {
      for j := 0 to n
        invariant Underway(w, d, path, k, i, j, b)
      {
        UpdateCell(w, d, path, k, i, j, b);
      }
      NextRow(w, d, path, k, i, b);
    }
    NextVertex(w, d, path, k, b);
  }

  lemma Start(w: Matrix, d: array2<int>, path: array2<int>, b: int)
    requires Square(w) && d.Length0 == d.Length1 == path.Length0 == path.Length1 == |w| && ZeroDiagonal(w)
    requires forall i, j :: 0 <= i < |w| && 0 <= j < |w| ==> d[i, j] == w[i][j] && path[i, j] == NOT_A_VERTEX
    requires d != path
    ensures Underway(w, d, path, 0, 0, 0, b)
  {
    forall i, j | 0 <= i < |w| && 0 <= j < |w| {
      EdgeWeight(w, i, j);
    }
  }

  lemma NextRow(w: Matrix, d: array2<int>, path: array2<int>, k: nat, i: nat, b: int)
    requires Underway(w, d, path, k, i, |w|, b) && k < |w| && i < |w|
    ensures Underway(w, d, path, k, i + 1, 0, b)
  {}

  lemma NextVertex(w: Matrix, d: array2<int>, path: array2<int>, k: nat, b: int)
    requires Underway(w, d, path, k, |w|, 0, b) && k < |w|
    ensures Underway(w, d, path, k + 1, 0, 0, b)
  {
    if Fits(w, b) {
      GrownMonotone(b, k, k);
      assert Grown(b, k + 1) == 6 * Grown(b, k);
      if ZeroDiag(d) {
        var l := k + 1;
        forall v | 0 <= v < |w| ensures Dist(w, l, v, v) == 0 {
          assert d[v, v] == 0 && CellAt(w, d, path, l, v, v);
        }
      }
    }
  }

  lemma Finish(w: Matrix, d: array2<int>, path: array2<int>)
    requires Square(w) && d.Length0 == d.Length1 == path.Length0 == path.Length1 == |w| && ZeroDiagonal(w)
    requires Sound(w, d) && Progress(w, d, path, |w|, 0, 0)
    ensures ShowsCycles(w, d) && (NoNegativeCycle(w) ==> Shortest(w, d, path))
  {
    DiagonalZeroIffNoNegativeCycle(w);
    if i :| 0 <= i < d.Length0 && d[i, i] < 0 {
      assert IsWeight(w, i, i, d[i, i]);
      var v :| Walk(w, v, i, i) && Weight(w, v) == d[i, i];
    } else {
      assert ZeroDiag(d);
      TablesDone(w, d, path);
    }
  }

  lemma TablesDone(w: Matrix, d: array2<int>, path: array2<int>)
    requires Square(w) && d.Length0 == d.Length1 == path.Length0 == path.Length1 == |w|
    requires Progress(w, d, path, |w|, 0, 0) && ZeroDiag(d)
    ensures Shortest(w, d, path)
  {
    var n := |w|;
    forall i, j | 0 <= i < n && 0 <= j < n
      ensures d[i, j] == Dist(w, n, i, j) && path[i, j] == Via(w, n, i, j)
    {
      assert CellAt(w, d, path, n, i, j);
    }
    TableIsExpandable(w, Rows(d), Rows(path));
    forall i, j | 0 <= i < n && 0 <= j < n
      ensures IsLeastWeight(w, i, j, d[i, j])
      ensures var v := Expand(Rows(path), i, j); Walk(w, v, i, j) && Weight(w, v) == d[i, j]
    {
      DistIsLeast(w, i, j);
      ExpandIsShortest(w, Rows(d), Rows(path), i, j);
    }
  }
}
