/** Optimal order of matrix multiplications (Fig10_46). Matrix i, counted from 1, has c[i-1] rows
    and c[i] columns. */
module OptMatrix {
  import opened MachineIntegers
  import opened Matrices

  const INFINITY := 0x7FFF_FFFF_FFFF_FFFF
  const LIMIT := 0x8000_0000

  // ---------- Parenthesizations ----------

  datatype Paren = One(index: int) | Times(left: Paren, right: Paren)

  function First(t: Paren): int {
    match t case One(i) => i case Times(a, _) => First(a)
  }

  function Last(t: Paren): int {
    match t case One(i) => i case Times(_, b) => Last(b)
  }

  /** t multiplies consecutive matrices, each once and in order. */
  predicate InOrder(t: Paren) {
    match t
    case One(_) => true
    case Times(a, b) => InOrder(a) && InOrder(b) && Last(a) + 1 == First(b)
  }

  predicate Spans(t: Paren, l: int, r: int) {
    InOrder(t) && First(t) == l && Last(t) == r
  }

  /** What one product of two neighbouring ranges l..i and i+1..r costs. */
  type ProductCost = (int, int, int) -> int

  /** Scalar multiplications for a (c[l-1] by c[i]) matrix times a (c[i] by c[r]) matrix. */
  ghost function ProductOf(c: seq<int>): ProductCost {
    (l: int, i: int, r: int) => if 1 <= l <= i <= r < |c| then c[l - 1] * c[i] * c[r] else 0
  }

  /** A product of three, computed with 32 bits. */
  function Product32(x: int, y: int, z: int): int {
    Wrap32(Wrap32(x * y) * z)
  }

  /** What the program takes these numbers for. */
  ghost function ComputedOf(c: seq<int>): (w: ProductCost)
    ensures Computes(w, c)
  {
    (l: int, i: int, r: int) => if 1 <= l <= i <= r < |c| then Product32(c[l - 1], c[i], c[r]) else 0
  }

  ghost predicate Computes(w: ProductCost, c: seq<int>) {
    forall l, i, r :: 1 <= l <= i <= r < |c| ==> ComputesAt(w, c, l, i, r)
  }

  ghost predicate ComputesAt(w: ProductCost, c: seq<int>, l: int, i: int, r: int)
    requires 1 <= l <= i <= r < |c|
  {
    w(l, i, r) == Product32(c[l - 1], c[i], c[r])
  }

  /** No product leaves 32 bits. */
  ghost predicate ProductsFit(c: seq<int>) {
    forall l, i, r :: 1 <= l <= i <= r < |c| ==> ProductFits(c, l, i, r)
  }

  predicate ProductFits(c: seq<int>, l: int, i: int, r: int)
    requires 1 <= l <= i <= r < |c|
  {
    IsInt32(c[l - 1] * c[i]) && IsInt32(c[l - 1] * c[i] * c[r])
  }

  /** Costs depend only on the products of the ranges spanned. */
  lemma {:induction false} SameCosts(c: seq<int>, t: Paren)
    requires ProductsFit(c) && InOrder(t) && 1 <= First(t) && Last(t) < |c|
    ensures Cost(ComputedOf(c), t) == Cost(ProductOf(c), t)
  {
    if t.Times? {
      var l, i, r := First(t), Last(t.left), Last(t);
      InOrderSpan(t.left);
      InOrderSpan(t.right);
      SameCosts(c, t.left);
      SameCosts(c, t.right);
      assert ProductFits(c, l, i, r);
      WrapInRange(c[l - 1] * c[i]);
      WrapInRange(c[l - 1] * c[i] * c[r]);
    }
  }

  lemma LeastCostsMean(c: seq<int>, l: int, r: int, x: int)
    requires ProductsFit(c) && 1 <= l <= r < |c| && IsLeastCost(ComputedOf(c), l, r, x)
    ensures IsLeastCost(ProductOf(c), l, r, x)
  {
    forall t | Spans(t, l, r) ensures Cost(ComputedOf(c), t) == Cost(ProductOf(c), t) {
      SameCosts(c, t);
    }
  }

  function Cost(w: ProductCost, t: Paren): int {
    match t
    case One(_) => 0
    case Times(a, b) => Cost(w, a) + Cost(w, b) + w(First(a), Last(a), Last(b))
  }

  lemma {:induction false} InOrderSpan(t: Paren)
    requires InOrder(t)
    ensures First(t) <= Last(t)
  {
    match t
    case One(_) =>
    case Times(a, b) =>
      InOrderSpan(a);
      InOrderSpan(b);
  }

  /** x is the least cost over all parenthesizations of the matrices l..r. */
  ghost predicate IsLeastCost(w: ProductCost, l: int, r: int, x: int) {
    (exists t :: Spans(t, l, r) && Cost(w, t) == x) &&
    (forall t :: Spans(t, l, r) ==> x <= Cost(w, t))
  }

  // ---------- Sizes ----------

  /** Products of 32 bits, and no more matrices than the dimensions of which fit in an array of 32-bit length. */
  ghost predicate Computable(w: ProductCost, n: int) {
    n < LIMIT - 1 && forall l, i, r :: 1 <= l <= i < r <= n ==> IsInt32(w(l, i, r))
  }

  lemma {:induction false} CostBounded(w: ProductCost, n: int, t: Paren)
    requires Computable(w, n) && InOrder(t) && 1 <= First(t) && Last(t) <= n
    ensures -(Last(t) - First(t)) * LIMIT <= Cost(w, t) <= (Last(t) - First(t)) * LIMIT
  {
    match t
    case One(_) =>
    case Times(a, b) =>
      InOrderSpan(a);
      InOrderSpan(b);
      CostBounded(w, n, a);
      CostBounded(w, n, b);
      assert IsInt32(w(First(a), Last(a), Last(b)));
  }

  // ---------- The principle of optimality ----------

  /** Least costs of two neighbouring ranges give the least cost among the trees that split there. */
  lemma SplitIsLeast(w: ProductCost, l: int, i: int, r: int, x: int, y: int)
    requires IsLeastCost(w, l, i, x) && IsLeastCost(w, i + 1, r, y)
    ensures exists t :: Spans(t, l, r) && Cost(w, t) == x + y + w(l, i, r)
    ensures forall t :: Spans(t, l, r) && t.Times? && Last(t.left) == i ==> x + y + w(l, i, r) <= Cost(w, t)
  {
    var a :| Spans(a, l, i) && Cost(w, a) == x;
    var b :| Spans(b, i + 1, r) && Cost(w, b) == y;
    assert Spans(Times(a, b), l, r) && Cost(w, Times(a, b)) == x + y + w(l, i, r);
    forall t | Spans(t, l, r) && t.Times? && Last(t.left) == i
      ensures x + y + w(l, i, r) <= Cost(w, t)
    {
      assert Spans(t.left, l, i) && Spans(t.right, i + 1, r);
    }
  }

  lemma SingleIsLeast(w: ProductCost, l: int)
    ensures IsLeastCost(w, l, l, 0)
  {
    assert Spans(One(l), l, l);
    forall t | Spans(t, l, l) ensures 0 <= Cost(w, t) {
      if t.Times? {
        InOrderSpan(t.left);
        InOrderSpan(t.right);
        assert false;
      }
    }
  }

  // ---------- The tables ----------

  /** m and lastChange, for matrices numbered 1..n. */
  ghost predicate Sized(n: int, m: Matrix, lastChange: Matrix) {
    n >= -1 && Square(m) && Square(lastChange) && |m| == |lastChange| == n + 1
  }

  ghost predicate Split(w: ProductCost, n: int, m: Matrix, lastChange: Matrix, l: int, r: int)
    requires Sized(n, m, lastChange) && 1 <= l < r <= n
  {
    var i := lastChange[l][r];
    l <= i < r && m[l][r] == m[l][i] + m[i + 1][r] + w(l, i, r)
  }

  /** While the ranges of k + 1 matrices are treated, up to those starting before left. */
  ghost predicate Tables(w: ProductCost, n: int, m: Matrix, lastChange: Matrix, k: int, left: int)
    requires Sized(n, m, lastChange)
  {
    forall l, r {:trigger m[l][r]} :: 1 <= l <= r <= n && (r - l < k || (r - l == k && l < left)) ==>
      IsLeastCost(w, l, r, m[l][r]) && (l < r ==> Split(w, n, m, lastChange, l, r))
  }

  /** Cell (l, r) holds the best of the splits before i. */
  ghost predicate BestOf(w: ProductCost, n: int, m: Matrix, lastChange: Matrix, l: int, r: int, i: int)
    requires Sized(n, m, lastChange) && 1 <= l < r <= n && l <= i <= r
  {
    if i == l then m[l][r] == INFINITY else
    Split(w, n, m, lastChange, l, r) && lastChange[l][r] < i &&
    forall s :: l <= s < i ==> m[l][r] <= m[l][s] + m[s + 1][r] + w(l, s, r)
  }

  lemma LeastCostBounded(w: ProductCost, n: int, l: int, r: int, x: int)
    requires Computable(w, n) && 1 <= l <= r <= n && IsLeastCost(w, l, r, x)
    ensures -(r - l) * LIMIT <= x <= (r - l) * LIMIT
  {
    var t :| Spans(t, l, r) && Cost(w, t) == x;
    CostBounded(w, n, t);
  }

  /** No cost reaches the initial value of the minimum, and so none leaves 64 bits. */
  lemma CostBelowInfinity(w: ProductCost, n: int, l: int, i: int, r: int, x: int, y: int)
    requires Computable(w, n) && 1 <= l <= i < r <= n
    requires IsLeastCost(w, l, i, x) && IsLeastCost(w, i + 1, r, y)
    ensures -INFINITY <= x + y + w(l, i, r) < INFINITY
  {
    LeastCostBounded(w, n, l, i, x);
    LeastCostBounded(w, n, i + 1, r, y);
    assert IsInt32(w(l, i, r));
  }

  /** The best of all splits is the least cost. */
  lemma BestIsLeast(w: ProductCost, n: int, m: Matrix, lastChange: Matrix, l: int, r: int)
    requires Sized(n, m, lastChange) && 1 <= l < r <= n
    requires Tables(w, n, m, lastChange, r - l, l) && BestOf(w, n, m, lastChange, l, r, r)
    ensures Tables(w, n, m, lastChange, r - l, l + 1)
  {
    var i := lastChange[l][r];
    SplitIsLeast(w, l, i, r, m[l][i], m[i + 1][r]);
    forall t | Spans(t, l, r) ensures m[l][r] <= Cost(w, t) {
      InOrderSpan(t.left);
      InOrderSpan(t.right);
      var s := Last(t.left);
      SplitIsLeast(w, l, s, r, m[l][s], m[s + 1][r]);
    }
  }

  /** Matrices that differ at most in one cell. */
  ghost predicate SameBut(a: Matrix, b: Matrix, l: int, r: int) {
    Square(a) && Square(b) && |a| == |b| &&
    forall i, j :: 0 <= i < |a| && 0 <= j < |a| && (i != l || j != r) ==> a[i][j] == b[i][j]
  }

  /** Writing the cell under treatment does not disturb the finished ones. */
  lemma TablesKept(w: ProductCost, n: int, m: Matrix, lastChange: Matrix, m': Matrix, lastChange': Matrix,
                   left: int, right: int)
    requires Sized(n, m, lastChange) && Sized(n, m', lastChange') && 1 <= left < right <= n
    requires SameBut(m, m', left, right) && SameBut(lastChange, lastChange', left, right)
    requires Tables(w, n, m, lastChange, right - left, left)
    ensures Tables(w, n, m', lastChange', right - left, left)
  {}

  lemma SplitTried(w: ProductCost, n: int, m: Matrix, lastChange: Matrix, m': Matrix, lastChange': Matrix,
                   l: int, i: int, r: int)
    requires Sized(n, m, lastChange) && Sized(n, m', lastChange') && 1 <= l <= i < r <= n
    requires SameBut(m, m', l, r) && SameBut(lastChange, lastChange', l, r)
    requires BestOf(w, n, m, lastChange, l, r, i)
    requires var x := m[l][i] + m[i + 1][r] + w(l, i, r);
             x < INFINITY &&
             if x < m[l][r] then m'[l][r] == x && lastChange'[l][r] == i
             else m'[l][r] == m[l][r] && lastChange'[l][r] == lastChange[l][r]
    ensures BestOf(w, n, m', lastChange', l, r, i + 1)
  {}

  method Record(m: array2<int>, lastChange: array2<int>, left: int, right: int, cost: int, i: int)
    requires m != lastChange && m.Length0 == m.Length1 == lastChange.Length0 == lastChange.Length1
    requires 0 <= left < m.Length0 && 0 <= right < m.Length0
    modifies m, lastChange
    ensures SameBut(old(Rows(m)), Rows(m), left, right) && m[left, right] == cost
    ensures SameBut(old(Rows(lastChange)), Rows(lastChange), left, right) && lastChange[left, right] == i
  {
    m[left, right] := cost;
    lastChange[left, right] := i;
  }

  method TrySplit(ghost w: ProductCost, n: int, c: array<int>, m: array2<int>, lastChange: array2<int>,
                  left: int, i: int, right: int)
    requires Sized(n, Rows(m), Rows(lastChange)) && c.Length == n + 1 && m.Length1 == lastChange.Length1 == n + 1
    requires m != lastChange && Computable(w, n) && 1 <= left <= i < right <= n
    requires ComputesAt(w, c[..], left, i, right)
    requires Tables(w, n, Rows(m), Rows(lastChange), right - left, left)
    requires BestOf(w, n, Rows(m), Rows(lastChange), left, right, i)
    modifies m, lastChange
    ensures Tables(w, n, Rows(m), Rows(lastChange), right - left, left)
    ensures BestOf(w, n, Rows(m), Rows(lastChange), left, right, i + 1)
  {
    ghost var m0, lastChange0 := Rows(m), Rows(lastChange);
    CostBelowInfinity(w, n, left, i, right, m0[left][i], m0[i + 1][right]);
    var thisCost := m[left, i] + m[i + 1, right] + Product32(c[left - 1], c[i], c[right]);
    if thisCost < m[left, right] {
      Record(m, lastChange, left, right, thisCost, i);
    }
    TablesKept(w, n, m0, lastChange0, Rows(m), Rows(lastChange), left, right);
    SplitTried(w, n, m0, lastChange0, Rows(m), Rows(lastChange), left, i, right);
  }

  method FillRange(ghost w: ProductCost, n: int, c: array<int>, m: array2<int>, lastChange: array2<int>,
                   left: int, right: int)
    requires Sized(n, Rows(m), Rows(lastChange)) && c.Length == n + 1 && m.Length1 == lastChange.Length1 == n + 1
    requires m != lastChange && Computable(w, n) && Computes(w, c[..]) && 1 <= left < right <= n
    requires Tables(w, n, Rows(m), Rows(lastChange), right - left, left)
    modifies m, lastChange
    ensures Tables(w, n, Rows(m), Rows(lastChange), right - left, left + 1)
  {
    ghost var m0 := Rows(m);
    m[left, right] := INFINITY;
    TablesKept(w, n, m0, Rows(lastChange), Rows(m), Rows(lastChange), left, right);
    for i := left to right
      invariant Tables(w, n, Rows(m), Rows(lastChange), right - left, left)
      invariant BestOf(w, n, Rows(m), Rows(lastChange), left, right, i)
    {
      assert ComputesAt(w, c[..], left, i, right);
      TrySplit(w, n, c, m, lastChange, left, i, right);
    }
    BestIsLeast(w, n, Rows(m), Rows(lastChange), left, right);
  }

  method ClearDiagonal(ghost w: ProductCost, n: int, m: array2<int>, lastChange: array2<int>)
    requires Sized(n, Rows(m), Rows(lastChange)) && m.Length1 == lastChange.Length1 == n + 1 && m != lastChange
    modifies m
    ensures Tables(w, n, Rows(m), Rows(lastChange), 1, 1)
  {
    var left := 1;
    while left <= n
      invariant 1 <= left && forall l :: 1 <= l < left && l <= n ==> m[l, l] == 0
    {
      m[left, left] := 0;
      left := left + 1;
    }
    forall l | 1 <= l <= n {
      SingleIsLeast(w, l);
    }
  }

  /** m holds the least costs, and lastChange the places of the outermost products. */
  method ComputeOptMatrix(c: array<int>, m: array2<int>, lastChange: array2<int>)
    requires m != lastChange
    requires m.Length0 == m.Length1 == lastChange.Length0 == lastChange.Length1 == c.Length
    requires c.Length <= 0x7FFF_FFFF
    modifies m, lastChange
    ensures forall l, r :: 1 <= l <= r < c.Length ==> IsLeastCost(ComputedOf(c[..]), l, r, m[l, r])
    ensures ProductsFit(c[..]) ==>
              forall l, r :: 1 <= l <= r < c.Length ==> IsLeastCost(ProductOf(c[..]), l, r, m[l, r])
    ensures Decodable(ComputedOf(c[..]), c.Length - 1, Rows(m), Rows(lastChange))
    ensures forall l :: 1 <= l < c.Length ==> m[l, l] == 0
    ensures forall l, r :: 1 <= l < r < c.Length ==> BestSplit(c, m, lastChange, l, r)
    ensures ProductsFit(c[..]) ==> forall l :: 1 <= l < c.Length - 1 ==> m[l, l + 1] == c[l - 1] * c[l] * c[l + 1]
  {
    var n := c.Length - 1;
    ghost var w := ComputedOf(c[..]);
    ClearDiagonal(w, n, m, lastChange);
    var k := 1;
    while k < n
      invariant 1 <= k && Tables(w, n, Rows(m), Rows(lastChange), k, 1)
    {
      var left := 1;
      while left <= n - k
        invariant 1 <= left && Tables(w, n, Rows(m), Rows(lastChange), k, left)
      {
        var right := left + k;
        FillRange(w, n, c, m, lastChange, left, right);
        left := left + 1;
      }
      k := k + 1;
    }
    Finish(w, n, Rows(m), Rows(lastChange));
    forall l, r | 1 <= l < r < c.Length ensures BestSplit(c, m, lastChange, l, r) {
      CellIsBest(c, m, lastChange, l, r);
    }
    if ProductsFit(c[..]) {
      TrueCosts(c, m, lastChange);
    }
  }

  /** What the cells mean when no product wraps. */
  lemma TrueCosts(c: array<int>, m: array2<int>, lastChange: array2<int>)
    requires m.Length0 == m.Length1 == lastChange.Length0 == lastChange.Length1 == c.Length && ProductsFit(c[..])
    requires forall l, r :: 1 <= l <= r < c.Length ==> IsLeastCost(ComputedOf(c[..]), l, r, m[l, r])
    requires forall l :: 1 <= l < c.Length ==> m[l, l] == 0
    requires forall l, r :: 1 <= l < r < c.Length ==> BestSplit(c, m, lastChange, l, r)
    ensures forall l, r :: 1 <= l <= r < c.Length ==> IsLeastCost(ProductOf(c[..]), l, r, m[l, r])
    ensures forall l :: 1 <= l < c.Length - 1 ==> m[l, l + 1] == c[l - 1] * c[l] * c[l + 1]
  {
    forall l, r | 1 <= l <= r < c.Length ensures IsLeastCost(ProductOf(c[..]), l, r, m[l, r]) {
      LeastCostsMean(c[..], l, r, m[l, r]);
    }
    forall l | 1 <= l < c.Length - 1 ensures m[l, l + 1] == c[l - 1] * c[l] * c[l + 1] {
      assert BestSplit(c, m, lastChange, l, l + 1) && ProductFits(c[..], l, l, l + 1);
      WrapInRange(c[l - 1] * c[l]);
      WrapInRange(c[l - 1] * c[l] * c[l + 1]);
    }
  }

  lemma Finish(w: ProductCost, n: int, m: Matrix, lastChange: Matrix)
    requires Sized(n, m, lastChange) && Tables(w, n, m, lastChange, n, 1)
    ensures forall l, r :: 1 <= l <= r <= n ==> IsLeastCost(w, l, r, m[l][r])
    ensures Decodable(w, n, m, lastChange)
  {
    forall l | 1 <= l <= n ensures m[l][l] == 0 {
      SingleIsLeast(w, l);
      LeastUnique(w, l, l, 0, m[l][l]);
    }
    forall l, r | 1 <= l < r <= n ensures Split(w, n, m, lastChange, l, r) {
      var x := m[l][r];
    }
  }

  /** Cell (l, r) is the least of the sums over all places to split, written out, and lastChange is such a place. */
  ghost predicate BestSplit(c: array<int>, m: array2<int>, lastChange: array2<int>, l: int, r: int)
    requires m.Length0 == m.Length1 == lastChange.Length0 == lastChange.Length1 == c.Length && 1 <= l < r < c.Length
    reads c, m, lastChange
  {
    l <= lastChange[l, r] < r &&
    (forall i :: l <= i < r ==> m[l, r] <= m[l, i] + m[i + 1, r] + Wrap32(Wrap32(c[l - 1] * c[i]) * c[r])) &&
    var i := lastChange[l, r];
    m[l, r] == m[l, i] + m[i + 1, r] + Wrap32(Wrap32(c[l - 1] * c[i]) * c[r])
  }

  lemma CellIsBest(c: array<int>, m: array2<int>, lastChange: array2<int>, l: int, r: int)
    requires m.Length0 == m.Length1 == lastChange.Length0 == lastChange.Length1 == c.Length && 1 <= l < r < c.Length
    requires forall l, r :: 1 <= l <= r < c.Length ==> IsLeastCost(ComputedOf(c[..]), l, r, m[l, r])
    requires Decodable(ComputedOf(c[..]), c.Length - 1, Rows(m), Rows(lastChange))
    ensures BestSplit(c, m, lastChange, l, r)
  {
    var w, s := ComputedOf(c[..]), lastChange[l, r];
    assert Split(w, c.Length - 1, Rows(m), Rows(lastChange), l, r);
    forall i | l <= i < r
      ensures m[l, r] <= m[l, i] + m[i + 1, r] + Wrap32(Wrap32(c[l - 1] * c[i]) * c[r])
    {
      NoBetterSplit(w, l, i, r, m[l, r], m[l, i], m[i + 1, r]);
      assert ComputesAt(w, c[..], l, i, r);
    }
    assert ComputesAt(w, c[..], l, s, r);
  }

  lemma NoBetterSplit(w: ProductCost, l: int, i: int, r: int, x: int, y: int, z: int)
    requires IsLeastCost(w, l, r, x) && IsLeastCost(w, l, i, y) && IsLeastCost(w, i + 1, r, z)
    ensures x <= y + z + w(l, i, r)
  {
    SplitIsLeast(w, l, i, r, y, z);
  }

  lemma LeastUnique(w: ProductCost, l: int, r: int, x: int, y: int)
    requires IsLeastCost(w, l, r, x) && IsLeastCost(w, l, r, y)
    ensures x == y
  {}

  // ---------- Decoding lastChange ----------

  ghost predicate Decodable(w: ProductCost, n: int, m: Matrix, lastChange: Matrix)
    requires Sized(n, m, lastChange)
  {
    (forall l :: 1 <= l <= n ==> m[l][l] == 0) &&
    (forall l, r :: 1 <= l < r <= n ==> Split(w, n, m, lastChange, l, r))
  }

  /** The parenthesization that lastChange describes. */
  ghost function Decode(w: ProductCost, n: int, m: Matrix, lastChange: Matrix, l: int, r: int): Paren
    requires Sized(n, m, lastChange) && Decodable(w, n, m, lastChange) && 1 <= l <= r <= n
    decreases r - l
  {
    if l == r then One(l) else
    assert Split(w, n, m, lastChange, l, r);
    var i := lastChange[l][r];
    Times(Decode(w, n, m, lastChange, l, i), Decode(w, n, m, lastChange, i + 1, r))
  }

  lemma DecodeMeans(w: ProductCost, n: int, m: Matrix, lastChange: Matrix, l: int, r: int)
    requires Sized(n, m, lastChange) && Decodable(w, n, m, lastChange) && 1 <= l <= r <= n
    ensures l == r ==> Decode(w, n, m, lastChange, l, r) == One(l)
    ensures l < r ==>
              var i := lastChange[l][r];
              l <= i < r &&
              Decode(w, n, m, lastChange, l, r) ==
                Times(Decode(w, n, m, lastChange, l, i), Decode(w, n, m, lastChange, i + 1, r))
  {
    assert l < r ==> Split(w, n, m, lastChange, l, r);
  }

  /** It multiplies l..r, and costs what m says. */
  lemma {:induction false} DecodeCosts(w: ProductCost, n: int, m: Matrix, lastChange: Matrix, l: int, r: int)
    requires Sized(n, m, lastChange) && Decodable(w, n, m, lastChange) && 1 <= l <= r <= n
    ensures Spans(Decode(w, n, m, lastChange, l, r), l, r)
    ensures Cost(w, Decode(w, n, m, lastChange, l, r)) == m[l][r]
    decreases r - l
  {
    if l < r {
      assert Split(w, n, m, lastChange, l, r);
      DecodeCosts(w, n, m, lastChange, l, lastChange[l][r]);
      DecodeCosts(w, n, m, lastChange, lastChange[l][r] + 1, r);
    }
  }
}
