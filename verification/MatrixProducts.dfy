/** Multiplying matrices in three loops, and a chain of them in the order that a parenthesization gives: what an order
    costs is the number of scalar multiplications done. */
module MatrixProducts {
  import opened MachineIntegers
  import opened NumberTheory
  import opened OptMatrix

  /** Row i times column j, up to k. */
  ghost function Dot(a: array2<int>, b: array2<int>, i: int, j: int, k: nat): int
    requires a.Length1 == b.Length0 && 0 <= i < a.Length0 && 0 <= j < b.Length1 && k <= a.Length1
    reads a, b
  {
    if k == 0 then 0 else Dot(a, b, i, j, k - 1) + a[i, k - 1] * b[k - 1, j]
  }

  /** Wrapping at each step or at the end makes no difference. */
  lemma Accumulated(x: int, y: int)
    ensures Wrap32(Wrap32(x) + Wrap32(y)) == Wrap32(x + y)
  {
    var n := 0x1_0000_0000;
    assert (x + y) - (Wrap32(x) + Wrap32(y)) == (x - Wrap32(x)) + (y - Wrap32(y));
    DividesCombination(n, x - Wrap32(x), y - Wrap32(y), 1);
    ModEqual(x + y, Wrap32(x) + Wrap32(y), n);
  }

  /** The cells before cell (i, j) are those of the product. */
  ghost predicate Multiplied(a: array2<int>, b: array2<int>, c: array2<int>, i: int, j: int)
    requires a.Length1 == b.Length0 && c.Length0 == a.Length0 && c.Length1 == b.Length1
    reads a, b, c
  {
    forall r, s :: 0 <= r < a.Length0 && 0 <= s < b.Length1 && (r < i || (r == i && s < j)) ==>
      c[r, s] == Wrap32(Dot(a, b, r, s, a.Length1))
  }

  /** Standard multiplication of a p by q and a q by r matrix, with the multiplications counted. */
  method Multiply(a: array2<int>, b: array2<int>) returns (c: array2<int>, ghost count: nat)
    requires a.Length1 == b.Length0
    ensures fresh(c) && c.Length0 == a.Length0 && c.Length1 == b.Length1
    ensures forall i, j :: 0 <= i < a.Length0 && 0 <= j < b.Length1 ==> c[i, j] == Wrap32(Dot(a, b, i, j, a.Length1))
    ensures count == a.Length0 * a.Length1 * b.Length1
  {
    c := new int[a.Length0, b.Length1]((i, j) => 0);
    count := 0;
    for i := 0 to a.Length0
      invariant Multiplied(a, b, c, i, 0) && count == i * a.Length1 * b.Length1
      invariant forall r, s :: i <= r < a.Length0 && 0 <= s < b.Length1 ==> c[r, s] == 0
    {
      ghost var before := count;
      for j := 0 to b.Length1
        invariant Multiplied(a, b, c, i, j) && count == before + j * a.Length1
        invariant forall r, s :: 0 <= r < a.Length0 && 0 <= s < b.Length1 && (r > i || (r == i && s >= j)) ==>
                    c[r, s] == 0
      {
        ghost var more := MultiplyCell(a, b, c, i, j);
        count := count + more;
        NextMultiple(j, a.Length1);
      }
      RowCounted(i, a.Length1, b.Length1);
    }
  }

  lemma NextMultiple(i: int, c: int)
    ensures (i + 1) * c == i * c + c
  {}

  lemma RowCounted(i: int, q: int, r: int)
    ensures (i + 1) * q * r == i * q * r + r * q
  {}

  /** The innermost loop. */
  method MultiplyCell(a: array2<int>, b: array2<int>, c: array2<int>, i: nat, j: nat) returns (ghost count: nat)
    requires a.Length1 == b.Length0 && c != a && c != b && i < a.Length0 && j < b.Length1
    requires c.Length0 == a.Length0 && c.Length1 == b.Length1
    requires Multiplied(a, b, c, i, j) && c[i, j] == 0
    modifies c
    ensures Multiplied(a, b, c, i, j + 1) && count == a.Length1
    ensures forall r, s :: 0 <= r < a.Length0 && 0 <= s < b.Length1 && !(r == i && s == j) ==> c[r, s] == old(c[r, s])
  {
    count := 0;
    for k := 0 to a.Length1
      invariant c[i, j] == Wrap32(Dot(a, b, i, j, k)) && count == k
      invariant forall r, s :: 0 <= r < a.Length0 && 0 <= s < b.Length1 && !(r == i && s == j) ==>
                  c[r, s] == old(c[r, s])
    {
      Accumulated(Dot(a, b, i, j, k), a[i, k] * b[k, j]);
      c[i, j] := Wrap32(c[i, j] + Wrap32(a[i, k] * b[k, j]));
      count := count + 1;
    }
  }

  // ---------- A chain of products ----------

  /** The matrices fit each other: the k-th, counted from 1, has c[k-1] rows and c[k] columns. */
  ghost predicate Chain(ms: seq<array2<int>>, c: seq<int>) {
    |c| == |ms| + 1 && forall k :: 0 <= k < |ms| ==> ms[k].Length0 == c[k] && ms[k].Length1 == c[k + 1]
  }

  /** Multiplying in the order of t takes as many scalar multiplications as t is said to cost. */
  method Evaluate(t: Paren, ms: seq<array2<int>>, ghost c: seq<int>) returns (m: array2<int>, ghost count: int)
    requires Chain(ms, c) && InOrder(t) && 1 <= First(t) && Last(t) <= |ms|
    ensures First(t) <= Last(t) && m.Length0 == c[First(t) - 1] && m.Length1 == c[Last(t)]
    ensures count == Cost(ProductOf(c), t)
    decreases t
  {
    InOrderSpan(t);
    match t {
      case One(k) =>
        m, count := ms[k - 1], 0;
      case Times(t1, t2) =>
        InOrderSpan(t1);
        InOrderSpan(t2);
        var m1, m2;
        ghost var count1, count2, more;
        m1, count1 := Evaluate(t1, ms, c);
        m2, count2 := Evaluate(t2, ms, c);
        m, more := Multiply(m1, m2);
        count := count1 + count2 + more;
    }
  }
}
