/** The two disjoint set classes over their integer arrays. */
module DisjSetsFast {
  import opened Basics
  import opened DisjointSets

  /** Union without heuristics, find without compression. */
  class DisjSets {
    var s: array<int>
    ghost var rank: seq<nat>

    ghost predicate Valid()
      reads this, s
    {
      Forest(s[..], rank)
    }

    constructor (numElements: nat)
      ensures Valid() && fresh(s) && s.Length == numElements
      ensures forall i :: 0 <= i < numElements ==> Root(s[..], rank, i) == i
    {
      s := new int[numElements](_ => -1);
      rank := seq(numElements, _ => 0);
    }

    method Union(root1: int, root2: int)
      requires Valid() && 0 <= root1 < s.Length && 0 <= root2 < s.Length
      requires root1 != root2 && s[root1] < 0 && s[root2] < 0
      modifies this`rank, s
      ensures Valid() && s[..] == old(s[..])[root2 := root1]
      ensures Merged(old(s[..]), old(rank), s[..], rank, root2, root1)
    {
      ghost var before, rankBefore := s[..], rank;
      s[root2] := root1;
      if rank[root1] <= rank[root2] {
        rank := rank[root1 := rank[root2] + 1];
      }
      assert s[..] == before[root2 := root1][root1 := before[root1]];
      forall i | 0 <= i < s.Length {
        LinkMerges(before, rankBefore, rank, root2, root1, before[root1], i);
      }
    }

    method Find(x: int) returns (r: int)
      requires Valid() && 0 <= x < s.Length
      ensures r == Root(s[..], rank, x)
      decreases MaxOf(rank) - rank[x]
    {
      if s[x] < 0 {
        r := x;
      } else {
        r := Find(s[x]);
      }
    }
  }

  /** Union by height, find with path compression. */
  class DisjSetsFast {
    var s: array<int>
    ghost var rank: seq<nat>

    ghost predicate Valid()
      reads this, s
    {
      Balanced(s[..], rank)
    }

    constructor (numElements: nat)
      ensures Valid() && fresh(s) && s.Length == numElements
      ensures forall i :: 0 <= i < numElements ==> Root(s[..], rank, i) == i
    {
      s := new int[numElements](_ => -1);
      rank := seq(numElements, _ => 0);
      new;
      forall r | 0 <= r < numElements
        ensures Pow2(rank[r]) <= |Members(s[..], rank, r)|
      {
        assert Members(s[..], rank, r) == {r};
      }
    }

    method Union(root1: int, root2: int)
      requires Valid() && 0 <= root1 < s.Length && 0 <= root2 < s.Length
      requires root1 != root2 && s[root1] < 0 && s[root2] < 0
      modifies this`rank, s
      ensures Valid()
      ensures s[..] == old(Unioned(s[..], root1, root2))
      ensures if old(s[root2] < s[root1]) then Merged(old(s[..]), old(rank), s[..], rank, root1, root2)
              else Merged(old(s[..]), old(rank), s[..], rank, root2, root1)
    {
      UnionByHeight(s[..], rank, root1, root2);
      rank := UnionedRank(s[..], rank, root1, root2);
      if s[root2] < s[root1] {
        s[root1] := root2;
      } else {
        if s[root1] == s[root2] {
          s[root1] := s[root1] - 1;
        }
        s[root2] := root1;
      }
      assert s[..] == old(Unioned(s[..], root1, root2));
    }

    method Find(x: int) returns (r: int)
      requires Valid() && 0 <= x < s.Length
      modifies s
      ensures Valid()
      ensures r == old(Root(s[..], rank, x))
      ensures Compressed(old(s[..]), rank, x, s[..]) && SameRoots(old(s[..]), s[..], rank)
      decreases MaxOf(rank) - rank[x]
    {
      ghost var before := s[..];
      if s[x] < 0 {
        r := x;
      } else {
        r := Find(s[x]);
        ghost var mid := s[..];
        s[x] := r;
        assert s[..] == mid[x := r];
        CompressKeepsBalance(before, rank, x, mid);
      }
    }
  }

  // ---------- Runs on both classes ----------

  datatype Op = UnionOp(x: int, y: int) | FindOp(x: int)

  predicate InRange(op: Op, n: int) {
    0 <= op.x < n && (op.UnionOp? ==> 0 <= op.y < n)
  }

  ghost function Initial(n: nat): seq<int> {
    seq(n, i => i)
  }

  /** The partition that a run of unions describes. */
  ghost function Partition(n: nat, ops: seq<Op>): (labels: seq<int>)
    requires forall k :: 0 <= k < |ops| ==> InRange(ops[k], n)
    ensures |labels| == n
  {
    if ops == [] then Initial(n) else
    var labels := Partition(n, ops[..|ops| - 1]);
    var op := ops[|ops| - 1];
    assert InRange(op, n);
    Step(labels, op)
  }

  lemma RelabelSame(labels: seq<int>, a: int, b: int)
    requires 0 <= a < |labels| && 0 <= b < |labels| && labels[a] == labels[b]
    ensures Relabel(labels, a, b) == labels
  {}

  ghost function Step(labels: seq<int>, op: Op): (r: seq<int>)
    requires InRange(op, |labels|)
    ensures |r| == |labels|
  {
    if op.UnionOp? then Relabel(labels, op.x, op.y) else labels
  }

  method PerformNaive(d: DisjSets, op: Op, ghost labels: seq<int>)
    requires d.Valid() && InRange(op, d.s.Length) && Represents(d.s[..], d.rank, labels)
    modifies d`rank, d.s
    ensures d.Valid() && Represents(d.s[..], d.rank, Step(labels, op))
  {
    var root1 := d.Find(op.x);
    if op.UnionOp? {
      var root2 := d.Find(op.y);
      if root1 != root2 {
        ghost var before, rankBefore := d.s[..], d.rank;
        d.Union(root1, root2);
        MergeRepresents(before, rankBefore, d.s[..], d.rank, root2, root1, labels, op.x, op.y);
      } else {
        RelabelSame(labels, op.x, op.y);
      }
    }
  }

  method FindKeeps(d: DisjSetsFast, x: int, ghost labels: seq<int>) returns (r: int)
    requires d.Valid() && 0 <= x < d.s.Length && Represents(d.s[..], d.rank, labels)
    modifies d.s
    ensures d.Valid() && Represents(d.s[..], d.rank, labels)
    ensures r == Root(d.s[..], d.rank, x)
    ensures forall i :: 0 <= i < d.s.Length ==> Root(d.s[..], d.rank, i) == old(Root(d.s[..], d.rank, i))
  {
    ghost var before := d.s[..];
    r := d.Find(x);
    SameRootsRepresents(before, d.s[..], d.rank, labels);
  }

  method PerformFast(d: DisjSetsFast, op: Op, ghost labels: seq<int>)
    requires d.Valid() && InRange(op, d.s.Length) && Represents(d.s[..], d.rank, labels)
    modifies d`rank, d.s
    ensures d.Valid() && Represents(d.s[..], d.rank, Step(labels, op))
  {
    var root1 := FindKeeps(d, op.x, labels);
    if op.UnionOp? {
      var root2 := FindKeeps(d, op.y, labels);
      if root1 != root2 {
        ghost var before, rankBefore := d.s[..], d.rank;
        d.Union(root1, root2);
        if before[root2] < before[root1] {
          MergeRepresents(before, rankBefore, d.s[..], d.rank, root1, root2, labels, op.x, op.y);
        } else {
          MergeRepresents(before, rankBefore, d.s[..], d.rank, root2, root1, labels, op.x, op.y);
        }
      } else {
        RelabelSame(labels, op.x, op.y);
      }
    }
  }

  /** After any run the two classes put the same elements together, and every find of the fast
      class follows at most log2(n) links. */
  method Run(n: nat, ops: seq<Op>) returns (naive: DisjSets, fast: DisjSetsFast)
    requires forall k :: 0 <= k < |ops| ==> InRange(ops[k], n)
    ensures naive.Valid() && fast.Valid() && naive.s.Length == n && fast.s.Length == n
    ensures Represents(naive.s[..], naive.rank, Partition(n, ops))
    ensures Represents(fast.s[..], fast.rank, Partition(n, ops))
    ensures forall i, j :: 0 <= i < n && 0 <= j < n ==>
      (Root(fast.s[..], fast.rank, i) == Root(fast.s[..], fast.rank, j) <==>
       Root(naive.s[..], naive.rank, i) == Root(naive.s[..], naive.rank, j))
    ensures forall i :: 0 <= i < n ==> Pow2(Depth(fast.s[..], fast.rank, i)) <= n
  {
    naive := new DisjSets(n);
    fast := new DisjSetsFast(n);
    assert ops[..0] == [];
    for k := 0 to |ops|
      invariant naive.Valid() && fast.Valid() && naive.s.Length == n && fast.s.Length == n
      invariant fresh(naive) && fresh(fast) && fresh(naive.s) && fresh(fast.s) && naive.s != fast.s
      invariant Represents(naive.s[..], naive.rank, Partition(n, ops[..k]))
      invariant Represents(fast.s[..], fast.rank, Partition(n, ops[..k]))
    {
      ghost var labels := Partition(n, ops[..k]);
      PartitionStep(n, ops, k);
      PerformNaive(naive, ops[k], labels);
      PerformFast(fast, ops[k], labels);
    }
    assert ops[..|ops|] == ops;
    Agreement(naive.s[..], naive.rank, fast.s[..], fast.rank, Partition(n, ops));
  }

  lemma PartitionStep(n: nat, ops: seq<Op>, k: nat)
    requires k < |ops| && forall j :: 0 <= j < |ops| ==> InRange(ops[j], n)
    ensures Partition(n, ops[..k + 1]) == Step(Partition(n, ops[..k]), ops[k])
  {
    assert ops[..k + 1][..k] == ops[..k];
  }

  lemma Agreement(s: seq<int>, rank: seq<nat>, t: seq<int>, rank': seq<nat>, labels: seq<int>)
    requires Represents(s, rank, labels) && Represents(t, rank', labels) && Balanced(t, rank')
    ensures forall i, j :: 0 <= i < |t| && 0 <= j < |t| ==>
      (Root(t, rank', i) == Root(t, rank', j) <==> Root(s, rank, i) == Root(s, rank, j))
    ensures forall i :: 0 <= i < |t| ==> Pow2(Depth(t, rank', i)) <= |t|
  {
    forall i | 0 <= i < |t| {
      DepthIsLogarithmic(t, rank', i);
    }
    forall i, j | 0 <= i < |t| && 0 <= j < |t|
      ensures Root(t, rank', i) == Root(t, rank', j) <==> Root(s, rank, i) == Root(s, rank, j)
    {
      assert Root(t, rank', i) == Root(t, rank', j) <==> labels[i] == labels[j];
    }
  }
}
