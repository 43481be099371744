/** Union/find over an array of parent links: the naive class, and the one with union by height
    and path compression. Both are compared with a plain labelling of the elements. */
module DisjointSets {
  import opened Basics

  // ---------- Forests of parent links, as values ----------

  ghost function MaxOf(rank: seq<nat>): (m: nat)
    ensures forall i :: 0 <= i < |rank| ==> rank[i] <= m
  {
    if rank == [] then 0 else
    var m := MaxOf(rank[..|rank| - 1]);
    assert forall i :: 0 <= i < |rank| - 1 ==> rank[i] == rank[..|rank| - 1][i];
    if rank[|rank| - 1] > m then rank[|rank| - 1] else m
  }

  /** Links stay inside the array and lead to strictly larger ranks; negative cells are roots. */
  ghost predicate Forest(s: seq<int>, rank: seq<nat>) {
    && |rank| == |s|
    && forall i :: 0 <= i < |s| ==> s[i] < |s| && (s[i] >= 0 ==> rank[i] < rank[s[i]])
  }

  ghost function Root(s: seq<int>, rank: seq<nat>, i: int): (r: int)
    requires Forest(s, rank) && 0 <= i < |s|
    ensures 0 <= r < |s| && s[r] < 0 && rank[i] <= rank[r]
    decreases MaxOf(rank) - rank[i]
  {
    if s[i] < 0 then i else Root(s, rank, s[i])
  }

  /** The number of links that a find follows. */
  ghost function Depth(s: seq<int>, rank: seq<nat>, i: int): nat
    requires Forest(s, rank) && 0 <= i < |s|
    decreases MaxOf(rank) - rank[i]
  {
    if s[i] < 0 then 0 else 1 + Depth(s, rank, s[i])
  }

  /** j lies on the way from i to its root. */
  ghost predicate OnPath(s: seq<int>, rank: seq<nat>, i: int, j: int)
    requires Forest(s, rank) && 0 <= i < |s|
    decreases MaxOf(rank) - rank[i]
  {
    i == j || (s[i] >= 0 && OnPath(s, rank, s[i], j))
  }

  // ---------- Path compression ----------

  /** Linking one element straight to its root moves no element to another root. */
  lemma {:induction false} ShortcutKeepsRoots(s: seq<int>, rank: seq<nat>, x: int, i: int)
    requires Forest(s, rank) && 0 <= x < |s| && s[x] >= 0 && 0 <= i < |s|
    ensures Forest(s[x := Root(s, rank, x)], rank)
    ensures Root(s[x := Root(s, rank, x)], rank, i) == Root(s, rank, i)
    decreases MaxOf(rank) - rank[i]
  {
    if s[i] >= 0 {
      ShortcutKeepsRoots(s, rank, x, s[i]);
    }
  }

  /** t is s with every element on the way from x, except the root, linked to the root. */
  ghost predicate Compressed(s: seq<int>, rank: seq<nat>, x: int, t: seq<int>)
    requires Forest(s, rank) && 0 <= x < |s|
  {
    |t| == |s| && forall i :: 0 <= i < |s| ==>
      t[i] == if OnPath(s, rank, x, i) && s[i] >= 0 then Root(s, rank, x) else s[i]
  }

  ghost predicate SameRoots(s: seq<int>, t: seq<int>, rank: seq<nat>)
    requires Forest(s, rank) && Forest(t, rank)
  {
    forall i :: 0 <= i < |s| ==> Root(t, rank, i) == Root(s, rank, i)
  }

  lemma {:induction false} PathRanks(s: seq<int>, rank: seq<nat>, i: int, j: int)
    requires Forest(s, rank) && 0 <= i < |s| && OnPath(s, rank, i, j)
    ensures 0 <= j < |s| && rank[i] <= rank[j]
    decreases MaxOf(rank) - rank[i]
  {
    if i != j {
      PathRanks(s, rank, s[i], j);
    }
  }

  /** Compressing the path of the parent and then linking x compresses the path of x. */
  lemma CompressStep(s: seq<int>, rank: seq<nat>, x: int, t: seq<int>)
    requires Forest(s, rank) && 0 <= x < |s| && s[x] >= 0
    requires Compressed(s, rank, s[x], t) && Forest(t, rank) && SameRoots(s, t, rank)
    ensures t[x] >= 0
    ensures Compressed(s, rank, x, t[x := Root(s, rank, x)])
    ensures Forest(t[x := Root(s, rank, x)], rank) && SameRoots(s, t[x := Root(s, rank, x)], rank)
  {
    if OnPath(s, rank, s[x], x) {
      PathRanks(s, rank, s[x], x);
      assert false;
    }
    assert t[x] == s[x];
    forall i | 0 <= i < |s| {
      ShortcutKeepsRoots(t, rank, x, i);
    }
  }

  /** After compression the element and everything that was on its way are one link away. */
  lemma CompressedIsShallow(s: seq<int>, rank: seq<nat>, x: int, t: seq<int>, i: int)
    requires Forest(s, rank) && 0 <= x < |s| && Compressed(s, rank, x, t) && Forest(t, rank)
    requires OnPath(s, rank, x, i)
    ensures 0 <= i < |s| && Depth(t, rank, i) <= 1
  {
    PathRanks(s, rank, x, i);
    var r := Root(s, rank, x);
    assert s[r] < 0;
    assert t[r] == s[r];
  }

  // ---------- Union ----------

  /** Linking root a below root b merges their two trees and moves nothing else. */
  lemma {:induction false} LinkMerges(s: seq<int>, rank: seq<nat>, rank': seq<nat>, a: int, b: int, v: int, i: int)
    requires Forest(s, rank) && 0 <= a < |s| && 0 <= b < |s| && a != b && s[a] < 0 && s[b] < 0 && v < 0
    requires 0 <= i < |s|
    requires Forest(s[a := b][b := v], rank')
    ensures var r := Root(s, rank, i);
            Root(s[a := b][b := v], rank', i) == if r == a then b else r
    decreases MaxOf(rank) - rank[i]
  {
    var t := s[a := b][b := v];
    if s[i] >= 0 {
      LinkMerges(s, rank, rank', a, b, v, s[i]);
      assert t[i] == s[i];
    } else if i == a {
      assert Root(t, rank', b) == b;
    }
  }

  // ---------- Sizes and heights ----------

  ghost function Members(s: seq<int>, rank: seq<nat>, r: int): set<int>
    requires Forest(s, rank)
  {
    set i | 0 <= i < |s| && Root(s, rank, i) == r
  }

  /** A root's cell encodes its height, and a root of height h has at least 2^h members. */
  ghost predicate Balanced(s: seq<int>, rank: seq<nat>) {
    Forest(s, rank) &&
    forall r :: 0 <= r < |s| && s[r] < 0 ==>
      rank[r] == -s[r] - 1 && Pow2(rank[r]) <= |Members(s, rank, r)|
  }

  lemma {:induction false} DepthBelowRank(s: seq<int>, rank: seq<nat>, i: int)
    requires Forest(s, rank) && 0 <= i < |s|
    ensures Depth(s, rank, i) + rank[i] <= rank[Root(s, rank, i)]
    decreases MaxOf(rank) - rank[i]
  {
    if s[i] >= 0 {
      DepthBelowRank(s, rank, s[i]);
    }
  }

  ghost function Interval(n: nat): (s: set<int>)
    ensures |s| == n && forall i :: i in s <==> 0 <= i < n
  {
    if n == 0 then {} else Interval(n - 1) + {n - 1}
  }

  /** A find in a balanced forest of n elements follows at most log2(n) links. */
  lemma DepthIsLogarithmic(s: seq<int>, rank: seq<nat>, i: int)
    requires Balanced(s, rank) && 0 <= i < |s|
    ensures Pow2(Depth(s, rank, i)) <= |s|
  {
    var r := Root(s, rank, i);
    DepthBelowRank(s, rank, i);
    Pow2Monotone(Depth(s, rank, i), rank[r]);
    SubsetCard(Members(s, rank, r), Interval(|s|));
  }

  /** What one level of a find with compression does to a balanced forest. */
  lemma CompressKeepsBalance(s: seq<int>, rank: seq<nat>, x: int, mid: seq<int>)
    requires Balanced(s, rank) && 0 <= x < |s| && s[x] >= 0
    requires Compressed(s, rank, s[x], mid) && Forest(mid, rank) && SameRoots(s, mid, rank)
    ensures var t := mid[x := Root(s, rank, x)];
            Compressed(s, rank, x, t) && Balanced(t, rank) && SameRoots(s, t, rank)
  {
    CompressStep(s, rank, x, mid);
    var t := mid[x := Root(s, rank, x)];
    forall r | 0 <= r < |t| && t[r] < 0
      ensures rank[r] == -t[r] - 1 && Pow2(rank[r]) <= |Members(t, rank, r)|
    {
      assert t[r] == s[r];
      assert Members(t, rank, r) == Members(s, rank, r);
    }
  }

  lemma UnionMembers(s: seq<int>, rank: seq<nat>, t: seq<int>, rank': seq<nat>, a: int, b: int, v: int)
    requires Forest(s, rank) && 0 <= a < |s| && 0 <= b < |s| && a != b && s[a] < 0 && s[b] < 0 && v < 0
    requires t == s[a := b][b := v] && Forest(t, rank')
    ensures |Members(t, rank', b)| == |Members(s, rank, a)| + |Members(s, rank, b)|
    ensures forall r :: 0 <= r < |s| && r != a && r != b ==> Members(t, rank', r) == Members(s, rank, r)
  {
    forall i | 0 <= i < |s| {
      LinkMerges(s, rank, rank', a, b, v, i);
    }
    assert Members(t, rank', b) == Members(s, rank, a) + Members(s, rank, b);
    forall r | 0 <= r < |s| && r != a && r != b
      ensures Members(t, rank', r) == Members(s, rank, r)
    {
    }
  }

  /** The cells after union by height; ties go to root1, which grows by one. */
  function Unioned(s: seq<int>, root1: int, root2: int): seq<int>
    requires 0 <= root1 < |s| && 0 <= root2 < |s|
  {
    if s[root2] < s[root1] then s[root1 := root2]
    else if s[root1] == s[root2] then s[root1 := s[root1] - 1][root2 := root1]
    else s[root2 := root1]
  }

  ghost function UnionedRank(s: seq<int>, rank: seq<nat>, root1: int, root2: int): seq<nat>
    requires 0 <= root1 < |s| && 0 <= root2 < |s| && |rank| == |s|
  {
    if s[root1] == s[root2] then rank[root1 := rank[root1] + 1] else rank
  }

  /** From s to t, the tree of loser goes over to winner and nothing else moves. */
  ghost predicate Merged(s: seq<int>, rank: seq<nat>, t: seq<int>, rank': seq<nat>, loser: int, winner: int)
    requires Forest(s, rank) && Forest(t, rank')
  {
    |t| == |s| && forall i :: 0 <= i < |s| ==>
      Root(t, rank', i) == if Root(s, rank, i) == loser then winner else Root(s, rank, i)
  }

  /** The height of root b after a root of smaller or equal height has been linked below it. */
  function NewHeight(s: seq<int>, a: int, b: int): int
    requires 0 <= a < |s| && 0 <= b < |s|
  {
    if s[a] == s[b] then -s[b] else -s[b] - 1
  }

  lemma LinkBalances(s: seq<int>, rank: seq<nat>, a: int, b: int, h: nat, t: seq<int>, rank': seq<nat>)
    requires Balanced(s, rank) && 0 <= a < |s| && 0 <= b < |s| && a != b && s[a] < 0 && s[b] < 0
    requires s[b] <= s[a] && h == NewHeight(s, a, b)
    requires t == s[a := b][b := -1 - h] && rank' == rank[b := h] && Forest(t, rank')
    ensures Balanced(t, rank')
  {
    UnionMembers(s, rank, t, rank', a, b, -1 - h);
    assert Pow2(h) <= Pow2(rank[a]) + Pow2(rank[b]);
    forall r | 0 <= r < |t| && t[r] < 0 && r != b
      ensures rank'[r] == -t[r] - 1 && Pow2(rank'[r]) <= |Members(t, rank', r)|
    {
      assert Members(t, rank', r) == Members(s, rank, r);
    }
  }

  /** Linking the root of smaller or equal height below the other keeps the balance. */
  lemma LinkByHeight(s: seq<int>, rank: seq<nat>, a: int, b: int, h: int, t: seq<int>, rank': seq<nat>)
    requires Balanced(s, rank) && 0 <= a < |s| && 0 <= b < |s| && a != b && s[a] < 0 && s[b] < 0
    requires s[b] <= s[a] && h == NewHeight(s, a, b) && h >= 0
    requires t == s[a := b][b := -1 - h] && rank' == rank[b := h]
    ensures Balanced(t, rank') && Merged(s, rank, t, rank', a, b)
  {
    assert Forest(t, rank');
    LinkBalances(s, rank, a, b, h, t, rank');
    forall i | 0 <= i < |s| {
      LinkMerges(s, rank, rank', a, b, -1 - h, i);
    }
  }

  lemma UnionByHeight(s: seq<int>, rank: seq<nat>, root1: int, root2: int)
    requires Balanced(s, rank) && 0 <= root1 < |s| && 0 <= root2 < |s|
    requires root1 != root2 && s[root1] < 0 && s[root2] < 0
    ensures var t, rank' := Unioned(s, root1, root2), UnionedRank(s, rank, root1, root2);
            Balanced(t, rank') &&
            if s[root2] < s[root1] then Merged(s, rank, t, rank', root1, root2)
            else Merged(s, rank, t, rank', root2, root1)
  {
    var t, rank' := Unioned(s, root1, root2), UnionedRank(s, rank, root1, root2);
    UnionedIsLink(s, rank, root1, root2);
    if s[root2] < s[root1] {
      LinkByHeight(s, rank, root1, root2, NewHeight(s, root1, root2), t, rank');
    } else {
      LinkByHeight(s, rank, root2, root1, NewHeight(s, root2, root1), t, rank');
    }
  }

  lemma UnionedIsLink(s: seq<int>, rank: seq<nat>, root1: int, root2: int)
    requires Balanced(s, rank) && 0 <= root1 < |s| && 0 <= root2 < |s|
    requires root1 != root2 && s[root1] < 0 && s[root2] < 0
    ensures var a, b := if s[root2] < s[root1] then root1 else root2, if s[root2] < s[root1] then root2 else root1;
            NewHeight(s, a, b) >= 0 &&
            Unioned(s, root1, root2) == s[a := b][b := -1 - NewHeight(s, a, b)] &&
            UnionedRank(s, rank, root1, root2) == rank[b := NewHeight(s, a, b)]
  {
  }

  // ---------- The plain partition ----------

  /** Labels merge when b's class takes the label of a's class. */
  ghost function Relabel(labels: seq<int>, a: int, b: int): (r: seq<int>)
    requires 0 <= a < |labels| && 0 <= b < |labels|
    ensures |r| == |labels|
  {
    seq(|labels|, i requires 0 <= i < |labels| => if labels[i] == labels[b] then labels[a] else labels[i])
  }

  /** Then the two classes are one, and the others are as they were. */
  lemma RelabelJoins(labels: seq<int>, a: int, b: int, i: int, j: int)
    requires 0 <= a < |labels| && 0 <= b < |labels| && 0 <= i < |labels| && 0 <= j < |labels|
    ensures Relabel(labels, a, b)[i] == Relabel(labels, a, b)[j] <==>
              labels[i] == labels[j] ||
              ((labels[i] == labels[a] || labels[i] == labels[b]) && (labels[j] == labels[a] || labels[j] == labels[b]))
  {}

  /** Two elements are in one tree exactly if they carry one label. */
  ghost predicate Represents(s: seq<int>, rank: seq<nat>, labels: seq<int>) {
    Forest(s, rank) && |labels| == |s| &&
    forall i, j :: 0 <= i < |s| && 0 <= j < |s| ==>
      (Root(s, rank, i) == Root(s, rank, j) <==> labels[i] == labels[j])
  }

  lemma MergeRepresents(s: seq<int>, rank: seq<nat>, t: seq<int>, rank': seq<nat>, loser: int, winner: int,
                        labels: seq<int>, x: int, y: int)
    requires Represents(s, rank, labels) && Forest(t, rank') && Merged(s, rank, t, rank', loser, winner)
    requires 0 <= x < |s| && 0 <= y < |s|
    requires (Root(s, rank, x) == loser && Root(s, rank, y) == winner) ||
             (Root(s, rank, x) == winner && Root(s, rank, y) == loser)
    ensures Represents(t, rank', Relabel(labels, x, y))
  {
    forall i, j | 0 <= i < |s| && 0 <= j < |s|
      ensures Root(t, rank', i) == Root(t, rank', j) <==> Relabel(labels, x, y)[i] == Relabel(labels, x, y)[j]
    {
      assert Root(s, rank, i) == Root(s, rank, y) <==> labels[i] == labels[y];
      assert Root(s, rank, j) == Root(s, rank, y) <==> labels[j] == labels[y];
      assert Root(s, rank, i) == Root(s, rank, x) <==> labels[i] == labels[x];
      assert Root(s, rank, j) == Root(s, rank, x) <==> labels[j] == labels[x];
    }
  }

  lemma SameRootsRepresents(s: seq<int>, t: seq<int>, rank: seq<nat>, labels: seq<int>)
    requires Represents(s, rank, labels) && Forest(t, rank) && SameRoots(s, t, rank)
    ensures Represents(t, rank, labels)
  {
    forall i, j | 0 <= i < |t| && 0 <= j < |t|
      ensures Root(t, rank, i) == Root(t, rank, j) <==> labels[i] == labels[j]
    {
      assert Root(t, rank, i) == Root(s, rank, i);
      assert Root(t, rank, j) == Root(s, rank, j);
    }
  }
}
