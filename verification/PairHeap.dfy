/** The pairing heap over nodes with links to the leftmost child, the next sibling, and back. */
module PairHeap {
  import opened Basics
  import opened Forests
  import opened PairHeaps

  class PairNode {
    var element: int
    var leftChild: PairNode?
    var nextSibling: PairNode?
    var prev: PairNode?

    constructor (theElement: int)
      ensures element == theElement && leftChild == null && nextSibling == null && prev == null
    {
      element := theElement;
      leftChild := null;
      nextSibling := null;
      prev := null;
    }
  }

  type Trees = Forest<PairNode>

  lemma NodesAllocated(f: Trees)
    ensures forall o :: o in Nodes(f) ==> allocated(o)
  {
    if f.Cons? {
      NodesAllocated(f.child);
      NodesAllocated(f.next);
    }
  }

  /** The links from n on draw f, and lead back: prev is p at n, the parent at a first child, and else the sibling
      before. */
  ghost predicate Rep(f: Trees, n: PairNode?, p: PairNode?)
    reads Nodes(f)
  {
    match f
    case Nil => n == null
    case Cons(node, key, child, next) =>
      n == node && node.element == key && node.prev == p &&
      node !in Nodes(child) && node !in Nodes(next) && Nodes(child) !! Nodes(next) &&
      Rep(child, node.leftChild, node) && Rep(next, node.nextSibling, node)
  }

  /** A root, whose own prev means nothing. */
  ghost predicate RootRep(f: Trees, n: PairNode?)
    reads Nodes(f)
  {
    if f.Nil? then n == null else n == f.node && Rep(f, f.node, f.node.prev)
  }

  type Place = Path<PairNode>

  /** The links from the root r on follow q and arrive at n. */
  ghost predicate PathRep(q: Place, n: PairNode?, r: PairNode)
    reads PathNodes(q)
  {
    match q
    case Top => n == r
    case ToChild(rest, m, key, next) =>
      PathRep(rest, m, r) && m.element == key && m.leftChild == n && (!rest.Top? ==> m.prev == rest.node) &&
      m !in PathNodes(rest) && m !in Nodes(next) && PathNodes(rest) !! Nodes(next) && Rep(next, m.nextSibling, m)
    case ToNext(rest, m, key, child) =>
      PathRep(rest, m, r) && m.element == key && m.nextSibling == n && (!rest.Top? ==> m.prev == rest.node) &&
      m !in PathNodes(rest) && m !in Nodes(child) && PathNodes(rest) !! Nodes(child) && Rep(child, m.leftChild, m)
  }

  ghost predicate At(q: Place, n: PairNode?, f: Trees, r: PairNode)
    reads PathNodes(q), Nodes(f)
  {
    PathRep(q, n, r) && PathNodes(q) !! Nodes(f) &&
    if q.Top? then RootRep(f, n) else Rep(f, n, q.node)
  }

  lemma {:induction false} Rebuilt(q: Place, n: PairNode?, f: Trees, r: PairNode)
    requires At(q, n, f, r)
    ensures RootRep(Close(q, f), r)
  {
    if !q.Top? {
      Rebuilt(q.rest, q.node, Attach(q, f), r);
    }
  }

  /** Where the node p is. */
  lemma {:induction false} Locate(q: Place, n: PairNode, f: Trees, r: PairNode, p: PairNode)
    returns (q': Place, g: Trees)
    requires At(q, n, f, r) && p in Nodes(f)
    ensures g.Cons? && g.node == p && At(q', p, g, r) && Close(q', g) == Close(q, f)
    decreases f
  {
    assert Rep(f.child, n.leftChild, n) && Rep(f.next, n.nextSibling, n);
    if p == n {
      q', g := q, f;
    } else if p in Nodes(f.child) {
      q', g := Locate(ToChild(q, f.node, f.key, f.next), f.child.node, f.child, r, p);
    } else {
      q', g := Locate(ToNext(q, f.node, f.key, f.child), f.next.node, f.next, r, p);
    }
  }

  /** The roots of two trees with no node in common. */
  ghost predicate Linkable(f: Trees, first: PairNode, g: Trees, second: PairNode?)
    reads Nodes(f), Nodes(g)
  {
    RootRep(f, first) && Tree(f) && RootRep(g, second) && Nodes(f) !! Nodes(g)
  }

  ghost function ChildrenOf(f: Trees): Trees {
    if f.Nil? then Nil else f.child
  }

  ghost function OrNone(n: PairNode?): set<PairNode> {
    if n == null then {} else {n}
  }

  /** p is the root r or its leftmost child. */
  ghost predicate OnTop(p: PairNode, r: PairNode?)
    reads r
  {
    r == p || (r != null && r.leftChild == p)
  }

  /** Whatever heap there is at r, it has p in it. */
  lemma OnTopIsIn(f: Trees, p: PairNode, r: PairNode?)
    requires OnTop(p, r) && RootRep(f, r)
    ensures p in Nodes(f)
  {
    assert Rep(f.child, f.node.leftChild, f.node);
  }

  lemma NotAHeap(p: PairNode, r: PairNode?, nodes: set<PairNode>)
    requires OnTop(p, r) && p !in nodes
    ensures !exists f: Trees :: RootRep(f, r) && Nodes(f) == nodes
  {
    forall f: Trees | RootRep(f, r) ensures Nodes(f) != nodes {
      OnTopIsIn(f, p, r);
    }
  }

  ghost predicate TreeAt(t: Trees, n: PairNode?)
    reads Nodes(t)
  {
    t.Cons? ==> RootRep(t, n)
  }

  /** The entries of a point to the trees ts, no two of which share a node; an entry for no tree is of no account. */
  ghost predicate Held(a: seq<PairNode?>, ts: seq<Trees>)
    reads set k, o | 0 <= k < |ts| && o in Nodes(ts[k]) :: o
  {
    |ts| <= |a| && Apart(ts) && forall k :: 0 <= k < |ts| ==> TreeAt(ts[k], a[k])
  }

  class PairHeap {
    var root: PairNode?
    var treeArray: array<PairNode?>
    ghost var shape: Trees
    ghost var Repr: set<object>

    constructor ()
      ensures Valid() && fresh(Repr) && Contents() == {}
    {
      root := null;
      treeArray := new PairNode?[5];
      shape := Nil;
      Repr := {this, treeArray};
    }

    ghost predicate Valid()
      reads this, Repr
    {
      Repr == {this, treeArray} + Nodes(shape) && treeArray.Length > 0 &&
      RootRep(shape, root) && Ordered(shape) && (shape.Cons? ==> Tree(shape))
    }

    /** The nodes handed out by insert and not yet deleted, each with its key. */
    ghost function Contents(): set<(PairNode, int)>
      reads this
    {
      Items(shape)
    }

    /** n, whose own children are t, becomes the leftmost child of parent, whose children are c. */
    method PutFirst(parent: PairNode, n: PairNode, ghost live: bool, ghost c: Trees, ghost t: Trees)
      requires parent != n && (live ==> Rep(c, parent.leftChild, parent) && Rep(t, n.leftChild, n) && n.prev == parent)
      requires live ==> n !in Nodes(c) + Nodes(t) && parent !in Nodes(c) + Nodes(t) && Nodes(c) !! Nodes(t)
      modifies n`nextSibling, OrNone(parent.leftChild)`prev, parent`leftChild
      ensures parent.leftChild == n
      ensures live ==> Rep(Cons(n, n.element, t, c), n, parent)
    {
      n.nextSibling := parent.leftChild;
      if n.nextSibling != null {
        n.nextSibling.prev := n;
      }
      parent.leftChild := n;
    }

    /** first becomes the leftmost child of second. */
    method AttachFirst(first: PairNode, second: PairNode, ghost live: bool, ghost f: Trees, ghost g: Trees)
      requires first != second && (live ==> Linkable(f, first, g, second))
      modifies first, second, second.leftChild
      ensures second.leftChild == first
      ensures live ==> RootRep(Cons(second, g.key, f.(next := g.child), g.next), second)
      ensures live ==> second.prev == old(first.prev)
    {
      assert live ==> Rep(f.child, first.leftChild, first);
      assert live ==> Rep(g.child, second.leftChild, second) && Rep(g.next, second.nextSibling, second);
      second.prev := first.prev;
      first.prev := second;
      assert live ==> OrNone(second.leftChild) <= Nodes(g.child);
      NodesAllocated(g);
      PutFirst(second, first, live, ChildrenOf(g), ChildrenOf(f));
    }

    /** second becomes the leftmost child of first, and its siblings those of first. */
    method AttachSecond(first: PairNode, second: PairNode, ghost live: bool, ghost f: Trees, ghost g: Trees)
      requires first != second && (live ==> Linkable(f, first, g, second))
      modifies first, second, first.leftChild, second.nextSibling
      ensures first.leftChild == second
      ensures live ==> RootRep(Cons(first, f.key, g.(next := f.child), g.next), first)
      ensures live ==> first.prev == old(first.prev)
    {
      assert live ==> Rep(f.child, first.leftChild, first);
      assert live ==> Rep(g.child, second.leftChild, second) && Rep(g.next, second.nextSibling, second);
      second.prev := first;
      first.nextSibling := second.nextSibling;
      if first.nextSibling != null {
        first.nextSibling.prev := first;
      }
      assert live ==> Rep(g.next, first.nextSibling, first) && OrNone(first.leftChild) <= Nodes(f.child);
      NodesAllocated(g);
      PutFirst(first, second, live, ChildrenOf(f), ChildrenOf(g));
    }

    /** Links first and second so that heap order is satisfied, if they are the roots of two trees. */
    method CompareAndLink(first: PairNode, second: PairNode?, ghost live: bool, ghost f: Trees, ghost g: Trees)
      returns (r: PairNode)
      requires first != second && (live ==> Linkable(f, first, g, second))
      modifies first, second, first.leftChild
      modifies if second == null then {} else {second.leftChild, second.nextSibling}
      ensures live ==> RootRep(Link(f, g), r) && r.prev == old(first.prev)
      ensures second != null ==> OnTop(second, r)
    {
      if second == null {
        return first;
      }
      if second.element < first.element {
        AttachFirst(first, second, live, f, g);
        return second;
      } else {
        AttachSecond(first, second, live, f, g);
        return first;
      }
    }

    lemma LinksInside(first: PairNode, second: PairNode?, f: Trees, g: Trees)
      requires Linkable(f, first, g, second)
      ensures first in Nodes(f) && (first.leftChild != null ==> first.leftChild in Nodes(f))
      ensures second != null ==>
                second in Nodes(g) && (second.leftChild != null ==> second.leftChild in Nodes(g)) &&
                (second.nextSibling != null ==> second.nextSibling in Nodes(g))
    {
      assert Rep(f.child, first.leftChild, first);
      if second != null {
        assert Rep(g.child, second.leftChild, second) && Rep(g.next, second.nextSibling, second);
      }
    }

    /** The same for two trees; the root that is left keeps the first one's link back. */
    method LinkTrees(first: PairNode, second: PairNode?, ghost f: Trees, ghost g: Trees) returns (r: PairNode)
      requires Linkable(f, first, g, second)
      modifies Nodes(f), Nodes(g)
      ensures RootRep(Link(f, g), r) && r.prev == old(first.prev)
    {
      LinksInside(first, second, f, g);
      r := CompareAndLink(first, second, true, f, g);
    }

    /** The first entry leads back to parent. */
    ghost predicate HeadBack(parent: PairNode?)
      reads `treeArray, treeArray, if treeArray.Length > 0 then {treeArray[0]} else {}
    {
      treeArray.Length > 0 && treeArray[0] != null && treeArray[0].prev == parent
    }

    /** treeArray[i] = compareAndLink(treeArray[i], treeArray[k]). */
    method LinkEntries(i: nat, k: nat, ghost ts: seq<Trees>, ghost nodes: set<PairNode>, ghost parent: PairNode?)
      returns (ghost us: seq<Trees>)
      requires i < k < |ts| && Held(treeArray[..], ts) && Tree(ts[i]) && Tree(ts[k]) && Within(ts, nodes)
      requires ts[0].Cons? && HeadBack(parent)
      modifies nodes, treeArray
      ensures Within(us, nodes)
      ensures us == ts[i := Link(ts[i], ts[k])][k := Nil] && Held(treeArray[..], us)
      ensures us[0].Cons? && HeadBack(parent)
    {
      forall m | 0 <= m < |ts|
        ensures forall o :: o in Nodes(ts[m]) ==> allocated(o)
      {
        NodesAllocated(ts[m]);
      }
      assert TreeAt(ts[i], treeArray[i]) && TreeAt(ts[k], treeArray[k]) && TreeAt(ts[0], treeArray[0]);
      LinkKeeps(ts[i], ts[k]);
      us := ts[i := Link(ts[i], ts[k])][k := Nil];
      LinkedApart(ts, i, k, nodes, us);
      var r := LinkTrees(treeArray[i], treeArray[k], ts[i], ts[k]);
      treeArray[i] := r;
      forall m | 0 <= m < |us|
        ensures TreeAt(us[m], treeArray[m])
      {
        if m != i && m != k {
          assert TreeAt(ts[m], old(treeArray[m]));
        }
      }
    }

    /** Links pairs from left to right, and an odd tree to the last pair; j is where the last pair is left. */
    method FirstPass(n: nat, ghost ts: seq<Trees>, ghost nodes: set<PairNode>, ghost parent: PairNode?)
      returns (j: int, ghost us: seq<Trees>)
      requires n == |ts| >= 2 && AllTrees(ts) && Held(treeArray[..], ts) && Within(ts, nodes) && HeadBack(parent)
      modifies nodes, treeArray
      ensures Held(treeArray[..], us) && Within(us, nodes) && |us| == n && 0 <= j <= n - 2 && j % 2 == 0
      ensures CombinedAt(ts, us, j) && us[0].Cons? && HeadBack(parent)
    {
      us := ts;
      var i := 0;
      while i + 1 < n
        invariant Paired(ts, us, i) && Held(treeArray[..], us) && Within(us, nodes)
        invariant us[0].Cons? && HeadBack(parent)
        decreases n - i
      {
        PairedStep(ts, us, i);
        us := LinkEntries(i, i + 1, us, nodes, parent);
        i := i + 2;
      }
      j := i - 2;
      if j == n - 3 {
        us := LinkEntries(j, j + 2, us, nodes, parent);
      }
    }

    /** Takes up the pairs from right to left; everything ends up in the first entry. */
    method SecondPass(j0: int, ghost ts: seq<Trees>, ghost us0: seq<Trees>, ghost nodes: set<PairNode>,
                      ghost parent: PairNode?)
      returns (ghost us: seq<Trees>)
      requires CombinedAt(ts, us0, j0) && Held(treeArray[..], us0) && Within(us0, nodes)
      requires us0[0].Cons? && HeadBack(parent)
      modifies nodes, treeArray
      ensures Held(treeArray[..], us) && |us| == |ts| && us[0] == Combined(ts) && HeadBack(parent)
    {
      us := us0;
      var j := j0;
      while j >= 2
        invariant CombinedAt(ts, us, j) && Held(treeArray[..], us) && Within(us, nodes)
        invariant us[0].Cons? && HeadBack(parent)
      {
        CombinedBack(ts, us, j);
        us := LinkEntries(j - 2, j, us, nodes, parent);
        j := j - 2;
      }
      assert ts[0..] == ts;
    }

    method DoubleIfFull(a: array<PairNode?>, index: nat) returns (b: array<PairNode?>)
      requires 0 < a.Length && index <= a.Length
      ensures b.Length > index && b[..index] == a[..index]
      ensures b == a || fresh(b)
    {
      b := a;
      if index == a.Length {
        b := new PairNode?[index * 2];
        for i := 0 to index
          invariant b[..i] == a[..i]
        {
          b[i] := a[i];
        }
      }
    }

    /** What has been stored of the siblings f0: the trees ts, of which the last still has its later siblings. */
    ghost predicate Stored(f0: Trees, ts: seq<Trees>, m: nat, n: PairNode?)
      reads `treeArray, treeArray
      reads set k, o | 0 <= k < |ts| && o in Nodes(ts[k]) :: o
    {
      |ts| == m && 0 < m <= treeArray.Length && Held(treeArray[..], ts) && Within(ts, Nodes(f0)) &&
      (forall k :: 0 <= k < m - 1 ==> Tree(ts[k])) && ts[m - 1].Cons? &&
      n == ts[m - 1].node.nextSibling && Siblings(f0) == ts[..m - 1] + Siblings(ts[m - 1])
    }

    /** Nothing stored yet: n is the first sibling, below a parent that is in no list itself. */
    ghost predicate Unstored(f0: Trees, n: PairNode?)
      reads Nodes(f0)
    {
      f0.Cons? && RootRep(f0, n) && f0.node.prev != null && f0.node.prev !in Nodes(f0)
    }

    /** One more sibling goes into the array and is cut off from the one before. */
    method Store(m: nat, n: PairNode, ghost f0: Trees, ghost ts: seq<Trees>)
      returns (next: PairNode?, ghost us: seq<Trees>)
      requires if m == 0 then Unstored(f0, n) else Stored(f0, ts, m, n)
      requires n.prev != null && m < treeArray.Length
      modifies n.prev`nextSibling, treeArray
      ensures Stored(f0, us, m + 1, next) && n.prev.nextSibling == null
    {
      if m > 0 {
        LastStored(f0, ts, m, n);
        us := StoreLater(m, n, f0, ts);
      } else {
        us := [f0];
        treeArray[m] := n;
        n.prev.nextSibling := null;
        assert TreeAt(f0, treeArray[0]);
        assert [f0][..0] + Siblings(f0) == Siblings(f0);
      }
      next := n.nextSibling;
    }

    method StoreLater(m: nat, n: PairNode, ghost f0: Trees, ghost ts: seq<Trees>) returns (ghost us: seq<Trees>)
      requires 0 < m < treeArray.Length && Stored(f0, ts, m, n) && n.prev == ts[m - 1].node
      requires Rep(ts[m - 1].next, n, n.prev) && Rep(ts[m - 1].child, n.prev.leftChild, n.prev)
      modifies n.prev`nextSibling, treeArray
      ensures Stored(f0, us, m + 1, n.nextSibling) && n.prev.nextSibling == null
    {
      treeArray[m] := n;
      n.prev.nextSibling := null;
      ghost var last := ts[m - 1];
      us := ts[m - 1 := last.(next := Nil)] + [last.next];
      assert TreeAt(last.next, n) && TreeAt(last.(next := Nil), treeArray[m - 1]);
      forall k | 0 <= k < m - 1
        ensures TreeAt(us[k], treeArray[k])
      {
        assert TreeAt(ts[k], old(treeArray[k]));
      }
    }

    lemma LastStored(f0: Trees, ts: seq<Trees>, m: nat, n: PairNode)
      requires Stored(f0, ts, m, n)
      ensures var last := ts[m - 1];
              n.prev == last.node && treeArray[m - 1] == last.node && Rep(last, last.node, last.node.prev) &&
              Rep(last.next, n, last.node) && Rep(last.child, last.node.leftChild, last.node)
    {
      var last := ts[m - 1];
      assert TreeAt(last, treeArray[..][m - 1]) && RootRep(last, treeArray[m - 1]);
      assert Rep(last, last.node, last.node.prev) && Rep(last.next, last.node.nextSibling, last.node);
    }

    lemma AllStored(f0: Trees, ts: seq<Trees>, m: nat)
      requires Stored(f0, ts, m, null)
      ensures ts == Siblings(f0)
    {
      var last := ts[m - 1];
      assert TreeAt(last, treeArray[m - 1]);
      assert Rep(last, last.node, last.node.prev);
      assert Rep(last.next, null, last.node);
      assert Siblings(last) == [last];
    }

    /** Makes room for one more. */
    method EnsureRoom(m: nat, ghost f0: Trees, ghost ts: seq<Trees>, ghost n: PairNode?)
      requires if m == 0 then Unstored(f0, n) else Stored(f0, ts, m, n)
      requires 0 < treeArray.Length && m <= treeArray.Length
      modifies `treeArray
      ensures (treeArray == old(treeArray) || fresh(treeArray)) && m < treeArray.Length
      ensures if m == 0 then Unstored(f0, n) else Stored(f0, ts, m, n)
    {
      forall k | 0 <= k < |ts|
        ensures forall o :: o in Nodes(ts[k]) ==> allocated(o)
      {
        NodesAllocated(ts[k]);
      }
      NodesAllocated(f0);
      ghost var a := treeArray[..];
      treeArray := DoubleIfFull(treeArray, m);
      if m > 0 {
        forall k | 0 <= k < m
          ensures TreeAt(ts[k], treeArray[k])
        {
          assert TreeAt(ts[k], a[k]);
          assert treeArray[..m][k] == a[k];
        }
      }
    }

    /** The storing loop before sibling n, with the parent cut off once the first one is stored. */
    ghost predicate Storing(f0: Trees, ts: seq<Trees>, m: nat, n: PairNode?, parent: PairNode)
      reads `treeArray, treeArray, parent, Nodes(f0)
      reads set k, o | 0 <= k < |ts| && o in Nodes(ts[k]) :: o
      reads OrNone(n)
    {
      |ts| == m <= treeArray.Length && 0 < treeArray.Length && f0.Cons? && f0.node.prev == parent &&
      parent !in Nodes(f0) &&
      (if m == 0 then Unstored(f0, n)
       else Stored(f0, ts, m, n) && parent.nextSibling == null) &&
      (n != null ==> n.prev != null && n.prev in Nodes(f0) + {parent})
    }

    /** One round of the storing loop. */
    method StoreOne(m: nat, n: PairNode, ghost f0: Trees, ghost ts: seq<Trees>, ghost parent: PairNode)
      returns (next: PairNode?, ghost us: seq<Trees>)
      requires Storing(f0, ts, m, n, parent)
      modifies Nodes(f0)`nextSibling, parent`nextSibling, treeArray, `treeArray
      ensures Storing(f0, us, m + 1, next, parent) && (treeArray == old(treeArray) || fresh(treeArray))
      ensures Unseen(f0, us) < Unseen(f0, ts)
    {
      if m > 0 {
        LastStored(f0, ts, m, n);
      }
      EnsureRoom(m, f0, ts, n);
      next, us := Store(m, n, f0, ts);
      if next != null {
        LastStored(f0, us, m + 1, next);
      }
    }

    /** How many siblings the storing loop has not yet cut off. */
    ghost function Unseen(f0: Trees, ts: seq<Trees>): nat {
      if ts == [] then 1 + |Siblings(f0)| else |Siblings(ts[|ts| - 1])|
    }

    /** Stores the siblings in the array and breaks the links between them. */
    method StoreAll(first: PairNode, ghost f0: Trees, ghost parent: PairNode)
      returns (numSiblings: nat, ghost ts: seq<Trees>)
      requires Storing(f0, [], 0, first, parent)
      modifies Nodes(f0)`nextSibling, parent`nextSibling, treeArray, `treeArray
      ensures treeArray == old(treeArray) || fresh(treeArray)
      ensures numSiblings == |ts| && ts == Siblings(f0) && numSiblings < treeArray.Length
      ensures Held(treeArray[..], ts) && Within(ts, Nodes(f0))
      ensures HeadBack(parent) && parent.nextSibling == null
    {
      var firstSibling: PairNode? := first;
      numSiblings, ts := 0, [];
      NodesAllocated(f0);
      while firstSibling != null
        invariant treeArray == old(treeArray) || fresh(treeArray)
        invariant Storing(f0, ts, numSiblings, firstSibling, parent)
        decreases Unseen(f0, ts)
      {
        firstSibling, ts := StoreOne(numSiblings, firstSibling, f0, ts, parent);
        numSiblings := numSiblings + 1;
      }
      EndStored(f0, ts, numSiblings, parent);
    }

    /** After the last sibling, a null entry. */
    method EndStored(ghost f0: Trees, ghost ts: seq<Trees>, numSiblings: nat, ghost parent: PairNode)
      requires Storing(f0, ts, numSiblings, null, parent)
      modifies treeArray, `treeArray
      ensures treeArray == old(treeArray) || fresh(treeArray)
      ensures numSiblings == |ts| && ts == Siblings(f0) && numSiblings < treeArray.Length
      ensures Held(treeArray[..], ts) && Within(ts, Nodes(f0))
      ensures HeadBack(parent) && parent.nextSibling == null
    {
      AllStored(f0, ts, numSiblings);
      assert TreeAt(ts[0], treeArray[0]);
      EnsureRoom(numSiblings, f0, ts, null);
      assert TreeAt(ts[0], treeArray[0]);
      EndWithNull(numSiblings, ts);
    }

    method EndWithNull(m: nat, ghost ts: seq<Trees>)
      requires 0 < m == |ts| < treeArray.Length && Held(treeArray[..], ts)
      modifies treeArray
      ensures Held(treeArray[..], ts) && treeArray[0] == old(treeArray[0])
    {
      ghost var a := treeArray[..];
      treeArray[m] := null;
      forall k | 0 <= k < m
        ensures TreeAt(ts[k], treeArray[k])
      {
        assert TreeAt(ts[k], a[k]);
      }
    }

    /** Two-pass merging of the siblings f0. */
    method CombineSiblings(firstSibling: PairNode, ghost f0: Trees) returns (r: PairNode, ghost t: Trees)
      requires Unstored(f0, firstSibling) && 0 < treeArray.Length
      modifies Nodes(f0), firstSibling.prev`nextSibling, treeArray, `treeArray
      ensures treeArray.Length > 0 && (treeArray == old(treeArray) || fresh(treeArray))
      ensures t == Merged(f0) && RootRep(t, r) && r.prev == old(firstSibling.prev)
      ensures old(firstSibling.prev.nextSibling) == null ==> old(firstSibling.prev).nextSibling == null
    {
      assert Rep(f0.next, firstSibling.nextSibling, firstSibling);
      if firstSibling.nextSibling == null {
        return firstSibling, f0;
      }
      ghost var nodes, parent := Nodes(f0), firstSibling.prev;
      var numSiblings, ts := StoreAll(firstSibling, f0, parent);
      assert Siblings(f0.next) == Siblings(f0)[1..] && |Siblings(f0.next)| > 0;
      var j, us := FirstPass(numSiblings, ts, nodes, parent);
      us := SecondPass(j, ts, us, nodes, parent);
      assert TreeAt(us[0], treeArray[0]);
      r, t := treeArray[0], us[0];
    }

    method Insert(x: int) returns (newNode: PairNode)
      requires Valid()
      modifies Repr
      ensures Valid() && fresh(Repr - old(Repr))
      ensures fresh(newNode) && Contents() == old(Contents()) + {(newNode, x)}
      ensures root != null && root.prev == if old(root) == null then null else old(root.prev)
    {
      NodesAllocated(shape);
      newNode := new PairNode(x);
      ghost var t := Cons(newNode, x, Nil, Nil);
      if root == null {
        root := newNode;
      } else {
        LinkKeeps(shape, t);
        t := Link(shape, t);
        var r := LinkTrees(root, newNode, shape, Cons(newNode, x, Nil, Nil));
        root := r;
      }
      shape := t;
      Repr := Repr + {newNode};
    }

    method FindMin() returns (answer: Option<int>)
      requires Valid()
      ensures answer.None? <==> Contents() == {}
      ensures answer.Some? ==> exists e :: Least(e, Contents()) && e.1 == answer.value
      ensures answer.Some? ==> forall e :: e in Contents() ==> answer.value <= e.1
    {
      if root == null {
        return None;
      }
      RootIsLeast(shape);
      return Some(root.element);
    }

    /** Takes out an entry with a least key. The node stays as it was, but for its sibling link, and the new root
        leads back to it. */
    method DeleteMin() returns (answer: Option<int>)
      requires Valid()
      modifies Repr
      ensures Valid() && fresh(Repr - old(Repr))
      ensures answer.None? <==> old(Contents()) == {}
      ensures answer.None? ==> Contents() == {}
      ensures answer.Some? ==>
                (old(root), answer.value) in old(Contents()) &&
                (forall e :: e in old(Contents()) ==> answer.value <= e.1) &&
                Least((old(root), answer.value), old(Contents())) &&
                Contents() == old(Contents()) - {(old(root), answer.value)} && old(root) !in Nodes(shape)
      ensures answer.Some? ==> LeftBehind(old(root), answer.value, old(root.prev), old(root.leftChild))
    {
      answer := FindMin();
      if root == null {
        return;
      }
      RootIsLeast(shape);
      RemoveRoot();
    }

    /** A deleted root: what it holds, and where it still points. */
    ghost predicate LeftBehind(n: PairNode?, key: int, back: PairNode?, child: PairNode?)
      reads `root, root, n
    {
      n != null && n.element == key && n.prev == back && n.leftChild == child && n.nextSibling == null &&
      (root != null ==> root.prev == n)
    }

    method RemoveRoot()
      requires Valid() && root != null
      modifies Repr
      ensures Valid() && fresh(Repr - old(Repr))
      ensures Contents() == old(Contents()) - {(old(root), old(shape.key))} && old(root) !in Nodes(shape)
      ensures LeftBehind(old(root), old(root.element), old(root.prev), old(root.leftChild))
      ensures shape == if old(shape).child.Nil? then Nil else Merged(old(shape).child)
    {
      ItemsAreNodes(shape.child);
      ghost var t := Nil;
      assert Rep(shape.child, root.leftChild, root) && Rep(shape.next, root.nextSibling, root);
      if root.leftChild == null {
        root := null;
      } else {
        MergedKeeps(shape.child);
        var r;
        r, t := CombineSiblings(root.leftChild, shape.child);
        root := r;
      }
      shape := t;
      Repr := {this, treeArray} + Nodes(shape);
    }

    /** Takes p out of the list of siblings it is in; fails if no link leads back from it. */
    method CutLoose(p: PairNode, ghost live: bool, ghost q: Place, ghost f: Trees) returns (failed: bool)
      requires live ==> root != null && At(q, p, f, root) && f.Cons? && f.node == p && !q.Top?
      modifies p`nextSibling, OrNone(p.nextSibling)`prev, OrNone(p.prev)`leftChild, OrNone(p.prev)`nextSibling
      ensures failed <==> old(p.prev) == null
      ensures !failed ==>
                p.nextSibling == null &&
                old(p.prev).leftChild == old(if p.prev.leftChild == p then p.nextSibling else p.prev.leftChild)
      ensures live ==> !failed && RootRep(Close(q, f.next), root) && RootRep(f.(next := Nil), p)
    {
      assert live ==> Rep(f.next, p.nextSibling, p) && Rep(f.child, p.leftChild, p);
      if p.nextSibling != null {
        p.nextSibling.prev := p.prev;
      }
      if p.prev == null {
        return true;
      }
      if p.prev.leftChild == p {
        p.prev.leftChild := p.nextSibling;
      } else {
        p.prev.nextSibling := p.nextSibling;
      }
      p.nextSibling := null;
      if live {
        assert At(q, old(p.nextSibling), f.next, root);
        Rebuilt(q, old(p.nextSibling), f.next, root);
      }
      failed := false;
    }

    /** Where the links from p lead. */
    lemma PlaceLinks(p: PairNode, q: Place, f: Trees, r: PairNode)
      requires f.Cons? && f.node == p && At(q, p, f, r) && !q.Top?
      ensures p.prev in PathNodes(q) && (p.nextSibling != null ==> p.nextSibling in Nodes(f))
    {
      assert Rep(f.next, p.nextSibling, p);
    }

    /** Cuts p loose, with the tree f at it, and links it to the root; fails if a link that is needed is null. */
    method Relink(p: PairNode, ghost live: bool, ghost q: Place, ghost f: Trees, ghost key: int) returns (failed: bool)
      requires p != root && f.Cons? && (live ==> Movable(p, q, f, key))
      modifies `root, if live then PathNodes(q) + Nodes(f) else {p, p.leftChild, p.nextSibling, p.prev}
      modifies if live || root == null then {} else {root, root.leftChild}
      ensures live ==> !failed && RootRep(Decreased(q, f, key), root)
      ensures !live ==> Misplaced(p, old(root), old(p.prev), failed)
    {
      ghost var rest, loose := Close(q, f.next), f.(key := key, next := Nil);
      if live {
        DecreasedApart(q, f, key);
        CloseKeeps(q, f.next);
        PlaceLinks(p, q, f.(key := key), root);
      }
      failed := CutLoose(p, live, q, f.(key := key));
      if failed || root == null {
        return true;
      }
      if live {
        LinksInside(root, p, rest, loose);
      }
      var r := CompareAndLink(root, p, live, rest, loose);
      root := r;
    }

    /** The tree f at p, which already has the new key, can be moved from the place q to the root. */
    ghost predicate Movable(p: PairNode, q: Place, f: Trees, key: int)
      reads this, PathNodes(q), Nodes(f)
    {
      root != null && f.Cons? && f.node == p && At(q, p, f.(key := key), root) && !q.Top? && Tree(Close(q, f.next)) &&
      p !in Nodes(f.child) && p !in Nodes(f.next) && Nodes(f.child) !! Nodes(f.next)
    }

    /** What has become of a node from outside the heap: it failed the call, or has been linked to the root. */
    ghost predicate Misplaced(p: PairNode, first: PairNode?, back: PairNode?, failed: bool)
      reads `root, root
    {
      (failed <==> back == null || first == null) && if failed then root == first else OnTop(p, root)
    }

    /** Gives the entry of p a smaller or equal key; does nothing if newVal is larger. For a node that is not in the
        heap, and not larger newVal, the call fails or leaves no heap of the nodes there were: it does what it
        should exactly if p is in the heap or newVal is larger than what p holds. */
    method DecreaseKey(p: PairNode, newVal: int) returns (failed: bool)
      requires Valid()
      modifies Repr, if p in Nodes(shape) || p.element < newVal then {} else {p, p.leftChild, p.nextSibling, p.prev}
      ensures old(Decreasable(p, newVal)) ==>
                !failed && Valid() && Repr == old(Repr) && Nodes(shape) == old(Nodes(shape)) &&
                Contents() ==
                  if old(p.element) < newVal then old(Contents())
                  else old(Contents()) - {(p, old(p.element))} + {(p, newVal)}
      ensures (!failed && exists f: Trees :: RootRep(f, root) && Nodes(f) == old(Nodes(shape))) <==>
              old(Decreasable(p, newVal))
      ensures !old(Decreasable(p, newVal)) ==> Misplaced(p, old(root), old(p.prev), failed)
    {
      if p.element < newVal {
        return false;
      }
      ghost var nodes, fine := Nodes(shape), Decreasable(p, newVal);
      if p != root {
        failed := DecreaseInner(p, newVal);
      } else {
        DecreaseRoot(newVal);
        failed := false;
      }
      if !fine && !failed {
        NotAHeap(p, root, nodes);
      }
    }

    ghost predicate Decreasable(p: PairNode, newVal: int)
      reads this, p
    {
      p in Nodes(shape) || p.element < newVal
    }

    method DecreaseRoot(newVal: int)
      requires Valid() && root != null && newVal <= root.element
      modifies root`element, `shape
      ensures Valid() && Repr == old(Repr) && Nodes(shape) == old(Nodes(shape)) && root == old(root)
      ensures Contents() == old(Contents()) - {(root, old(root.element))} + {(root, newVal)}
    {
      ghost var f, g := shape, shape.(key := newVal);
      assert Rep(f.child, root.leftChild, root);
      RekeyedKeeps(f, g);
      root.element := newVal;
      assert RootRep(g, root);
      shape := g;
    }

    /** The same for a node other than the root. */
    method DecreaseInner(p: PairNode, newVal: int) returns (failed: bool)
      requires Valid() && p != root && newVal <= p.element
      modifies Nodes(shape), `root, `shape
      modifies if p in Nodes(shape) then {} else {p, p.leftChild, p.nextSibling, p.prev}
      ensures p in old(Nodes(shape)) ==>
                !failed && Valid() && Repr == old(Repr) && Nodes(shape) == old(Nodes(shape)) &&
                Contents() == old(Contents()) - {(p, old(p.element))} + {(p, newVal)}
      ensures p !in old(Nodes(shape)) ==> Misplaced(p, old(root), old(p.prev), failed)
    {
      ghost var live, q, f := p in Nodes(shape), Top, Cons(p, newVal, Nil, Nil);
      assert root != null ==> Rep(shape.child, root.leftChild, root);
      if live {
        q, f := LocateInner(p, newVal);
      }
      Rekey(p, newVal, live, q, f);
      failed := Relink(p, live, q, f, newVal);
      if live {
        shape := Decreased(q, f, newVal);
      }
    }

    /** Where p is, below the root, and what becomes of the heap if its key decreases there. */
    lemma LocateInner(p: PairNode, newVal: int) returns (q: Place, f: Trees)
      requires Valid() && p in Nodes(shape) && p != root && newVal <= p.element
      ensures f.Cons? && f.node == p && At(q, p, f, root) && !q.Top? && Tree(Close(q, f.next))
      ensures p !in Nodes(f.child) && p !in Nodes(f.next) && Nodes(f.child) !! Nodes(f.next)
      ensures PathNodes(q) + Nodes(f) == Nodes(shape) && Nodes(Decreased(q, f, newVal)) == Nodes(shape)
      ensures Tree(Decreased(q, f, newVal)) && Ordered(Decreased(q, f, newVal))
      ensures Items(Decreased(q, f, newVal)) == Items(shape) - {(p, p.element)} + {(p, newVal)}
    {
      q, f := Locate(Top, root, shape, root, p);
      DecreasedApart(q, f, newVal);
      DecreasedKeeps(q, f, newVal);
    }

    method Rekey(p: PairNode, newVal: int, ghost live: bool, ghost q: Place, ghost f: Trees)
      requires live ==> root != null && f.Cons? && f.node == p && At(q, p, f, root)
      modifies p`element
      ensures live ==> At(q, p, f.(key := newVal), root)
    {
      assert live ==> Rep(f.child, p.leftChild, p) && Rep(f.next, p.nextSibling, p);
      p.element := newVal;
      assert live ==> Rep(f.child, p.leftChild, p) && Rep(f.next, p.nextSibling, p);
    }

    method MakeEmpty()
      requires Valid()
      modifies `root, `shape, `Repr
      ensures Valid() && Contents() == {} && Repr <= old(Repr)
    {
      root, shape, Repr := null, Nil, {this, treeArray};
    }

    method IsEmpty() returns (empty: bool)
      requires Valid()
      ensures empty <==> Contents() == {}
    {
      empty := root == null;
    }
  }

  // ---------- Handles of deleted nodes ----------

  /** Takes out the entry of n, which has the one least key. */
  method TakeLeast(heap: PairHeap, n: PairNode, key: int, ghost rest: set<(PairNode, int)>)
    requires heap.Valid() && heap.Contents() == rest + {(n, key)} && forall e :: e in rest ==> key < e.1
    modifies heap.Repr
    ensures heap.Valid() && fresh(heap.Repr - old(heap.Repr)) && heap.Contents() == rest && n !in Nodes(heap.shape)
    ensures n == old(heap.root) && heap.LeftBehind(n, key, old(n.prev), old(n.leftChild))
    ensures n.leftChild == null || n.leftChild in old(heap.Repr)
  {
    LeastIsRoot(heap, n, key, rest);
    assert Rep(heap.shape.child, n.leftChild, n);
    ItemsAreNodes(heap.shape.child);
    assert (n, key) !in rest;
    var answer := heap.DeleteMin();
  }

  /** The only item, deleted: decreaseKey follows its null link. */
  method DeletedHandle(x: int, newVal: int) returns (heap: PairHeap, failed: bool)
    requires newVal <= x
    ensures failed && heap.root == null
  {
    heap := new PairHeap();
    var p := heap.Insert(x);
    TakeLeast(heap, p, x, {});
    failed := heap.DecreaseKey(p, newVal);
  }

  method TwoItems() returns (heap: PairHeap, first: PairNode, second: PairNode)
    ensures heap.Valid() && fresh(heap.Repr) && heap.Contents() == {(second, 2)} + {(first, 1)}
    ensures fresh(first) && fresh(second)
  {
    heap := new PairHeap();
    first := heap.Insert(1);
    second := heap.Insert(2);
  }

  method ThreeItems() returns (heap: PairHeap, first: PairNode, second: PairNode, last: PairNode)
    ensures heap.Valid() && fresh(heap.Repr) && heap.Contents() == {(last, 3), (second, 2)} + {(first, 1)}
    ensures fresh(first) && fresh(second)
  {
    heap, first, second := TwoItems();
    last := heap.Insert(3);
  }

  /** Of three items the first is deleted; the new root leads back to it. */
  method TwoLeft() returns (heap: PairHeap, second: PairNode, last: PairNode)
    ensures heap.Valid() && fresh(heap.Repr) && heap.Contents() == {(last, 3)} + {(second, 2)}
    ensures fresh(second) && second.prev != null && fresh(second.prev)
  {
    var first;
    heap, first, second, last := ThreeItems();
    TakeLeast(heap, first, 1, {(last, 3), (second, 2)});
    assert heap.Contents() == {(last, 3)} + {(second, 2)};
    LeastIsRoot(heap, second, 2, {(last, 3)});
  }

  lemma LeastIsRoot(heap: PairHeap, n: PairNode, key: int, rest: set<(PairNode, int)>)
    requires heap.Valid() && heap.Contents() == rest + {(n, key)} && forall e :: e in rest ==> key < e.1
    ensures heap.root == n && heap.shape.Cons? && heap.shape.key == key
  {
    RootIsLeast(heap.shape);
  }

  /** The second of three items, deleted after the first: no link that decreaseKey follows is null, and what it leaves
      is no heap of the one item there was. */
  method StaleHandle() returns (heap: PairHeap, last: PairNode, ghost contents: set<(PairNode, int)>, failed: bool)
    ensures contents == {(last, 3)} && !failed
    ensures !exists f: Trees :: RootRep(f, heap.root) && Nodes(f) == {last}
  {
    var second;
    heap, second, last := TwoLeft();
    TakeLeast(heap, second, 2, {(last, 3)});
    contents := heap.Contents();
    OnlyItem(heap.shape, last, 3);
    failed := heap.DecreaseKey(second, 0);
  }

  lemma OnlyItem(f: Trees, n: PairNode, key: int)
    requires Items(f) == {(n, key)}
    ensures Nodes(f) == {n}
  {
    NodesAreItems(f);
  }

  lemma {:induction false} NodesAreItems(f: Trees)
    ensures forall o :: o in Nodes(f) ==> exists e :: e in Items(f) && e.0 == o
  {
    if f.Cons? {
      NodesAreItems(f.child);
      NodesAreItems(f.next);
      assert (f.node, f.key) in Items(f);
    }
  }

  // ---------- Whole runs ----------

  /** Handle i stands for the i-th item inserted. */
  datatype Op = InsertOp(x: int) | DecreaseOp(i: nat, newVal: int) | DeleteMinOp | FindMinOp | MakeEmptyOp

  /** A plain collection: the key of every item ever inserted, and which items are still there. */
  datatype Bag = Bag(keys: seq<int>, live: set<int>)

  /** Handle i is that of an item that is there, or nothing is to be done. */
  ghost predicate Allowed(s: Bag, op: Op) {
    op.DecreaseOp? ==> op.i < |s.keys| && (op.i in s.live || s.keys[op.i] < op.newVal)
  }

  ghost predicate LeastAt(s: Bag, i: int) {
    i in s.live && 0 <= i < |s.keys| && forall j :: j in s.live && 0 <= j < |s.keys| ==> s.keys[i] <= s.keys[j]
  }

  /** How the collection goes from s to s' under op, with this answer. */
  ghost predicate Step(s: Bag, op: Op, answer: Option<int>, s': Bag)
    requires Allowed(s, op)
  {
    match op
    case InsertOp(x) => answer == None && s' == Bag(s.keys + [x], s.live + {|s.keys|})
    case DecreaseOp(i, newVal) =>
      answer == None && s' == s.(keys := if s.keys[i] < newVal then s.keys else s.keys[i := newVal])
    case DeleteMinOp =>
      if s.live == {} then answer == None && s' == s
      else exists i :: LeastAt(s, i) && answer == Some(s.keys[i]) && s' == s.(live := s.live - {i})
    case FindMinOp =>
      s' == s && if s.live == {} then answer == None else exists i :: LeastAt(s, i) && answer == Some(s.keys[i])
    case MakeEmptyOp => answer == None && s' == s.(live := {})
  }

  ghost predicate Proper(handles: seq<PairNode>, s: Bag) {
    |handles| == |s.keys| && (forall i, j :: 0 <= i < j < |handles| ==> handles[i] != handles[j]) &&
    forall i :: i in s.live ==> 0 <= i < |handles|
  }

  ghost function Entries(handles: seq<PairNode>, s: Bag): set<(PairNode, int)>
    requires Proper(handles, s)
  {
    set i | i in s.live :: (handles[i], s.keys[i])
  }

  /** The heap holds the items that are there; gone are the nodes of the others. */
  ghost predicate Tracks(heap: PairHeap, handles: seq<PairNode>, gone: set<PairNode>, s: Bag)
    reads heap, heap.Repr, handles
  {
    heap.Valid() && Proper(handles, s) && heap.Contents() == Entries(handles, s) &&
    (forall i :: 0 <= i < |handles| ==> handles[i].element == s.keys[i]) &&
    (forall i :: 0 <= i < |handles| ==> (handles[i] in gone <==> i !in s.live))
  }

  lemma {:induction false} ItemsHold(f: Trees, n: PairNode?, p: PairNode?)
    requires Rep(f, n, p)
    ensures forall e :: e in Items(f) ==> e.0 in Nodes(f) && e.0.element == e.1
  {
    if f.Cons? {
      ItemsHold(f.child, f.node.leftChild, f.node);
      ItemsHold(f.next, f.node.nextSibling, f.node);
    }
  }

  /** Every node of the heap is the handle of an item that is there. */
  lemma HeapIsLive(heap: PairHeap, handles: seq<PairNode>, s: Bag)
    requires heap.Valid() && Proper(handles, s) && heap.Contents() == Entries(handles, s)
    ensures forall i :: 0 <= i < |handles| ==> (handles[i] in Nodes(heap.shape) <==> i in s.live)
    ensures forall i :: 0 <= i < |handles| && i !in s.live ==> handles[i] !in heap.Repr
  {
    NodesAreItems(heap.shape);
    ItemsAreNodes(heap.shape);
    forall i | 0 <= i < |handles| ensures handles[i] in Nodes(heap.shape) <==> i in s.live {
      if i in s.live {
        assert (handles[i], s.keys[i]) in heap.Contents();
      }
    }
  }

  /** The nodes in the heap hold their keys. */
  lemma LiveHold(heap: PairHeap, handles: seq<PairNode>, s: Bag)
    requires heap.Valid() && Proper(handles, s) && heap.Contents() == Entries(handles, s)
    ensures forall i :: i in s.live ==> handles[i].element == s.keys[i]
  {
    if heap.root != null {
      ItemsHold(heap.shape, heap.root, heap.root.prev);
    }
    forall i | i in s.live ensures handles[i].element == s.keys[i] {
      assert (handles[i], s.keys[i]) in heap.Contents();
    }
  }

  method PerformInsert(heap: PairHeap, handles: seq<PairNode>, gone: set<PairNode>, x: int, ghost s: Bag)
    returns (n: PairNode)
    requires Tracks(heap, handles, gone, s)
    modifies heap.Repr
    ensures fresh(heap.Repr - old(heap.Repr))
    ensures Tracks(heap, handles + [n], gone, Bag(s.keys + [x], s.live + {|s.keys|}))
  {
    HeapIsLive(heap, handles, s);
    n := heap.Insert(x);
    ghost var hs, s' := handles + [n], Bag(s.keys + [x], s.live + {|s.keys|});
    EntryAdded(handles, s, n, x);
    LiveHold(heap, hs, s');
  }

  lemma EntryAdded(handles: seq<PairNode>, s: Bag, n: PairNode, x: int)
    requires Proper(handles, s) && n !in handles
    ensures var s' := Bag(s.keys + [x], s.live + {|s.keys|});
            Proper(handles + [n], s') && Entries(handles + [n], s') == Entries(handles, s) + {(n, x)}
  {
    var s' := Bag(s.keys + [x], s.live + {|s.keys|});
    forall e | e in Entries(handles + [n], s') ensures e in Entries(handles, s) + {(n, x)} {}
    forall e | e in Entries(handles, s) + {(n, x)} ensures e in Entries(handles + [n], s') {
      if e == (n, x) {
        assert |s.keys| in s'.live;
      } else {
        var i :| i in s.live && e == (handles[i], s.keys[i]);
        assert i in s'.live;
      }
    }
  }

  method PerformDecrease(heap: PairHeap, handles: seq<PairNode>, gone: set<PairNode>, i: nat, newVal: int, ghost s: Bag)
    requires Tracks(heap, handles, gone, s) && Allowed(s, DecreaseOp(i, newVal))
    modifies heap.Repr
    ensures heap.Repr == old(heap.Repr)
    ensures Tracks(heap, handles, gone, s.(keys := if s.keys[i] < newVal then s.keys else s.keys[i := newVal]))
  {
    HeapIsLive(heap, handles, s);
    var failed := heap.DecreaseKey(handles[i], newVal);
    ghost var s' := s;
    if newVal <= s.keys[i] {
      s' := s.(keys := s.keys[i := newVal]);
      EntryChanged(handles, s, i, newVal);
    }
    LiveHold(heap, handles, s');
  }

  lemma EntryChanged(handles: seq<PairNode>, s: Bag, i: int, x: int)
    requires Proper(handles, s) && i in s.live
    ensures var s' := s.(keys := s.keys[i := x]);
            Proper(handles, s') &&
            Entries(handles, s') == Entries(handles, s) - {(handles[i], s.keys[i])} + {(handles[i], x)}
  {
    var s' := s.(keys := s.keys[i := x]);
    EntryRemoved(handles, s, i);
    EntryRemoved(handles, s', i);
    var rest := s.(live := s.live - {i});
    assert Entries(handles, s') == Entries(handles, s'.(live := s.live - {i})) + {(handles[i], x)} by {
      EntrySplit(handles, s', i);
    }
    SameEntries(handles, rest, s'.(live := s.live - {i}));
  }

  lemma EntrySplit(handles: seq<PairNode>, s: Bag, i: int)
    requires Proper(handles, s) && i in s.live
    ensures Entries(handles, s) == Entries(handles, s.(live := s.live - {i})) + {(handles[i], s.keys[i])}
  {
    var rest := s.(live := s.live - {i});
    forall e | e in Entries(handles, s) ensures e in Entries(handles, rest) + {(handles[i], s.keys[i])} {
      var j :| j in s.live && e == (handles[j], s.keys[j]);
      assert j != i ==> j in rest.live;
    }
  }

  lemma SameEntries(handles: seq<PairNode>, s: Bag, s': Bag)
    requires Proper(handles, s) && Proper(handles, s') && s.live == s'.live
    requires forall j :: j in s.live ==> s.keys[j] == s'.keys[j]
    ensures Entries(handles, s) == Entries(handles, s')
  {
    forall e | e in Entries(handles, s) ensures e in Entries(handles, s') {
      var j :| j in s.live && e == (handles[j], s.keys[j]);
      assert j in s'.live;
    }
    forall e | e in Entries(handles, s') ensures e in Entries(handles, s) {
      var j :| j in s'.live && e == (handles[j], s'.keys[j]);
      assert j in s.live;
    }
  }

  lemma EntryRemoved(handles: seq<PairNode>, s: Bag, i: int)
    requires Proper(handles, s) && i in s.live
    ensures var s' := s.(live := s.live - {i});
            Proper(handles, s') && Entries(handles, s') == Entries(handles, s) - {(handles[i], s.keys[i])}
  {
    EntrySplit(handles, s, i);
  }

  /** An entry with a least key belongs to an item with a least key. */
  lemma LeastEntry(handles: seq<PairNode>, s: Bag, e: (PairNode, int)) returns (i: int)
    requires Proper(handles, s) && Least(e, Entries(handles, s))
    ensures LeastAt(s, i) && e == (handles[i], s.keys[i])
  {
    i :| i in s.live && e == (handles[i], s.keys[i]);
    forall j | j in s.live && 0 <= j < |s.keys| ensures s.keys[i] <= s.keys[j] {
      assert (handles[j], s.keys[j]) in Entries(handles, s);
    }
  }

  lemma EmptyEntries(handles: seq<PairNode>, s: Bag)
    requires Proper(handles, s)
    ensures Entries(handles, s) == {} <==> s.live == {}
  {
    if s.live != {} {
      var i := Pick(s.live);
      assert (handles[i], s.keys[i]) in Entries(handles, s);
    }
  }

  method PerformDeleteMin(heap: PairHeap, handles: seq<PairNode>, gone: set<PairNode>, ghost s: Bag)
    returns (answer: Option<int>, gone': set<PairNode>, ghost s': Bag)
    requires Tracks(heap, handles, gone, s)
    modifies heap.Repr
    ensures fresh(heap.Repr - old(heap.Repr))
    ensures Tracks(heap, handles, gone', s') && Step(s, DeleteMinOp, answer, s')
  {
    HeapIsLive(heap, handles, s);
    EmptyEntries(handles, s);
    var least := heap.root;
    answer := heap.DeleteMin();
    gone', s' := gone, s;
    if least != null {
      gone' := gone + {least};
      ghost var i := LeastEntry(handles, s, (least, answer.value));
      s' := s.(live := s.live - {i});
      EntryRemoved(handles, s, i);
    }
    LiveHold(heap, handles, s');
  }

  method PerformFindMin(heap: PairHeap, handles: seq<PairNode>, gone: set<PairNode>, ghost s: Bag)
    returns (answer: Option<int>)
    requires Tracks(heap, handles, gone, s)
    ensures Step(s, FindMinOp, answer, s)
  {
    EmptyEntries(handles, s);
    answer := heap.FindMin();
    if answer.Some? {
      ghost var e :| Least(e, heap.Contents()) && e.1 == answer.value;
      ghost var i := LeastEntry(handles, s, e);
    }
  }

  method PerformMakeEmpty(heap: PairHeap, handles: seq<PairNode>, gone: set<PairNode>, ghost s: Bag)
    returns (gone': set<PairNode>)
    requires Tracks(heap, handles, gone, s)
    modifies heap.Repr
    ensures heap.Repr <= old(heap.Repr)
    ensures Tracks(heap, handles, gone', s.(live := {}))
  {
    heap.MakeEmpty();
    gone' := set n | n in handles;
  }

  method Perform(heap: PairHeap, handles: seq<PairNode>, gone: set<PairNode>, op: Op, ghost s: Bag)
    returns (answer: Option<int>, handles': seq<PairNode>, gone': set<PairNode>, ghost s': Bag)
    requires Tracks(heap, handles, gone, s) && Allowed(s, op)
    modifies heap.Repr
    ensures fresh(heap.Repr - old(heap.Repr))
    ensures Tracks(heap, handles', gone', s') && Step(s, op, answer, s')
  {
    answer, handles', gone', s' := None, handles, gone, s;
    match op {
      case InsertOp(x) =>
        var n := PerformInsert(heap, handles, gone, x, s);
        handles', s' := handles + [n], Bag(s.keys + [x], s.live + {|s.keys|});
      case DecreaseOp(i, newVal) =>
        PerformDecrease(heap, handles, gone, i, newVal, s);
        s' := s.(keys := if s.keys[i] < newVal then s.keys else s.keys[i := newVal]);
      case DeleteMinOp =>
        answer, gone', s' := PerformDeleteMin(heap, handles, gone, s);
      case FindMinOp =>
        answer := PerformFindMin(heap, handles, gone, s);
      case MakeEmptyOp =>
        gone' := PerformMakeEmpty(heap, handles, gone, s);
        s' := s.(live := {});
    }
  }

  ghost predicate AllStepped(states: seq<Bag>, ops: seq<Op>, answers: seq<Option<int>>)
    requires |answers| <= |ops| && |states| == |answers| + 1
  {
    forall k :: 0 <= k < |answers| ==>
      Allowed(states[k], ops[k]) && Step(states[k], ops[k], answers[k], states[k + 1])
  }

  lemma StepAdded(states: seq<Bag>, ops: seq<Op>, answers: seq<Option<int>>, s: Bag, answer: Option<int>)
    requires |answers| < |ops| && |states| == |answers| + 1 && AllStepped(states, ops, answers)
    requires Allowed(states[|answers|], ops[|answers|])
    requires Step(states[|answers|], ops[|answers|], answer, s)
    ensures AllStepped(states + [s], ops, answers + [answer])
  {
    var after := states + [s];
    assert after[..|states|] == states;
  }

  /** Every run on a new heap takes the steps that a plain collection would, through the states that are returned.
      It ends early only before a decreaseKey that is not allowed: of no item, or of one that is gone to a key not above
      its last one. */
  method Run(ops: seq<Op>)
    returns (heap: PairHeap, handles: seq<PairNode>, gone: set<PairNode>, answers: seq<Option<int>>,
             ghost states: seq<Bag>)
    ensures |answers| <= |ops| && |states| == |answers| + 1 && states[0] == Bag([], {})
    ensures AllStepped(states, ops, answers)
    ensures |answers| < |ops| ==> !Allowed(states[|answers|], ops[|answers|])
    ensures Tracks(heap, handles, gone, states[|answers|])
  {
    heap := new PairHeap();
    handles, gone, answers, states := [], {}, [], [Bag([], {})];
    for k := 0 to |ops|
      invariant fresh(heap.Repr) && |answers| == k && |states| == k + 1 && states[0] == Bag([], {})
      invariant Tracks(heap, handles, gone, states[k])
      invariant AllStepped(states, ops, answers)
    {
      if ops[k].DecreaseOp? && !MayDecrease(handles, gone, ops[k].i, ops[k].newVal) {
        return;
      }
      var answer;
      ghost var s;
      answer, handles, gone, s := Perform(heap, handles, gone, ops[k], states[k]);
      StepAdded(states, ops, answers, s, answer);
      answers, states := answers + [answer], states + [s];
    }
  }

  predicate MayDecrease(handles: seq<PairNode>, gone: set<PairNode>, i: nat, newVal: int)
    reads handles
  {
    i < |handles| && (handles[i] !in gone || handles[i].element < newVal)
  }
}
