/** The AA-tree over linked nodes with a shared sentinel. */
module AATree {
  import opened Basics
  import opened AATrees
  import opened OrderedSets

  class AANode {
    var element: int
    var left: AANode
    var right: AANode
    var level: int

    constructor (theElement: int, lt: AANode, rt: AANode)
      ensures element == theElement && left == lt && right == rt && level == 1
    {
      element := theElement;
      left := lt;
      right := rt;
      level := 1;
    }

    constructor Sentinel()
      ensures IsSentinel(this)
    {
      element := 0;
      left := this;
      right := this;
      level := 0;
    }
  }

  ghost predicate IsSentinel(nil: AANode)
    reads nil
  {
    nil.left == nil && nil.right == nil && nil.level == 0
  }

  /** Which node sits where. */
  datatype Shape = Leaf | Branch(left: Shape, node: AANode, right: Shape)

  ghost function Nodes(s: Shape): set<AANode> {
    match s
    case Leaf => {}
    case Branch(l, n, r) => Nodes(l) + {n} + Nodes(r)
  }

  lemma NodesAllocated(s: Shape)
    ensures forall o :: o in Nodes(s) ==> allocated(o)
  {
    if s.Branch? {
      NodesAllocated(s.left);
      NodesAllocated(s.right);
    }
  }

  /** The links from t on draw the tree s, over nodes that all differ; nil stands for no tree. */
  ghost predicate Rep(s: Shape, t: AANode, nil: AANode)
    reads Nodes(s)
  {
    nil !in Nodes(s) &&
    match s
    case Leaf => t == nil
    case Branch(l, n, r) =>
      t == n && n !in Nodes(l) && n !in Nodes(r) && Nodes(l) !! Nodes(r) &&
      Rep(l, n.left, nil) && Rep(r, n.right, nil)
  }

  /** The tree that a shape stands for. */
  ghost function Abs(s: Shape): Tree
    reads Nodes(s)
  {
    match s
    case Leaf => Nil
    case Branch(l, n, r) => Node(n.level, Abs(l), n.element, Abs(r))
  }

  class AATree {
    const nullNode: AANode
    var root: AANode
    var deletedNode: AANode
    var lastNode: AANode
    ghost var shape: Shape
    ghost var Repr: set<object>

    constructor ()
      ensures Valid() && fresh(Repr) && Keys() == []
    {
      var nil := new AANode.Sentinel();
      nullNode := nil;
      root := nil;
      deletedNode := nil;
      lastNode := nil;
      shape := Leaf;
      Repr := {this, nil};
    }

    ghost predicate Valid()
      reads this, Repr
    {
      this in Repr && nullNode in Repr && Nodes(shape) <= Repr &&
      IsSentinel(nullNode) && Rep(shape, root, nullNode) && SearchTree(Abs(shape))
    }

    /** The keys in order. */
    ghost function Keys(): seq<int>
      reads this, Nodes(shape)
    {
      InOrder(Abs(shape))
    }

    /** Rotates a tree with its left child; the sentinel, its own left child, stays as it is. */
    method RotateWithLeftChild(k2: AANode, ghost s: Shape) returns (k1: AANode, ghost s': Shape)
      requires Rep(s, k2, nullNode) && IsSentinel(nullNode) && (s.Branch? ==> s.left.Branch?)
      modifies Nodes(s), nullNode
      ensures Rep(s', k1, nullNode) && IsSentinel(nullNode) && Nodes(s') == Nodes(s)
      ensures if s.Leaf? then s' == s
              else var t := old(Abs(s)); t.left.Node? && Abs(s') == RotateWithLeft(t)
    {
      if s.Branch? {
        assert Rep(s.left, k2.left, nullNode) && Rep(s.right, k2.right, nullNode);
        s' := Branch(s.left.left, s.left.node, Branch(s.left.right, s.node, s.right));
      } else {
        s' := s;
      }
      k1 := k2.left;
      k2.left := k1.right;
      k1.right := k2;
      if s.Branch? {
        assert Rep(Branch(s.left.right, s.node, s.right), k2, nullNode);
      }
    }

    method RotateWithRightChild(k1: AANode, ghost s: Shape) returns (k2: AANode, ghost s': Shape)
      requires Rep(s, k1, nullNode) && s.Branch? && s.right.Branch?
      modifies Nodes(s)
      ensures Rep(s', k2, nullNode) && Nodes(s') == Nodes(s) && s'.Branch? && s'.node == k2
      ensures var t := old(Abs(s)); t.right.Node? && Abs(s') == RotateWithRight(t)
    {
      assert Rep(s.left, k1.left, nullNode) && Rep(s.right, k1.right, nullNode);
      s' := Branch(Branch(s.left, s.node, s.right.left), s.right.node, s.right.right);
      k2 := k1.right;
      k1.right := k2.left;
      k2.left := k1;
      assert Rep(Branch(s.left, s.node, s.right.left), k1, nullNode);
    }

    /** Also called on the sentinel, which it leaves as it is. */
    method Skew(t: AANode, ghost s: Shape) returns (u: AANode, ghost s': Shape)
      requires Rep(s, t, nullNode) && IsSentinel(nullNode) && Positive(Abs(s))
      modifies Nodes(s), nullNode
      ensures Rep(s', u, nullNode) && IsSentinel(nullNode) && Nodes(s') == Nodes(s)
      ensures Abs(s') == AATrees.Skew(old(Abs(s)))
    {
      u, s' := t, s;
      assert s.Branch? ==> Rep(s.left, t.left, nullNode);
      if t.left.level == t.level {
        u, s' := RotateWithLeftChild(t, s);
      }
    }

    /** Never called on the sentinel, whose level it would raise. */
    method Split(t: AANode, ghost s: Shape) returns (u: AANode, ghost s': Shape)
      requires Rep(s, t, nullNode) && IsSentinel(nullNode) && Positive(Abs(s)) && s.Branch?
      modifies Nodes(s)
      ensures Rep(s', u, nullNode) && Nodes(s') == Nodes(s) && s'.Branch?
      ensures Abs(s') == AATrees.Split(old(Abs(s)))
    {
      u, s' := t, s;
      assert Rep(s.right, t.right, nullNode);
      assert s.right.Branch? ==> Rep(s.right.right, t.right.right, nullNode);
      assert s.right.Branch? ==> Level(Abs(s.right.right)) == t.right.right.level && Abs(s.right).Node?;
      if t.right.right.level == t.level {
        u, s' := RotateWithRightChild(t, s);
        ghost var l, r := Abs(s'.left), Abs(s'.right);
        assert Rep(s'.left, u.left, nullNode) && Rep(s'.right, u.right, nullNode);
        u.level := u.level + 1;
        assert Abs(s'.left) == l && Abs(s'.right) == r;
      }
    }

    method InsertInto(x: int, t: AANode, ghost s: Shape) returns (u: AANode, ghost s': Shape)
      requires Rep(s, t, nullNode) && IsSentinel(nullNode) && Balanced(Abs(s))
      modifies Nodes(s), nullNode
      ensures Rep(s', u, nullNode) && IsSentinel(nullNode) && fresh(Nodes(s') - Nodes(s))
      ensures Abs(s') == AATrees.Insert(x, old(Abs(s)))
      decreases s, 1
    {
      u, s' := t, s;
      if t == nullNode {
        u := new AANode(x, nullNode, nullNode);
        s' := Branch(Leaf, u, Leaf);
      } else if x < t.element {
        InsertPositive(x, Abs(s));
        s' := InsertLeftOf(x, t, s);
      } else if x > t.element {
        InsertPositive(x, Abs(s));
        s' := InsertRightOf(x, t, s);
      } else {
        return;
      }
      u, s' := Skew(u, s');
      u, s' := Split(u, s');
    }

    /** t.left = insert(x, t.left). */
    method InsertLeftOf(x: int, t: AANode, ghost s: Shape) returns (ghost s': Shape)
      requires Rep(s, t, nullNode) && IsSentinel(nullNode) && Balanced(Abs(s)) && s.Branch?
      modifies Nodes(s), nullNode
      ensures Rep(s', t, nullNode) && IsSentinel(nullNode) && fresh(Nodes(s') - Nodes(s)) && s'.Branch?
      ensures var t0 := old(Abs(s)); Abs(s') == t0.(left := AATrees.Insert(x, t0.left))
      decreases s, 0
    {
      assert Rep(s.left, t.left, nullNode) && Rep(s.right, t.right, nullNode);
      NodesAllocated(s.right);
      ghost var r := Abs(s.right);
      var l, sl := InsertInto(x, t.left, s.left);
      s' := SetLeft(t, l, s, sl);
    }

    /** t.right = insert(x, t.right). */
    method InsertRightOf(x: int, t: AANode, ghost s: Shape) returns (ghost s': Shape)
      requires Rep(s, t, nullNode) && IsSentinel(nullNode) && Balanced(Abs(s)) && s.Branch?
      modifies Nodes(s), nullNode
      ensures Rep(s', t, nullNode) && IsSentinel(nullNode) && fresh(Nodes(s') - Nodes(s)) && s'.Branch?
      ensures var t0 := old(Abs(s)); Abs(s') == t0.(right := AATrees.Insert(x, t0.right))
      decreases s, 0
    {
      assert Rep(s.left, t.left, nullNode) && Rep(s.right, t.right, nullNode);
      NodesAllocated(s.left);
      ghost var l := Abs(s.left);
      var r, sr := InsertInto(x, t.right, s.right);
      s' := SetRight(t, r, s, sr);
    }

    method LowerNode(t: AANode, ghost s: Shape)
      requires Rep(s, t, nullNode) && IsSentinel(nullNode) && s.Branch? && t.level >= 1
      modifies Nodes(s)
      ensures Rep(s, t, nullNode) && Abs(s) == Lower(old(Abs(s)))
    {
      assert Rep(s.left, t.left, nullNode) && Rep(s.right, t.right, nullNode);
      t.level := t.level - 1;
      if t.right.level > t.level {
        assert s.right.Branch?;
        t.right.level := t.level;
        assert Rep(s.right, t.right, nullNode);
      }
    }

    /** Links l, the root of sl, below t. */
    method SetLeft(t: AANode, l: AANode, ghost s: Shape, ghost sl: Shape) returns (ghost s': Shape)
      requires s.Branch? && s.node == t && t != nullNode && Rep(s.right, t.right, nullNode) && Rep(sl, l, nullNode)
      requires t !in Nodes(s.right) && t !in Nodes(sl) && Nodes(sl) !! Nodes(s.right)
      modifies t`left
      ensures Rep(s', t, nullNode) && s' == Branch(sl, t, s.right)
      ensures Abs(s') == old(Node(t.level, Abs(sl), t.element, Abs(s.right)))
    {
      ghost var a, r := Abs(sl), Abs(s.right);
      t.left := l;
      assert Abs(s.right) == r && Rep(s.right, t.right, nullNode);
      assert Abs(sl) == a && Rep(sl, t.left, nullNode);
      s' := Branch(sl, t, s.right);
    }

    /** Links r, the root of sr, below t. */
    method SetRight(t: AANode, r: AANode, ghost s: Shape, ghost sr: Shape) returns (ghost s': Shape)
      requires s.Branch? && s.node == t && t != nullNode && Rep(s.left, t.left, nullNode) && Rep(sr, r, nullNode)
      requires t !in Nodes(s.left) && t !in Nodes(sr) && Nodes(s.left) !! Nodes(sr)
      modifies t`right
      ensures Rep(s', t, nullNode) && s' == Branch(s.left, t, sr)
      ensures Abs(s') == old(Node(t.level, Abs(s.left), t.element, Abs(sr)))
    {
      ghost var l, a := Abs(s.left), Abs(sr);
      t.right := r;
      assert Abs(s.left) == l && Rep(s.left, t.left, nullNode);
      assert Abs(sr) == a && Rep(sr, t.right, nullNode);
      s' := Branch(s.left, t, sr);
    }

    /** t.right = skew(t.right). */
    method SkewRightOf(t: AANode, ghost s: Shape) returns (ghost s': Shape)
      requires Rep(s, t, nullNode) && IsSentinel(nullNode) && s.Branch? && Positive(Abs(s))
      modifies Nodes(s), nullNode
      ensures Rep(s', t, nullNode) && IsSentinel(nullNode) && Nodes(s') == Nodes(s) && s'.Branch?
      ensures var t0 := old(Abs(s)); Abs(s') == t0.(right := AATrees.Skew(t0.right))
    {
      assert Rep(s.left, t.left, nullNode) && Rep(s.right, t.right, nullNode);
      NodesAllocated(s.left);
      ghost var l := Abs(s.left);
      var r, sr := Skew(t.right, s.right);
      assert Abs(s.left) == l && Rep(s.left, t.left, nullNode);
      s' := SetRight(t, r, s, sr);
    }

    /** t.right = split(t.right). */
    method SplitRightOf(t: AANode, ghost s: Shape) returns (ghost s': Shape)
      requires Rep(s, t, nullNode) && IsSentinel(nullNode) && s.Branch? && Positive(Abs(s)) && s.right.Branch?
      modifies Nodes(s)
      ensures Rep(s', t, nullNode) && Nodes(s') == Nodes(s) && s'.Branch?
      ensures var t0 := old(Abs(s)); Abs(s') == t0.(right := AATrees.Split(t0.right))
    {
      assert Rep(s.left, t.left, nullNode) && Rep(s.right, t.right, nullNode);
      NodesAllocated(s.left);
      ghost var l := Abs(s.left);
      var r, sr := Split(t.right, s.right);
      assert Abs(s.left) == l && Rep(s.left, t.left, nullNode);
      s' := SetRight(t, r, s, sr);
    }

    /** t.right.right = skew(t.right.right). */
    method SkewRightRightOf(t: AANode, ghost s: Shape) returns (ghost s': Shape)
      requires Rep(s, t, nullNode) && IsSentinel(nullNode) && s.Branch? && Positive(Abs(s)) && s.right.Branch?
      modifies Nodes(s), nullNode
      ensures Rep(s', t, nullNode) && IsSentinel(nullNode) && Nodes(s') == Nodes(s) && s'.Branch?
      ensures var t0 := old(Abs(s));
              t0.right.Node? && Abs(s') == t0.(right := t0.right.(right := AATrees.Skew(t0.right.right)))
    {
      assert Rep(s.left, t.left, nullNode) && Rep(s.right, t.right, nullNode);
      NodesAllocated(s.left);
      ghost var l := Abs(s.left);
      ghost var sr := SkewRightOf(t.right, s.right);
      assert Abs(s.left) == l && Rep(s.left, t.left, nullNode);
      s' := Branch(s.left, t, sr);
    }

    method SkewThree(t: AANode, ghost s: Shape) returns (u: AANode, ghost s': Shape)
      requires Rep(s, t, nullNode) && IsSentinel(nullNode) && s.Branch? && Positive(Abs(s))
      requires AATrees.Skew(AATrees.Skew(Abs(s)).right).Node?
      modifies Nodes(s), nullNode
      ensures Rep(s', u, nullNode) && IsSentinel(nullNode) && Nodes(s') == Nodes(s) && s'.Branch?
      ensures Abs(s') == SkewThrice(old(Abs(s)))
    {
      StepsKeepPositive(Abs(s));
      u, s' := Skew(t, s);
      StepsKeepPositive(Abs(s').right);
      s' := SkewRightOf(u, s');
      s' := SkewRightRightOf(u, s');
    }

    method SplitTwo(t: AANode, ghost s: Shape) returns (u: AANode, ghost s': Shape)
      requires Rep(s, t, nullNode) && IsSentinel(nullNode) && s.Branch? && Positive(Abs(s))
      requires AATrees.Split(Abs(s)).right.Node?
      modifies Nodes(s)
      ensures Rep(s', u, nullNode) && Nodes(s') == Nodes(s) && s'.Branch?
      ensures Abs(s') == SplitTwice(old(Abs(s)))
    {
      StepsKeepPositive(Abs(s));
      u, s' := Split(t, s);
      s' := SplitRightOf(u, s');
    }

    /** The third step of remove: repairs t if a child has dropped below its level. */
    method RebalanceNode(t: AANode, ghost s: Shape) returns (u: AANode, ghost s': Shape)
      requires Rep(s, t, nullNode) && IsSentinel(nullNode) && s.Branch? && Positive(Abs(s))
      requires NeedsRebalance(Abs(s)) ==> Dropped(Abs(s))
      modifies Nodes(s), nullNode
      ensures Rep(s', u, nullNode) && IsSentinel(nullNode) && Nodes(s') == Nodes(s)
      ensures Abs(s') == Rebalance(old(Abs(s)))
    {
      u, s' := t, s;
      assert Rep(s.left, t.left, nullNode) && Rep(s.right, t.right, nullNode);
      assert Level(Abs(s.left)) == t.left.level && Level(Abs(s.right)) == t.right.level;
      if t.left.level < t.level - 1 || t.right.level < t.level - 1 {
        assert NeedsRebalance(Abs(s));
        StepsKeepPositive(Abs(s));
        SecondSplitHasNode(Abs(s));
        LowerNode(t, s);
        SkewThricePositive(Abs(s));
        u, s' := SkewThree(t, s);
        u, s' := SplitTwo(u, s');
      }
    }

    /** Whether the last node at which the search went right holds x, and so is to be overwritten. */
    ghost predicate Candidate(x: int)
      reads this, deletedNode
    {
      deletedNode != nullNode && deletedNode.element == x
    }

    ghost predicate Removable(x: int, t: AANode, s: Shape)
      reads this, deletedNode, nullNode, Nodes(s)
    {
      Rep(s, t, nullNode) && IsSentinel(nullNode) && SearchTree(Abs(s)) &&
      deletedNode !in Nodes(s) && (Candidate(x) ==> Above(x, Abs(s)))
    }

    /** t.left = remove(x, t.left). */
    method RemoveLeftOf(x: int, t: AANode, ghost s: Shape, ghost candidate: bool) returns (ghost s': Shape)
      requires Removable(x, t, s) && s.Branch? && candidate == Candidate(x)
      modifies Nodes(s), nullNode, deletedNode`element, `deletedNode, `lastNode
      ensures Rep(s', t, nullNode) && IsSentinel(nullNode) && Nodes(s') <= Nodes(s) && s'.Branch?
      ensures var t0 := old(Abs(s)); Abs(s') == t0.(left := AATrees.Remove(x, t0.left, candidate).tree)
      ensures var r := AATrees.Remove(x, old(Abs(s)).left, candidate);
              old(deletedNode) != nullNode ==>
                old(deletedNode).element == if candidate && r.done then r.last else old(deletedNode.element)
      ensures if s.left.Branch? then lastNode in Nodes(s.left)
              else lastNode == old(lastNode) && deletedNode == old(deletedNode)
      decreases s, 0
    {
      RemovalParts(x, Abs(s));
      assert Rep(s.left, t.left, nullNode) && Rep(s.right, t.right, nullNode);
      NodesAllocated(s.right);
      ghost var r := Abs(s.right);
      var l, sl := RemoveFrom(x, t.left, s.left, candidate);
      assert Abs(s.right) == r && Rep(s.right, t.right, nullNode);
      s' := SetLeft(t, l, s, sl);
    }

    /** t.right = remove(x, t.right), t being the node the search has just turned right at. */
    method RemoveRightOf(x: int, t: AANode, ghost s: Shape) returns (ghost s': Shape)
      requires Rep(s, t, nullNode) && IsSentinel(nullNode) && SearchTree(Abs(s)) && s.Branch?
      requires deletedNode == t
      modifies Nodes(s), nullNode, `deletedNode, `lastNode
      ensures Rep(s', t, nullNode) && IsSentinel(nullNode) && Nodes(s') <= Nodes(s) && s'.Branch?
      ensures var t0 := old(Abs(s)); var r := AATrees.Remove(x, t0.right, x == t0.element);
              Abs(s') == t0.(right := r.tree, element := if r.done && x == t0.element then r.last else t0.element)
      ensures if s.right.Branch? then lastNode in Nodes(s.right) else lastNode == old(lastNode) && deletedNode == t
      decreases s, 0
    {
      RemovalParts(x, Abs(s));
      assert Rep(s.left, t.left, nullNode) && Rep(s.right, t.right, nullNode);
      NodesAllocated(s.left);
      ghost var l := Abs(s.left);
      ghost var candidate := Candidate(x);
      assert Removable(x, t.right, s.right);
      var r, sr := RemoveFrom(x, t.right, s.right, candidate);
      assert Abs(s.left) == l && Rep(s.left, t.left, nullNode);
      s' := SetRight(t, r, s, sr);
    }

    /** Step 1: searches down, and sets lastNode and deletedNode. */
    method Descend(x: int, t: AANode, ghost s: Shape, ghost candidate: bool) returns (ghost s': Shape)
      requires Removable(x, t, s) && s.Branch? && candidate == Candidate(x)
      modifies Nodes(s), nullNode, deletedNode`element, `deletedNode, `lastNode
      ensures Rep(s', t, nullNode) && IsSentinel(nullNode) && Nodes(s') <= Nodes(s) && s'.Branch?
      ensures Abs(s') == AATrees.Descend(x, old(Abs(s)), candidate)
      ensures lastNode in Nodes(s) && (lastNode == t <==> AtBottom(x, old(Abs(s))))
      ensures lastNode == t ==> deletedNode == if x < old(t.element) then old(deletedNode) else t
      ensures var r := AATrees.Remove(x, old(Abs(s)), candidate);
              old(deletedNode) != nullNode ==>
                old(deletedNode).element ==
                  if candidate && r.done && lastNode != t then r.last else old(deletedNode.element)
      decreases s, 1
    {
      RemovalParts(x, Abs(s));
      lastNode := t;
      if x < t.element {
        s' := RemoveLeftOf(x, t, s, candidate);
      } else {
        deletedNode := t;
        s' := RemoveRightOf(x, t, s);
      }
    }

    method RemoveFrom(x: int, t: AANode, ghost s: Shape, ghost candidate: bool) returns (u: AANode, ghost s': Shape)
      requires Removable(x, t, s) && candidate == Candidate(x)
      modifies Nodes(s), nullNode, deletedNode`element, `deletedNode, `lastNode
      ensures Rep(s', u, nullNode) && IsSentinel(nullNode) && Nodes(s') <= Nodes(s)
      ensures Abs(s') == AATrees.Remove(x, old(Abs(s)), candidate).tree
      ensures var r := AATrees.Remove(x, old(Abs(s)), candidate);
              old(deletedNode) != nullNode ==>
                old(deletedNode).element == if candidate && r.done then r.last else old(deletedNode.element)
      ensures if s.Branch? then lastNode in Nodes(s) else lastNode == old(lastNode) && deletedNode == old(deletedNode)
      decreases s, 2
    {
      u, s' := t, s;
      if t != nullNode {
        RemoveInSteps(x, Abs(s), candidate);
        s' := Descend(x, t, s, candidate);
        if t == lastNode {
          if deletedNode == nullNode || x != deletedNode.element {
            return;
          }
          deletedNode.element := t.element;
          u, s' := t.right, s'.right;
        } else {
          u, s' := RebalanceNode(t, s');
        }
      }
    }

    /** The keys as a set. */
    ghost function KeySet(): set<int>
      reads this, Nodes(shape)
    {
      Elements(Keys())
    }

    /** Takes u, the root of s, as the new root. */
    method Adopt(u: AANode, ghost s: Shape)
      requires this in Repr && nullNode in Repr && IsSentinel(nullNode) && Rep(s, u, nullNode) && SearchTree(Abs(s))
      modifies `root, `shape, `Repr
      ensures Valid() && Repr == old(Repr) + Nodes(s)
      ensures Keys() == old(InOrder(Abs(s)))
    {
      ghost var t := Abs(s);
      root, shape, Repr := u, s, Repr + Nodes(s);
      assert Rep(s, u, nullNode);
      assert Abs(s) == t;
      assert Rep(s, u, nullNode) && Abs(s) == t;
    }

    method Insert(x: int)
      requires Valid()
      modifies Repr
      ensures Valid() && fresh(Repr - old(Repr))
      ensures KeySet() == old(KeySet()) + {x}
    {
      InsertRefines(x, Abs(shape));
      var u, s := InsertInto(x, root, shape);
      Adopt(u, s);
    }

    method Remove(x: int)
      requires Valid()
      modifies Repr
      ensures Valid() && fresh(Repr - old(Repr))
      ensures KeySet() == old(KeySet()) - {x}
    {
      deletedNode := nullNode;
      ghost var candidate := Candidate(x);
      RemoveRefines(x, Abs(shape), candidate);
      var u, s := RemoveFrom(x, root, shape, candidate);
      Adopt(u, s);
    }

    method FindMin() returns (answer: Option<int>)
      requires Valid()
      ensures Answers(KeySet(), FindMinOp, answer)
    {
      answer := None;
      if root != nullNode {
        SortedEnds(Keys());
        var ptr := root;
        ghost var s := shape;
        while ptr.left != nullNode
          invariant s.Branch? && Rep(s, ptr, nullNode) && InOrder(Abs(s)) != [] && InOrder(Abs(s))[0] == Keys()[0]
          decreases s
        {
          ptr, s := ptr.left, s.left;
        }
        answer := Some(ptr.element);
      }
    }

    method FindMax() returns (answer: Option<int>)
      requires Valid()
      ensures Answers(KeySet(), FindMaxOp, answer)
    {
      answer := None;
      if root != nullNode {
        SortedEnds(Keys());
        var ptr := root;
        ghost var s := shape;
        while ptr.right != nullNode
          invariant s.Branch? && Rep(s, ptr, nullNode) && InOrder(Abs(s)) != []
          invariant InOrder(Abs(s))[|InOrder(Abs(s))| - 1] == Keys()[|Keys()| - 1]
          decreases s
        {
          ptr, s := ptr.right, s.right;
        }
        answer := Some(ptr.element);
      }
    }

    /** Searches with x stored in the sentinel, so that the loop needs no test for the bottom. */
    method Find(x: int) returns (answer: Option<int>)
      requires Valid()
      modifies nullNode`element
      ensures Valid() && Repr == old(Repr) && KeySet() == old(KeySet())
      ensures Answers(KeySet(), FindOp(x), answer)
    {
      var current := root;
      ghost var keys := Keys();
      nullNode.element := x;
      ghost var s := shape;
      while true
        invariant nullNode.element == x && Valid() && Keys() == keys
        invariant Rep(s, current, nullNode) && Sorted(InOrder(Abs(s)))
        invariant x in keys <==> x in InOrder(Abs(s))
        decreases s
      {
        if s.Branch? {
          SortedParts(InOrder(Abs(s.left)), current.element, InOrder(Abs(s.right)));
        }
        if x < current.element {
          current, s := current.left, s.left;
        } else if x > current.element {
          current, s := current.right, s.right;
        } else if current != nullNode {
          return Some(current.element);
        } else {
          return None;
        }
      }
    }

    method MakeEmpty()
      requires Valid()
      modifies this`root, this`shape
      ensures Valid() && Repr == old(Repr) && KeySet() == {}
    {
      root := nullNode;
      shape := Leaf;
    }

    method IsEmpty() returns (empty: bool)
      requires Valid()
      ensures empty <==> KeySet() == {}
    {
      assert shape.Branch? ==> shape.node.element in KeySet();
      empty := root == nullNode;
    }
  }

  method Perform(tree: AATree, op: Op) returns (answer: Option<int>)
    requires tree.Valid()
    modifies tree.Repr
    ensures tree.Valid() && fresh(tree.Repr - old(tree.Repr))
    ensures tree.KeySet() == ApplyOne(old(tree.KeySet()), op)
    ensures Answers(old(tree.KeySet()), op, answer)
  {
    answer := None;
    match op {
      case InsertOp(x) => tree.Insert(x);
      case RemoveOp(x) => tree.Remove(x);
      case FindOp(x) => answer := tree.Find(x);
      case FindMinOp => answer := tree.FindMin();
      case FindMaxOp => answer := tree.FindMax();
      case MakeEmptyOp => tree.MakeEmpty();
    }
  }

  /** Over any run the tree stays a balanced search tree of exactly the keys a plain set would hold,
      and answers every question as the plain set would. */
  method Run(tree: AATree, ops: seq<Op>) returns (answers: seq<Option<int>>)
    requires tree.Valid()
    modifies tree.Repr
    ensures tree.Valid() && tree.KeySet() == Apply(old(tree.KeySet()), ops)
    ensures |answers| == |ops| && AllAnswered(old(tree.KeySet()), ops, answers)
  {
    answers := [];
    ghost var s0 := tree.KeySet();
    for i := 0 to |ops|
      invariant tree.Valid() && fresh(tree.Repr - old(tree.Repr))
      invariant |answers| == i && Followed(s0, ops, answers, tree.KeySet())
    {
      ghost var s := tree.KeySet();
      var answer := Perform(tree, ops[i]);
      FollowedOn(s0, ops, answers, s, answer);
      answers := answers + [answer];
    }
    assert ops[..|ops|] == ops;
  }
}
