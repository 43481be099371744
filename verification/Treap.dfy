/** The treap over linked nodes with a shared sentinel and random priorities. */
module Treap {
  import opened Basics
  import opened OrderedSets
  import opened Treaps
  import opened RandomGenerator

  /** The sentinel's priority, the largest int. */
  const LIMIT := 2147483647

  class TreapNode {
    var element: int
    var left: TreapNode
    var right: TreapNode
    var priority: int

    constructor (theElement: int, lt: TreapNode, rt: TreapNode, randomPriority: int)
      ensures element == theElement && left == lt && right == rt && priority == randomPriority
    {
      element := theElement;
      left := lt;
      right := rt;
      priority := randomPriority;
    }

    constructor Sentinel()
      ensures IsSentinel(this)
    {
      element := 0;
      left := this;
      right := this;
      priority := LIMIT;
    }
  }

  type Tree = Shape<TreapNode>

  ghost predicate IsSentinel(nil: TreapNode)
    reads nil
  {
    nil.left == nil && nil.right == nil && nil.priority == LIMIT
  }

  lemma NodesAllocated(s: Tree)
    ensures forall o :: o in Nodes(s) ==> allocated(o)
  {
    if s.Branch? {
      NodesAllocated(s.left);
      NodesAllocated(s.right);
    }
  }

  /** The links from t on draw the tree s, over nodes that all differ; nil stands for no tree. */
  ghost predicate Rep(s: Tree, t: TreapNode, nil: TreapNode)
    reads Nodes(s)
  {
    nil !in Nodes(s) &&
    match s
    case Leaf => t == nil
    case Branch(l, n, key, priority, r) =>
      t == n && n.element == key && n.priority == priority && n !in Nodes(l) && n !in Nodes(r) &&
      Nodes(l) !! Nodes(r) &&
      Rep(l, n.left, nil) && Rep(r, n.right, nil)
  }

  /** The states of a generator from which it never repeats before all are used up. */
  predicate GoodState(state: int) {
    1 <= state < M
  }

  /** A priority is always below the sentinel's. */
  method RandomPriority(random: Random) returns (p: int)
    requires GoodState(random.state)
    modifies random
    ensures GoodState(random.state) && p == random.state && p == Step(old(random.state)) && p < LIMIT
  {
    SchrageStep(random.state);
    p := random.RandomInt();
  }

  class Treap {
    const nullNode: TreapNode
    const randomObj: Random
    var root: TreapNode
    ghost var shape: Tree
    ghost var Repr: set<object>

    constructor (random: Random)
      requires GoodState(random.state)
      ensures Valid() && Repr == {this, nullNode, random} && fresh(nullNode) && KeySet() == {}
    {
      var nil := new TreapNode.Sentinel();
      nullNode := nil;
      randomObj := random;
      root := nil;
      shape := Leaf;
      Repr := {this, nil, random};
    }

    /** With a random object of its own, seeded from the system clock. */
    constructor FromClock(millis: int)
      ensures Valid() && fresh(Repr) && KeySet() == {}
    {
      var nil := new TreapNode.Sentinel();
      var random := new Random.FromClock(millis);
      nullNode := nil;
      randomObj := random;
      root := nil;
      shape := Leaf;
      Repr := {this, nil, random};
    }

    ghost predicate Valid()
      reads this, Repr
    {
      this in Repr && nullNode in Repr && randomObj in Repr && Nodes(shape) <= Repr &&
      IsSentinel(nullNode) && Rep(shape, root, nullNode) && Search(shape) &&
      Heap(shape, Priority(shape, LIMIT), LIMIT) && GoodState(randomObj.state)
    }

    ghost function KeySet(): set<int>
      reads this
    {
      Keys(shape)
    }

    method RotateWithLeftChild(k2: TreapNode, ghost s: Tree) returns (k1: TreapNode)
      requires Rep(s, k2, nullNode) && s.Branch? && s.left.Branch?
      modifies k2`left, s.left.node`right
      ensures Rep(RotateLeft(s), k1, nullNode)
    {
      assert Rep(s.left, k2.left, nullNode) && Rep(s.right, k2.right, nullNode);
      k1 := k2.left;
      k2.left := k1.right;
      k1.right := k2;
      assert Rep(Branch(s.left.right, s.node, s.key, s.priority, s.right), k2, nullNode);
    }

    /** Also used to take off a node without children: then the sentinel comes up, with that node for a left child. */
    method RotateWithRightChild(k1: TreapNode, ghost s: Tree) returns (k2: TreapNode)
      requires Rep(s, k1, nullNode) && s.Branch? && IsSentinel(nullNode) && (s.right.Branch? || s.left.Leaf?)
      modifies k1`right, k1.right`left
      ensures s.right.Branch? ==> Rep(RotateRight(s), k2, nullNode) && IsSentinel(nullNode)
      ensures s.right.Leaf? ==> k2 == nullNode && nullNode.right == nullNode && nullNode.priority == LIMIT
    {
      assert Rep(s.left, k1.left, nullNode) && Rep(s.right, k1.right, nullNode);
      k2 := k1.right;
      k1.right := k2.left;
      k2.left := k1;
      if s.right.Branch? {
        assert Rep(Branch(s.left, s.node, s.key, s.priority, s.right.left), k1, nullNode);
      }
    }

    method SetLeft(t: TreapNode, l: TreapNode, ghost s: Tree, ghost sl: Tree)
      requires s.Branch? && s.node == t && t != nullNode && t.element == s.key && t.priority == s.priority
      requires Rep(s.right, t.right, nullNode) && Rep(sl, l, nullNode)
      requires t !in Nodes(s.right) && t !in Nodes(sl) && Nodes(sl) !! Nodes(s.right)
      modifies t`left
      ensures Rep(s.(left := sl), t, nullNode)
    {
      t.left := l;
      assert Rep(s.right, t.right, nullNode) && Rep(sl, t.left, nullNode);
    }

    method SetRight(t: TreapNode, r: TreapNode, ghost s: Tree, ghost sr: Tree)
      requires s.Branch? && s.node == t && t != nullNode && t.element == s.key && t.priority == s.priority
      requires Rep(s.left, t.left, nullNode) && Rep(sr, r, nullNode)
      requires t !in Nodes(s.left) && t !in Nodes(sr) && Nodes(s.left) !! Nodes(sr)
      modifies t`right
      ensures Rep(s.(right := sr), t, nullNode)
    {
      t.right := r;
      assert Rep(s.left, t.left, nullNode) && Rep(sr, t.right, nullNode);
    }

    method InsertInto(x: int, t: TreapNode, ghost s: Tree) returns (u: TreapNode, ghost s': Tree)
      requires Rep(s, t, nullNode) && IsSentinel(nullNode) && Search(s) && Heap(s, Priority(s, LIMIT), LIMIT)
      requires GoodState(randomObj.state)
      modifies Nodes(s)`left, Nodes(s)`right, randomObj
      ensures Rep(s', u, nullNode) && Inserted(x, s, s', LIMIT) && fresh(Nodes(s') - Nodes(s)) &&
              GoodState(randomObj.state)
      ensures randomObj.state == (if x in Keys(s) then old(randomObj.state) else Step(old(randomObj.state)))
      ensures Entered(x, s, s', randomObj.state)
      decreases s, 1
    {
      u, s' := t, s;
      if t == nullNode {
        var priority := RandomPriority(randomObj);
        u := new TreapNode(x, nullNode, nullNode, priority);
        s' := Branch(Leaf, u, x, priority, Leaf);
        InsertedHere(x, u, priority, LIMIT);
      } else if x < t.element {
        u, s' := InsertLeftOf(x, t, s);
      } else if x > t.element {
        u, s' := InsertRightOf(x, t, s);
      } else {
        AlreadyThere(s, LIMIT);
      }
    }

    /** Below t, on the left. */
    method InsertLeftOf(x: int, t: TreapNode, ghost s: Tree) returns (u: TreapNode, ghost s': Tree)
      requires Rep(s, t, nullNode) && IsSentinel(nullNode) && Search(s) && Heap(s, Priority(s, LIMIT), LIMIT)
      requires GoodState(randomObj.state) && s.Branch? && x < s.key
      modifies Nodes(s)`left, Nodes(s)`right, randomObj
      ensures Rep(s', u, nullNode) && Inserted(x, s, s', LIMIT) && fresh(Nodes(s') - Nodes(s)) &&
              GoodState(randomObj.state)
      ensures randomObj.state == (if x in Keys(s) then old(randomObj.state) else Step(old(randomObj.state)))
      ensures Entered(x, s, s', randomObj.state)
      decreases s, 0
    {
      assert Rep(s.left, t.left, nullNode) && Rep(s.right, t.right, nullNode);
      NodesAllocated(s);
      HeapRaise(s.left, s.priority, Priority(s.left, LIMIT), LIMIT);
      Parts(s);
      var c, sc := InsertInto(x, t.left, s.left);
      EnteredLeft(x, s, sc, randomObj.state);
      SetLeft(t, c, s, sc);
      u, s' := t, s.(left := sc);
      RotateNodes(s');
      RotateEntries(s');
      if t.left.priority < t.priority {
        u := RotateWithLeftChild(t, s');
        s' := RotateLeft(s');
      }
      InsertedLeft(x, s, sc, LIMIT, s');
    }

    /** Below t, on the right. */
    method InsertRightOf(x: int, t: TreapNode, ghost s: Tree) returns (u: TreapNode, ghost s': Tree)
      requires Rep(s, t, nullNode) && IsSentinel(nullNode) && Search(s) && Heap(s, Priority(s, LIMIT), LIMIT)
      requires GoodState(randomObj.state) && s.Branch? && x > s.key
      modifies Nodes(s)`left, Nodes(s)`right, randomObj
      ensures Rep(s', u, nullNode) && Inserted(x, s, s', LIMIT) && fresh(Nodes(s') - Nodes(s)) &&
              GoodState(randomObj.state)
      ensures randomObj.state == (if x in Keys(s) then old(randomObj.state) else Step(old(randomObj.state)))
      ensures Entered(x, s, s', randomObj.state)
      decreases s, 0
    {
      assert Rep(s.left, t.left, nullNode) && Rep(s.right, t.right, nullNode);
      NodesAllocated(s);
      HeapRaise(s.right, s.priority, Priority(s.right, LIMIT), LIMIT);
      Parts(s);
      var c, sc := InsertInto(x, t.right, s.right);
      EnteredRight(x, s, sc, randomObj.state);
      SetRight(t, c, s, sc);
      u, s' := t, s.(right := sc);
      RotateNodes(s');
      RotateEntries(s');
      if t.right.priority < t.priority {
        u := RotateWithRightChild(t, s');
        s' := RotateRight(s');
      }
      InsertedRight(x, s, sc, LIMIT, s');
    }

    /** The node t, which holds x, is to go: moves it down, or takes it off if it has no children. */
    method Sink(x: int, t: TreapNode, ghost s: Tree, ghost b: int) returns (u: TreapNode, ghost s': Tree)
      requires Rep(s, t, nullNode) && IsSentinel(nullNode) && s.Branch? && s.key == x && Search(s) &&
               HeapBut(s, x, b, LIMIT)
      modifies Nodes(s)`left, Nodes(s)`right, nullNode`left
      ensures if s'.Leaf?
              then s.left.Leaf? && s.right.Leaf? && u == nullNode && nullNode.right == nullNode &&
                   nullNode.priority == LIMIT
              else s'.key != x && Rep(s', u, nullNode) && IsSentinel(nullNode) && Search(s') &&
                   HeapBut(s', x, b, LIMIT) &&
                   Keys(s') == Keys(s) && Nodes(s') == Nodes(s) && Size(s') == Size(s) && Entries(s') == Entries(s)
    {
      assert Rep(s.left, t.left, nullNode) && Rep(s.right, t.right, nullNode);
      RealChild(s, x, b, LIMIT);
      RotateNodes(s);
      RotateEntries(s);
      if t.left.priority < t.right.priority {
        SinkLeft(x, s, b, LIMIT);
        RotateLeftKeeps(s);
        u := RotateWithLeftChild(t, s);
        s' := RotateLeft(s);
      } else {
        if s.right.Branch? {
          SinkRight(x, s, b, LIMIT);
          RotateRightKeeps(s);
          s' := RotateRight(s);
        } else {
          s' := Leaf;
        }
        u := RotateWithRightChild(t, s);
      }
    }

    method RemoveFrom(x: int, t: TreapNode, ghost s: Tree, ghost b: int) returns (u: TreapNode, ghost s': Tree)
      requires Rep(s, t, nullNode) && IsSentinel(nullNode) && Search(s) && HeapBut(s, x, b, LIMIT)
      modifies Nodes(s)`left, Nodes(s)`right, nullNode`left
      ensures Rep(s', u, nullNode) && IsSentinel(nullNode) && Removed(x, s, s', b, LIMIT) && Nodes(s') <= Nodes(s)
      ensures Spared(x, s, s')
      decreases Size(s), s.Branch? && s.key == x
    {
      u, s' := t, s;
      if t != nullNode {
        assert Rep(s.left, t.left, nullNode) && Rep(s.right, t.right, nullNode);
        NodesAllocated(s);
        Parts(s);
        if x < t.element {
          var l, sl := RemoveFrom(x, t.left, s.left, s.priority);
          SetLeft(t, l, s, sl);
          s' := s.(left := sl);
          RemovedLeft(x, s, sl, b, LIMIT);
          SparedLeft(x, s, sl);
        } else if x > t.element {
          var r, sr := RemoveFrom(x, t.right, s.right, s.priority);
          SetRight(t, r, s, sr);
          s' := s.(right := sr);
          RemovedRight(x, s, sr, b, LIMIT);
          SparedRight(x, s, sr);
        } else {
          ghost var v;
          u, v := Sink(x, t, s, b);
          if u != nullNode {
            u, s' := RemoveFrom(x, u, v, b);
          } else {
            u.left := nullNode;
            s' := Leaf;
          }
        }
      }
    }

    method Insert(x: int)
      requires Valid()
      modifies Repr
      ensures Valid() && fresh(Repr - old(Repr)) && KeySet() == old(KeySet()) + {x}
      ensures if x in old(KeySet())
              then randomObj.state == old(randomObj.state) && Entries(shape) == old(Entries(shape))
              else randomObj.state == Step(old(randomObj.state)) &&
                   Entries(shape) == old(Entries(shape)) + {(x, randomObj.state)}
    {
      NodesAllocated(shape);
      var u, s := InsertInto(x, root, shape);
      root, shape, Repr := u, s, Repr + Nodes(s);
      assert Rep(shape, root, nullNode);
    }

    method Remove(x: int)
      requires Valid()
      modifies Repr
      ensures Valid() && Repr == old(Repr) && KeySet() == old(KeySet()) - {x}
      ensures forall e :: e in Entries(shape) <==> e in old(Entries(shape)) && e.0 != x
    {
      ghost var b := Priority(shape, LIMIT);
      HeapIsHeapBut(shape, x, b, LIMIT);
      var u, s := RemoveFrom(x, root, shape, b);
      HeapRaise(s, b, Priority(s, LIMIT), LIMIT);
      root, shape := u, s;
      assert Rep(shape, root, nullNode);
    }

    /** Searches with x stored in the sentinel, so that the loop needs no test for the bottom. */
    method Find(x: int) returns (answer: Option<int>)
      requires Valid()
      modifies nullNode`element
      ensures Valid() && Repr == old(Repr) && KeySet() == old(KeySet())
      ensures Answers(KeySet(), FindOp(x), answer)
    {
      var current := root;
      nullNode.element := x;
      ghost var s := shape;
      while true
        invariant nullNode.element == x && Rep(s, current, nullNode) && Search(s) &&
                  (x in Keys(shape) <==> x in Keys(s))
        decreases s
      {
        if s.Branch? {
          Parts(s);
        }
        if x < current.element {
          current, s := current.left, s.left;
        } else if x > current.element {
          current, s := current.right, s.right;
        } else if current != nullNode {
          return Some(current.element);
        } else {
          return None;
        }
      }
    }

    method FindMin() returns (answer: Option<int>)
      requires Valid()
      ensures Answers(KeySet(), FindMinOp, answer)
    {
      if root == nullNode {
        return None;
      }
      SortedEnds(InOrder(shape));
      var ptr := root;
      ghost var s := shape;
      while ptr.left != nullNode
        invariant s.Branch? && Rep(s, ptr, nullNode) && InOrder(s) != [] && InOrder(s)[0] == InOrder(shape)[0]
        decreases s
      {
        ptr, s := ptr.left, s.left;
      }
      return Some(ptr.element);
    }

    method FindMax() returns (answer: Option<int>)
      requires Valid()
      ensures Answers(KeySet(), FindMaxOp, answer)
    {
      if root == nullNode {
        return None;
      }
      SortedEnds(InOrder(shape));
      var ptr := root;
      ghost var s := shape;
      while ptr.right != nullNode
        invariant s.Branch? && Rep(s, ptr, nullNode) && InOrder(s) != []
        invariant InOrder(s)[|InOrder(s)| - 1] == InOrder(shape)[|InOrder(shape)| - 1]
        decreases s
      {
        ptr, s := ptr.right, s.right;
      }
      return Some(ptr.element);
    }

    method MakeEmpty()
      requires Valid()
      modifies `root, `shape
      ensures Valid() && KeySet() == {}
    {
      root, shape := nullNode, Leaf;
    }

    method IsEmpty() returns (empty: bool)
      requires Valid()
      ensures empty <==> KeySet() == {}
    {
      if shape.Branch? {
        Parts(shape);
      }
      empty := root == nullNode;
    }
  }

  method Perform(tree: Treap, op: Op) returns (answer: Option<int>)
    requires tree.Valid()
    modifies tree.Repr
    ensures tree.Valid() && fresh(tree.Repr - old(tree.Repr))
    ensures tree.KeySet() == ApplyOne(old(tree.KeySet()), op)
    ensures Answers(old(tree.KeySet()), op, answer)
  {
    answer := None;
    match op {
      case InsertOp(x) => tree.Insert(x);
      case RemoveOp(x) => tree.Remove(x);
      case FindOp(x) => answer := tree.Find(x);
      case FindMinOp => answer := tree.FindMin();
      case FindMaxOp => answer := tree.FindMax();
      case MakeEmptyOp => tree.MakeEmpty();
    }
  }

  /** Over any run, whatever the priorities drawn, the treap holds and reports what a plain set would. */
  method Run(tree: Treap, ops: seq<Op>) returns (answers: seq<Option<int>>)
    requires tree.Valid()
    modifies tree.Repr
    ensures tree.Valid() && tree.KeySet() == Apply(old(tree.KeySet()), ops)
    ensures |answers| == |ops| && AllAnswered(old(tree.KeySet()), ops, answers)
  {
    answers := [];
    ghost var s0 := tree.KeySet();
    for i := 0 to |ops|
      invariant tree.Valid() && fresh(tree.Repr - old(tree.Repr))
      invariant |answers| == i && Followed(s0, ops, answers, tree.KeySet())
    {
      ghost var s := tree.KeySet();
      var answer := Perform(tree, ops[i]);
      FollowedOn(s0, ops, answers, s, answer);
      answers := answers + [answer];
    }
    assert ops[..|ops|] == ops;
  }
}
