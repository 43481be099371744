/** The top-down splay tree over linked nodes with a shared sentinel and header. */
module SplayTree {
  import opened Basics
  import opened OrderedSets
  import opened SplayCosts
  import opened SplayTrees

  type Shape = SplayTrees.Shape<BinaryNode>
  type Spine = SplayTrees.Spine<BinaryNode>

  class BinaryNode {
    var element: int
    var left: BinaryNode
    var right: BinaryNode

    constructor (theElement: int, lt: BinaryNode, rt: BinaryNode)
      ensures element == theElement && left == lt && right == rt
    {
      element := theElement;
      left := lt;
      right := rt;
    }

    constructor Sentinel()
      ensures IsSentinel(this)
    {
      element := 0;
      left := this;
      right := this;
    }
  }

  ghost predicate IsSentinel(nil: BinaryNode)
    reads nil
  {
    nil.left == nil && nil.right == nil
  }

  // ---------- Trees ----------

  lemma NodesAllocated(s: Shape)
    ensures forall o :: o in Nodes(s) ==> allocated(o)
  {
    if s.Branch? {
      NodesAllocated(s.left);
      NodesAllocated(s.right);
    }
  }

  /** The links from t on draw the tree s, over nodes that all differ; nil stands for no tree. */
  ghost predicate Rep(s: Shape, t: BinaryNode, nil: BinaryNode)
    reads Nodes(s)
  {
    nil !in Nodes(s) &&
    match s
    case Leaf => t == nil
    case Branch(l, n, key, r) =>
      t == n && n.element == key && n !in Nodes(l) && n !in Nodes(r) && Nodes(l) !! Nodes(r) &&
      Rep(l, n.left, nil) && Rep(r, n.right, nil)
  }

  lemma SpineAllocated(p: Spine)
    ensures forall o :: o in SpineNodes(p) ==> allocated(o)
  {
    if p.Link? {
      SpineAllocated(p.rest);
      NodesAllocated(p.side);
    }
  }

  /** The node whose open link the next piece will be hung on. */
  ghost function Last(p: Spine, header: BinaryNode): BinaryNode {
    if p.End? then header else p.node
  }

  /** The tree of smaller keys, hung on header.right and open at the link Last.right. */
  ghost predicate LeftSpine(p: Spine, header: BinaryNode, nil: BinaryNode)
    reads header`right, SpineNodes(p)
  {
    header !in SpineNodes(p) && nil !in SpineNodes(p) &&
    match p
    case End => true
    case Link(rest, side, n, key) =>
      LeftSpine(rest, header, nil) && Last(rest, header).right == n && n.element == key && Rep(side, n.left, nil) &&
      n !in SpineNodes(rest) && n !in Nodes(side) && SpineNodes(rest) !! Nodes(side)
  }

  /** The tree of larger keys, hung on header.left and open at the link Last.left. */
  ghost predicate RightSpine(p: Spine, header: BinaryNode, nil: BinaryNode)
    reads header`left, SpineNodes(p)
  {
    header !in SpineNodes(p) && nil !in SpineNodes(p) &&
    match p
    case End => true
    case Link(rest, side, n, key) =>
      RightSpine(rest, header, nil) && Last(rest, header).left == n && n.element == key && Rep(side, n.right, nil) &&
      n !in SpineNodes(rest) && n !in Nodes(side) && SpineNodes(rest) !! Nodes(side)
  }

  /** Hanging s on the open link of a left spine closes it to a tree. */
  lemma LeftClosed(p: Spine, s: Shape, header: BinaryNode, nil: BinaryNode)
    requires LeftSpine(p, header, nil) && Rep(s, Last(p, header).right, nil) && SpineNodes(p) !! Nodes(s)
    ensures Rep(ClosedLeft(p, s), header.right, nil) && Nodes(ClosedLeft(p, s)) == SpineNodes(p) + Nodes(s)
    ensures InOrder(ClosedLeft(p, s)) == LeftKeys(p) + InOrder(s)
  {
    LeftLinked(p, s, header, nil);
    ClosedLeftKeys(p, s);
  }

  lemma {:induction false} LeftLinked(p: Spine, s: Shape, header: BinaryNode, nil: BinaryNode)
    requires LeftSpine(p, header, nil) && Rep(s, Last(p, header).right, nil) && SpineNodes(p) !! Nodes(s)
    ensures Rep(ClosedLeft(p, s), header.right, nil)
    decreases p
  {
    if p.Link? {
      var s' := Branch(p.side, p.node, p.key, s);
      assert Rep(s', p.node, nil);
      LeftLinked(p.rest, s', header, nil);
    }
  }

  lemma RightClosed(p: Spine, s: Shape, header: BinaryNode, nil: BinaryNode)
    requires RightSpine(p, header, nil) && Rep(s, Last(p, header).left, nil) && SpineNodes(p) !! Nodes(s)
    ensures Rep(ClosedRight(p, s), header.left, nil) && Nodes(ClosedRight(p, s)) == SpineNodes(p) + Nodes(s)
    ensures InOrder(ClosedRight(p, s)) == InOrder(s) + RightKeys(p)
  {
    RightLinked(p, s, header, nil);
    ClosedRightKeys(p, s);
  }

  lemma {:induction false} RightLinked(p: Spine, s: Shape, header: BinaryNode, nil: BinaryNode)
    requires RightSpine(p, header, nil) && Rep(s, Last(p, header).left, nil) && SpineNodes(p) !! Nodes(s)
    ensures Rep(ClosedRight(p, s), header.left, nil)
    decreases p
  {
    if p.Link? {
      var s' := Branch(s, p.node, p.key, p.side);
      assert Rep(s', p.node, nil);
      RightLinked(p.rest, s', header, nil);
    }
  }

  class SplayTree {
    const nullNode: BinaryNode
    const header: BinaryNode
    var root: BinaryNode
    var newNode: BinaryNode?
    ghost var shape: Shape
    ghost var Repr: set<object>

    constructor ()
      ensures Valid() && fresh(Repr) && Keys() == []
    {
      var nil := new BinaryNode.Sentinel();
      var head := new BinaryNode(0, nil, nil);
      nullNode := nil;
      header := head;
      root := nil;
      newNode := null;
      shape := Leaf;
      Repr := {this, nil, head};
    }

    ghost predicate Valid()
      reads this, Repr
    {
      this in Repr && nullNode in Repr && header in Repr && Nodes(shape) <= Repr &&
      IsSentinel(nullNode) && Rep(shape, root, nullNode) && Sorted(InOrder(shape)) &&
      header != nullNode && header !in Nodes(shape) &&
      (newNode != null ==> newNode in Repr && newNode !in Nodes(shape) && newNode != nullNode && newNode != header)
    }

    /** The keys in order. */
    ghost function Keys(): seq<int>
      reads this
    {
      InOrder(shape)
    }

    method RotateWithLeftChild(k2: BinaryNode, ghost s: Shape) returns (k1: BinaryNode, ghost s': Shape)
      requires Rep(s, k2, nullNode) && s.Branch? && s.left.Branch?
      modifies Nodes(s)`left, Nodes(s)`right
      ensures Rep(s', k1, nullNode) && Nodes(s') == Nodes(s) && Size(s') == Size(s) && InOrder(s') == InOrder(s)
      ensures s' == RotatedLeft(s)
    {
      assert Rep(s.left, k2.left, nullNode) && Rep(s.right, k2.right, nullNode);
      k1 := k2.left;
      k2.left := k1.right;
      k1.right := k2;
      assert Rep(Branch(s.left.right, s.node, s.key, s.right), k2, nullNode);
      s' := Branch(s.left.left, s.left.node, s.left.key, Branch(s.left.right, s.node, s.key, s.right));
      assert InOrder(s') == InOrder(s);
    }

    method RotateWithRightChild(k1: BinaryNode, ghost s: Shape) returns (k2: BinaryNode, ghost s': Shape)
      requires Rep(s, k1, nullNode) && s.Branch? && s.right.Branch?
      modifies Nodes(s)`left, Nodes(s)`right
      ensures Rep(s', k2, nullNode) && Nodes(s') == Nodes(s) && Size(s') == Size(s) && InOrder(s') == InOrder(s)
      ensures s' == RotatedRight(s)
    {
      assert Rep(s.left, k1.left, nullNode) && Rep(s.right, k1.right, nullNode);
      k2 := k1.right;
      k1.right := k2.left;
      k2.left := k1;
      assert Rep(Branch(s.left, s.node, s.key, s.right.left), k1, nullNode);
      s' := Branch(Branch(s.left, s.node, s.key, s.right.left), s.right.node, s.right.key, s.right.right);
      assert InOrder(s') == InOrder(s);
    }

    /** The three pieces of a tree in mid-splay: what is known smaller, what is left, what is known larger. */
    ghost predicate Pieces(l: Spine, t: BinaryNode, s: Shape, r: Spine)
      reads this, header, SpineNodes(l), Nodes(s), SpineNodes(r)
    {
      LeftSpine(l, header, nullNode) && Rep(s, t, nullNode) && RightSpine(r, header, nullNode) &&
      header !in Nodes(s) && header != nullNode &&
      SpineNodes(l) !! Nodes(s) && SpineNodes(r) !! Nodes(s) && SpineNodes(l) !! SpineNodes(r)
    }

    /** Hangs t, whose left subtree will be looked at next, on the tree of larger keys. */
    method LinkRight(t: BinaryNode, rightTreeMin: BinaryNode, ghost l: Spine, ghost s: Shape, ghost r: Spine)
      returns (newMin: BinaryNode, u: BinaryNode, ghost s': Shape, ghost r': Spine)
      requires Pieces(l, t, s, r) && s.Branch? && rightTreeMin == Last(r, header)
      modifies rightTreeMin`left
      ensures newMin == t && r' == Link(r, s.right, t, s.key) && s' == s.left && Pieces(l, u, s', r')
    {
      rightTreeMin.left := t;
      assert Rep(s, t, nullNode);
      newMin, u, s', r' := t, t.left, s.left, Link(r, s.right, t, s.key);
      assert RightSpine(r, header, nullNode);
      assert LeftSpine(l, header, nullNode);
    }

    method LinkLeft(t: BinaryNode, leftTreeMax: BinaryNode, ghost l: Spine, ghost s: Shape, ghost r: Spine)
      returns (newMax: BinaryNode, u: BinaryNode, ghost s': Shape, ghost l': Spine)
      requires Pieces(l, t, s, r) && s.Branch? && leftTreeMax == Last(l, header)
      modifies leftTreeMax`right
      ensures newMax == t && l' == Link(l, s.left, t, s.key) && s' == s.right && Pieces(l', u, s', r)
    {
      leftTreeMax.right := t;
      assert Rep(s, t, nullNode);
      newMax, u, s', l' := t, t.right, s.right, Link(l, s.left, t, s.key);
      assert LeftSpine(l, header, nullNode);
      assert RightSpine(r, header, nullNode);
    }

    /** Hangs the left subtree of t on the tree of smaller keys. */
    method CloseLeft(t: BinaryNode, leftTreeMax: BinaryNode, ghost l: Spine, ghost s: Shape, ghost r: Spine)
      requires Pieces(l, t, s, r) && leftTreeMax == Last(l, header) && s.Branch?
      modifies leftTreeMax`right
      ensures var a := ClosedLeft(l, s.left);
              Rep(a, header.right, nullNode) && Nodes(a) == SpineNodes(l) + Nodes(s.left) &&
              InOrder(a) == LeftKeys(l) + InOrder(s.left)
      ensures RightSpine(r, header, nullNode) && Rep(s.right, t.right, nullNode)
    {
      assert Rep(s.left, t.left, nullNode) && Rep(s.right, t.right, nullNode);
      leftTreeMax.right := t.left;
      assert LeftSpine(l, header, nullNode);
      assert RightSpine(r, header, nullNode);
      assert Rep(s.left, leftTreeMax.right, nullNode);
      assert Rep(s.right, t.right, nullNode);
      LeftClosed(l, s.left, header, nullNode);
    }

    /** Hangs the right subtree b0 of t on the tree of larger keys. */
    method CloseRight(t: BinaryNode, rightTreeMin: BinaryNode, ghost a: Shape, ghost b0: Shape, ghost r: Spine)
      requires RightSpine(r, header, nullNode) && Rep(b0, t.right, nullNode) && Rep(a, header.right, nullNode)
      requires rightTreeMin == Last(r, header) && t != rightTreeMin && header != nullNode && header !in Nodes(a)
      requires SpineNodes(r) !! Nodes(b0) && SpineNodes(r) !! Nodes(a) && header !in Nodes(b0)
      modifies rightTreeMin`left
      ensures Rep(a, header.right, nullNode)
      ensures var b := ClosedRight(r, b0);
              Rep(b, header.left, nullNode) && Nodes(b) == SpineNodes(r) + Nodes(b0) &&
              InOrder(b) == InOrder(b0) + RightKeys(r)
    {
      rightTreeMin.left := t.right;
      assert RightSpine(r, header, nullNode);
      assert Rep(b0, rightTreeMin.left, nullNode);
      assert Rep(a, header.right, nullNode);
      RightClosed(r, b0, header, nullNode);
    }

    /** Makes t the root of the trees that hang on the header. */
    method TakeBoth(t: BinaryNode, ghost a: Shape, ghost b: Shape)
      requires t != header && t != nullNode && Rep(a, header.right, nullNode) && Rep(b, header.left, nullNode)
      requires t !in Nodes(a) && t !in Nodes(b) && Nodes(a) !! Nodes(b)
      modifies t`left, t`right
      ensures Rep(Branch(a, t, t.element, b), t, nullNode)
    {
      t.left := header.right;
      assert Rep(b, header.left, nullNode);
      t.right := header.left;
      assert Rep(a, t.left, nullNode);
    }

    /** Makes t the root, between the tree of smaller and the tree of larger keys. */
    method Assemble(x: int, t: BinaryNode, leftTreeMax: BinaryNode, rightTreeMin: BinaryNode,
                    ghost whole: Shape, ghost l: Spine, ghost s: Shape, ghost r: Spine)
      requires Pieces(l, t, s, r) && leftTreeMax == Last(l, header) && rightTreeMin == Last(r, header)
      requires s.Branch? && nullNode != header && CutOf(x, whole, l, s, r) && Parted(x, s)
      modifies leftTreeMax`right, rightTreeMin`left, t`left, t`right
      ensures var u := Whole(l, s, r);
              Rep(u, t, nullNode) && Nodes(u) == Nodes(whole) && InOrder(u) == InOrder(whole) && Parted(x, u)
    {
      ghost var a, b := ClosedLeft(l, s.left), ClosedRight(r, s.right);
      CloseLeft(t, leftTreeMax, l, s, r);
      assert t in Nodes(s) && t != rightTreeMin;
      CloseRight(t, rightTreeMin, a, s.right, r);
      Assembled(x, whole, l, s, r, a, b);
      AssembledApart(l, s, r);
      TakeBoth(t, a, b);
    }

    /** Rotates if the search goes left twice. */
    method ZigLeft(x: int, t0: BinaryNode, ghost l: Spine, ghost s0: Shape, ghost r: Spine) returns (t: BinaryNode)
      requires Pieces(l, t0, s0, r) && s0.Branch? && IsSentinel(nullNode) && nullNode.element == x < t0.element
      modifies Nodes(s0)`left, Nodes(s0)`right
      ensures Pieces(l, t, ZiggedLeft(x, s0), r)
    {
      t := t0;
      SpineAllocated(l);
      SpineAllocated(r);
      assert Rep(s0.left, t.left, nullNode);
      if x < t.left.element {
        ghost var s;
        t, s := RotateWithLeftChild(t, s0);
      }
    }

    /** One step of the search to the left; done when there is nothing there. */
    method StepLeft(x: int, t0: BinaryNode, min0: BinaryNode, ghost s0: Shape, ghost l: Spine, ghost s: Shape,
                    ghost r: Spine)
      returns (done: bool, t: BinaryNode, rightTreeMin: BinaryNode, ghost s': Shape, ghost r': Spine)
      requires Pieces(l, t0, s, r) && s.Branch? && min0 == Last(r, header)
      requires IsSentinel(nullNode) && nullNode.element == x < t0.element
      modifies Nodes(s)`left, Nodes(s)`right, min0`left
      ensures Pieces(l, t, s', r') && rightTreeMin == Last(r', header)
      ensures var z := ZiggedLeft(x, s);
              if done then z.left.Leaf? && s' == z && r' == r
              else z.left.Branch? && s' == z.left && r' == Link(r, z.right, z.node, z.key)
    {
      rightTreeMin, s', r' := min0, ZiggedLeft(x, s), r;
      t := ZigLeft(x, t0, l, s, r);
      assert Rep(s'.left, t.left, nullNode);
      done := t.left == nullNode;
      if !done {
        rightTreeMin, t, s', r' := LinkRight(t, rightTreeMin, l, s', r);
      }
    }

    method ZigRight(x: int, t0: BinaryNode, ghost l: Spine, ghost s0: Shape, ghost r: Spine) returns (t: BinaryNode)
      requires Pieces(l, t0, s0, r) && s0.Branch? && IsSentinel(nullNode) && nullNode.element == x > t0.element
      modifies Nodes(s0)`left, Nodes(s0)`right
      ensures Pieces(l, t, ZiggedRight(x, s0), r)
    {
      t := t0;
      SpineAllocated(l);
      SpineAllocated(r);
      assert Rep(s0.right, t.right, nullNode);
      if x > t.right.element {
        ghost var s;
        t, s := RotateWithRightChild(t, s0);
      }
    }

    method StepRight(x: int, t0: BinaryNode, max0: BinaryNode, ghost s0: Shape, ghost l: Spine, ghost s: Shape,
                     ghost r: Spine)
      returns (done: bool, t: BinaryNode, leftTreeMax: BinaryNode, ghost s': Shape, ghost l': Spine)
      requires Pieces(l, t0, s, r) && s.Branch? && max0 == Last(l, header)
      requires IsSentinel(nullNode) && nullNode.element == x > t0.element
      modifies Nodes(s)`left, Nodes(s)`right, max0`right
      ensures Pieces(l', t, s', r) && leftTreeMax == Last(l', header)
      ensures var z := ZiggedRight(x, s);
              if done then z.right.Leaf? && s' == z && l' == l
              else z.right.Branch? && s' == z.right && l' == Link(l, z.left, z.node, z.key)
    {
      leftTreeMax, s', l' := max0, ZiggedRight(x, s), l;
      t := ZigRight(x, t0, l, s, r);
      assert Rep(s'.right, t.right, nullNode);
      done := t.right == nullNode;
      if !done {
        leftTreeMax, t, s', l' := LinkLeft(t, leftTreeMax, l, s', r);
      }
    }

    /** The loop of the splay: cuts the tree into three pieces around the node where the search for x ends. */
    method Cut(x: int, t0: BinaryNode, ghost s0: Shape)
      returns (t: BinaryNode, leftTreeMax: BinaryNode, rightTreeMin: BinaryNode,
               ghost l: Spine, ghost s: Shape, ghost r: Spine, ghost passes: nat)
      requires Pieces(End, t0, s0, End) && Splaying(x, s0, End, s0, End, 0, Free)
      requires IsSentinel(nullNode) && nullNode.element == x
      modifies Nodes(s0)`left, Nodes(s0)`right, header`left, header`right
      ensures Pieces(l, t, s, r) && leftTreeMax == Last(l, header) && rightTreeMin == Last(r, header)
      ensures Splayed(x, s0, l, s, r, passes)
    {
      t, s, l, r := t0, s0, End, End;
      leftTreeMax, rightTreeMin := header, header;
      passes := 0;
      ghost var debt := Free;
      while true
        invariant Pieces(l, t, s, r) && IsSentinel(nullNode) && nullNode.element == x
        invariant leftTreeMax == Last(l, header) && rightTreeMin == Last(r, header)
        invariant Splaying(x, s0, l, s, r, passes, debt)
        decreases Size(s)
      {
        var done;
        done, t, leftTreeMax, rightTreeMin, l, s, r, debt :=
          Pass(x, t, leftTreeMax, rightTreeMin, s0, l, s, r, passes, debt);
        passes := passes + 1;
        if done {
          break;
        }
      }
    }

    /** The body of the loop. */
    method Pass(x: int, t0: BinaryNode, max0: BinaryNode, min0: BinaryNode, ghost s0: Shape,
                ghost l0: Spine, ghost s: Shape, ghost r0: Spine, ghost passes: nat, ghost debt: Debt)
      returns (done: bool, t: BinaryNode, leftTreeMax: BinaryNode, rightTreeMin: BinaryNode,
               ghost l: Spine, ghost s': Shape, ghost r: Spine, ghost debt': Debt)
      requires Pieces(l0, t0, s, r0) && max0 == Last(l0, header) && min0 == Last(r0, header)
      requires IsSentinel(nullNode) && nullNode.element == x && Splaying(x, s0, l0, s, r0, passes, debt)
      modifies Nodes(s0)`left, Nodes(s0)`right, header`left, header`right
      ensures Pieces(l, t, s', r) && leftTreeMax == Last(l, header) && rightTreeMin == Last(r, header)
      ensures if done then Splayed(x, s0, l, s', r, passes + 1) else Splaying(x, s0, l, s', r, passes + 1, debt')
      ensures Size(s') <= Size(s) && (!done ==> Size(s') < Size(s))
    {
      t, leftTreeMax, rightTreeMin, l, s', r, debt' := t0, max0, min0, l0, s, r0, debt;
      if x < t.element {
        debt' := SplayLeft(x, s0, l0, s, r0, passes, debt);
        ZiggedLeftKeeps(x, s0, l0, s, r0);
        done, t, rightTreeMin, s', r := StepLeft(x, t, rightTreeMin, s0, l, s, r);
      } else if x > t.element {
        debt' := SplayRight(x, s0, l0, s, r0, passes, debt);
        ZiggedRightKeeps(x, s0, l0, s, r0);
        done, t, leftTreeMax, s', l := StepRight(x, t, leftTreeMax, s0, l, s, r);
      } else {
        SplayHere(x, s0, l0, s, r0, passes, debt);
        done := true;
      }
    }

    /** Brings to the root the node where the search for x ends. */
    method Splay(x: int, t0: BinaryNode, ghost s0: Shape) returns (t: BinaryNode, ghost s: Shape, ghost passes: nat)
      requires Rep(s0, t0, nullNode) && IsSentinel(nullNode) && Sorted(InOrder(s0))
      requires header != nullNode && header !in Nodes(s0)
      modifies Nodes(s0)`left, Nodes(s0)`right, header, nullNode
      ensures Rep(s, t, nullNode) && IsSentinel(nullNode) && Nodes(s) == Nodes(s0) && InOrder(s) == InOrder(s0)
      ensures Parted(x, s) && nullNode.element == x
      ensures Amortized(s0, s, passes) && Reached(x, s0, 0, 0, passes)
      ensures passes == SplayPasses(x, s0) && s == AfterSplay(x, s0)
    {
      header.left, header.right := nullNode, nullNode;
      nullNode.element := x;
      if t0 == nullNode {
        // The sentinel matches at once, and the closing assignments relink it to itself.
        t, s, passes := t0, s0, 1;
        header.right, header.left := t.left, t.right;
        t.left, t.right := header.right, header.left;
      } else {
        t, s, passes := SplayNodes(x, t0, s0);
      }
    }

    /** The splay of a tree that is not empty. */
    method SplayNodes(x: int, t0: BinaryNode, ghost s0: Shape)
      returns (t: BinaryNode, ghost s: Shape, ghost passes: nat)
      requires Rep(s0, t0, nullNode) && s0.Branch? && IsSentinel(nullNode) && nullNode.element == x
      requires header != nullNode && header !in Nodes(s0) && Sorted(InOrder(s0))
      modifies Nodes(s0)`left, Nodes(s0)`right, header`left, header`right
      ensures Rep(s, t, nullNode) && Nodes(s) == Nodes(s0) && InOrder(s) == InOrder(s0) && Parted(x, s)
      ensures Amortized(s0, s, passes) && Reached(x, s0, 0, 0, passes)
      ensures passes == SplayPasses(x, s0) && s == AfterSplay(x, s0)
    {
      SplayStart(x, s0);
      var leftTreeMax, rightTreeMin;
      ghost var l, r;
      t, leftTreeMax, rightTreeMin, l, s, r, passes := Cut(x, t0, s0);
      SplayEnd(x, s0, l, s, r, passes);
      Assemble(x, t, leftTreeMax, rightTreeMin, s0, l, s, r);
      s := Whole(l, s, r);
    }

    /** The keys as a set. */
    ghost function KeySet(): set<int>
      reads this
    {
      Elements(Keys())
    }

    /** root = splay(x, root). */
    method SplayRoot(x: int) returns (ghost passes: nat)
      requires Valid()
      modifies Nodes(shape), header, nullNode, `root, `shape
      ensures Valid() && Repr == old(Repr) && Nodes(shape) == old(Nodes(shape)) && Keys() == old(Keys())
      ensures Parted(x, shape) && nullNode.element == x
      ensures Amortized(old(shape), shape, passes) && Reached(x, old(shape), 0, 0, passes)
      ensures passes == SplayPasses(x, old(shape)) && shape == AfterSplay(x, old(shape))
    {
      var t;
      ghost var s;
      t, s, passes := Splay(x, root, shape);
      root, shape := t, s;
    }

    /** Takes u as the new root. */
    method Adopt(u: BinaryNode, ghost s: Shape)
      requires this in Repr && nullNode in Repr && header in Repr && IsSentinel(nullNode) && header != nullNode
      requires Rep(s, u, nullNode) && Sorted(InOrder(s)) && header !in Nodes(s)
      modifies `root, `shape, `Repr, `newNode
      ensures Valid() && Repr == old(Repr) + Nodes(s) && shape == s
    {
      root, shape, Repr := u, s, Repr + Nodes(s);
      newNode := null;
    }

    /** Puts n above the root, between the left subtree and the root. */
    method AttachBefore(n: BinaryNode)
      requires Valid() && shape.Branch? && n == newNode && n.element < root.element && Parted(n.element, shape)
      modifies n, root`left, `root, `shape, `Repr, `newNode
      ensures Valid() && Repr == old(Repr) && KeySet() == old(KeySet()) + {old(n.element)}
      ensures Topped(old(n.element), old(shape), shape)
    {
      assert Rep(shape.left, root.left, nullNode) && Rep(shape.right, root.right, nullNode);
      n.left := root.left;
      n.right := root;
      root.left := nullNode;
      ghost var s := Branch(shape.left, n, n.element, Branch(Leaf, root, shape.key, shape.right));
      InsertedBefore(n.element, shape, n, s);
      assert Rep(shape.left, n.left, nullNode);
      assert Rep(Leaf, root.left, nullNode) && Rep(shape.right, root.right, nullNode);
      assert Rep(s.right, root, nullNode);
      Adopt(n, s);
      assert Nodes(s) == Nodes(old(shape)) + {n};
    }

    /** Puts n above the root, between the root and the right subtree. */
    method AttachAfter(n: BinaryNode)
      requires Valid() && shape.Branch? && n == newNode && n.element > root.element && Parted(n.element, shape)
      modifies n, root`right, `root, `shape, `Repr, `newNode
      ensures Valid() && Repr == old(Repr) && KeySet() == old(KeySet()) + {old(n.element)}
      ensures Topped(old(n.element), old(shape), shape)
    {
      assert Rep(shape.left, root.left, nullNode) && Rep(shape.right, root.right, nullNode);
      n.right := root.right;
      n.left := root;
      root.right := nullNode;
      ghost var s := Branch(Branch(shape.left, root, shape.key, Leaf), n, n.element, shape.right);
      InsertedAfter(n.element, shape, n, s);
      assert Rep(shape.right, n.right, nullNode);
      assert Rep(shape.left, root.left, nullNode) && Rep(Leaf, root.right, nullNode);
      assert Rep(s.left, root, nullNode);
      Adopt(n, s);
      assert Nodes(s) == Nodes(old(shape)) + {n};
    }

    method Insert(x: int) returns (ghost cost: nat)
      requires Valid()
      modifies Repr
      ensures Valid() && fresh(Repr - old(Repr))
      ensures KeySet() == old(KeySet()) + {x} && Affordable(old(shape), shape, cost)
      ensures Charged(old(shape), InsertOp(x), cost) && Leaves(old(shape), InsertOp(x), shape)
    {
      MakeNode(x);
      if root == nullNode {
        newNode.left, newNode.right := nullNode, nullNode;
        Adopt(newNode, Branch(Leaf, newNode, x, Leaf));
        cost := 0;
      } else {
        cost := InsertBelow(x);
      }
    }

    /** The spare node, a new one if there is none, with x in it. */
    method MakeNode(x: int)
      requires Valid()
      modifies this`newNode, this`Repr, newNode
      ensures Valid() && fresh(Repr - old(Repr)) && shape == old(shape)
      ensures newNode != null && newNode.element == x && (newNode == old(newNode) || fresh(newNode))
    {
      if newNode == null {
        newNode := new BinaryNode(0, nullNode, nullNode);
        Repr := Repr + {newNode};
      }
      newNode.element := x;
    }

    method InsertBelow(x: int) returns (ghost cost: nat)
      requires Valid() && shape.Branch? && newNode != null && newNode.element == x
      modifies Repr
      ensures Valid() && fresh(Repr - old(Repr))
      ensures KeySet() == old(KeySet()) + {x} && Affordable(old(shape), shape, cost)
      ensures cost == SplayPasses(x, old(shape)) && Leaves(old(shape), InsertOp(x), shape)
    {
      ghost var s0 := shape;
      cost := SplayRoot(x);
      ghost var s := shape;
      ShapeParts(s);
      if x < root.element {
        AttachBefore(newNode);
      } else if x > root.element {
        AttachAfter(newNode);
      }
      InsertAffordable(x, s0, s, cost, shape);
    }

    /** Splays the left subtree of the root around the root's key, and hangs the right subtree on it. */
    method JoinSubtrees(x: int) returns (newTree: BinaryNode, ghost s: Shape, ghost a: Shape, ghost passes: nat)
      requires Valid() && shape.Branch? && shape.key == x && shape.left.Branch?
      modifies Nodes(shape.left), header, nullNode
      ensures Rep(s, newTree, nullNode) && Nodes(s) <= Nodes(shape) && IsSentinel(nullNode)
      ensures Sorted(InOrder(s)) && Elements(InOrder(s)) == Elements(InOrder(shape)) - {x}
      ensures Amortized(shape.left, a, passes) && a.Branch? && a.right.Leaf? && passes == SplayPasses(x, shape.left)
      ensures a == AfterSplay(x, shape.left) && s == Branch(a.left, a.node, a.key, shape.right)
    {
      ShapeParts(shape);
      NodesAllocated(shape.right);
      assert Rep(shape.left, root.left, nullNode) && Rep(shape.right, root.right, nullNode);
      newTree, a, passes := Splay(x, root.left, shape.left);
      NoneBetween(x, shape, a);
      HangRight(newTree, a, shape.right);
      s := Branch(a.left, a.node, a.key, shape.right);
      RemovedRoot(x, shape, a, s);
    }

    /** newTree.right = root.right. */
    method HangRight(newTree: BinaryNode, ghost a: Shape, ghost b: Shape)
      requires Rep(a, newTree, nullNode) && a.Branch? && Rep(b, root.right, nullNode)
      requires newTree != root && newTree !in Nodes(b) && Nodes(a.left) !! Nodes(b)
      modifies newTree`right
      ensures Rep(Branch(a.left, a.node, a.key, b), newTree, nullNode)
    {
      assert Rep(a.left, newTree.left, nullNode);
      newTree.right := root.right;
      assert Rep(a.left, newTree.left, nullNode) && Rep(b, newTree.right, nullNode);
    }

    /** What remains when the root, which holds x, is taken off; the sentinel, as the root, holds whatever x was
        sought. */
    method DropRoot(x: int) returns (newTree: BinaryNode, ghost s: Shape, ghost a: Shape, ghost passes: nat)
      requires Valid() && (shape.Branch? ==> shape.key == x)
      modifies Nodes(shape), header, nullNode
      ensures Rep(s, newTree, nullNode) && Nodes(s) <= Nodes(shape) && IsSentinel(nullNode)
      ensures Sorted(InOrder(s)) && Elements(InOrder(s)) == Elements(InOrder(shape)) - {x}
      ensures Dropped(x, shape, a, passes, s)
    {
      assert shape.Branch? ==> Rep(shape.left, root.left, nullNode) && Rep(shape.right, root.right, nullNode);
      if root.left == nullNode {
        newTree, s, a, passes := root.right, Leaf, Leaf, 0;
        if shape.Branch? {
          s := shape.right;
          RemovedRoot(x, shape, shape.left, s);
        }
      } else {
        newTree, s, a, passes := JoinSubtrees(x);
      }
    }

    method Remove(x: int) returns (ghost cost: nat)
      requires Valid()
      modifies Repr
      ensures Valid() && Repr == old(Repr)
      ensures KeySet() == old(KeySet()) - {x} && Affordable(old(shape), shape, cost)
      ensures Charged(old(shape), RemoveOp(x), cost) && Leaves(old(shape), RemoveOp(x), shape)
    {
      ghost var s0 := shape;
      cost := SplayRoot(x);
      SplayAffordable(s0, shape, cost, 0);
      if shape.Branch? {
        RootDecides(x, shape);
      }
      if root.element == x {
        ghost var again := RemoveRoot(x, s0, cost);
        cost := cost + again;
      }
    }

    /** The root, found after so many passes from s0, holds x or is the sentinel. */
    method RemoveRoot(x: int, ghost s0: Shape, ghost passes: nat) returns (ghost again: nat)
      requires Valid() && (shape.Branch? ==> shape.key == x) && Amortized(s0, shape, passes)
      modifies Repr
      ensures Valid() && Repr == old(Repr)
      ensures KeySet() == old(KeySet()) - {x} && Affordable(s0, shape, passes + again)
      ensures again == JoinPasses(x, old(shape)) && Untopped(x, old(shape), shape)
    {
      var newTree;
      ghost var s, a;
      newTree, s, a, again := DropRoot(x);
      DropAffordable(x, s0, shape, passes, a, again, s);
      root, shape := newTree, s;
      assert Rep(shape, root, nullNode);
    }

    /** The sentinel itself matches in an empty tree: find answers rightly exactly when the tree is not empty. */
    method Find(x: int) returns (answer: Option<int>, ghost cost: nat)
      requires Valid()
      modifies Repr
      ensures Valid() && Repr == old(Repr) && KeySet() == old(KeySet())
      ensures answer == if x in KeySet() || KeySet() == {} then Some(x) else None
      ensures Answers(KeySet(), FindOp(x), answer) <==> KeySet() != {}
      ensures Affordable(old(shape), shape, cost) && Charged(old(shape), FindOp(x), cost)
      ensures Leaves(old(shape), FindOp(x), shape)
    {
      ghost var s0 := shape;
      cost := SplayRoot(x);
      SplayAffordable(s0, shape, cost, 0);
      if shape.Branch? {
        RootDecides(x, shape);
        ShapeParts(shape);
      }
      assert x in Keys() <==> x in KeySet();
      answer := if root.element != x then None else Some(root.element);
    }

    method FindMin() returns (answer: Option<int>, ghost cost: nat)
      requires Valid()
      modifies Repr
      ensures Valid() && Repr == old(Repr) && KeySet() == old(KeySet())
      ensures Answers(KeySet(), FindMinOp, answer) && Affordable(old(shape), shape, cost)
      ensures Charged(old(shape), FindMinOp, cost) && Leaves(old(shape), FindMinOp, shape)
    {
      if root == nullNode {
        return None, 0;
      }
      SortedEnds(Keys());
      var least;
      ghost var s0 := shape;
      least, cost := WalkLeft();
      ghost var passes := SplayRoot(least);
      SplayAffordable(s0, shape, passes, cost);
      return Some(least), passes + cost;
    }

    /** The first key, and the steps of the walk to it. */
    method WalkLeft() returns (least: int, ghost steps: nat)
      requires Valid() && shape.Branch?
      ensures Keys() != [] && least == Keys()[0] && steps + 1 == LeftDepth(shape) && NoneBelow(least, shape)
    {
      var ptr := root;
      ghost var s := shape;
      steps := 0;
      while ptr.left != nullNode
        invariant s.Branch? && Rep(s, ptr, nullNode) && InOrder(s) != [] && InOrder(s)[0] == Keys()[0]
        invariant steps + LeftDepth(s) == LeftDepth(shape)
        decreases s
      {
        ptr, s, steps := ptr.left, s.left, steps + 1;
      }
      assert s.left.Leaf?;
      least := ptr.element;
    }

    method FindMax() returns (answer: Option<int>, ghost cost: nat)
      requires Valid()
      modifies Repr
      ensures Valid() && Repr == old(Repr) && KeySet() == old(KeySet())
      ensures Answers(KeySet(), FindMaxOp, answer) && Affordable(old(shape), shape, cost)
      ensures Charged(old(shape), FindMaxOp, cost) && Leaves(old(shape), FindMaxOp, shape)
    {
      if root == nullNode {
        return None, 0;
      }
      SortedEnds(Keys());
      var greatest;
      ghost var s0 := shape;
      greatest, cost := WalkRight();
      ghost var passes := SplayRoot(greatest);
      SplayAffordable(s0, shape, passes, cost);
      return Some(greatest), passes + cost;
    }

    method WalkRight() returns (greatest: int, ghost steps: nat)
      requires Valid() && shape.Branch?
      ensures Keys() != [] && greatest == Keys()[|Keys()| - 1] && steps + 1 == RightDepth(shape) &&
              NoneAbove(greatest, shape)
    {
      var ptr := root;
      ghost var s := shape;
      steps := 0;
      while ptr.right != nullNode
        invariant s.Branch? && Rep(s, ptr, nullNode) && InOrder(s) != []
        invariant InOrder(s)[|InOrder(s)| - 1] == Keys()[|Keys()| - 1]
        invariant steps + RightDepth(s) == RightDepth(shape)
        decreases s
      {
        ptr, s, steps := ptr.right, s.right, steps + 1;
      }
      assert s.right.Leaf?;
      greatest := ptr.element;
    }

    method MakeEmpty()
      requires Valid()
      modifies `root, `shape
      ensures Valid() && KeySet() == {} && shape == Leaf
    {
      root, shape := nullNode, Leaf;
    }
  }

  /** The answer to op on the keys s: that of a plain set, save that the empty tree finds everything. */
  ghost predicate Replies(s: set<int>, op: Op, answer: Option<int>) {
    if op.FindOp? && s == {} then answer == Some(op.x) else Answers(s, op, answer)
  }

  method Perform(tree: SplayTree, op: Op) returns (answer: Option<int>, ghost cost: nat)
    requires tree.Valid()
    modifies tree.Repr
    ensures tree.Valid() && fresh(tree.Repr - old(tree.Repr))
    ensures tree.KeySet() == ApplyOne(old(tree.KeySet()), op)
    ensures Replies(old(tree.KeySet()), op, answer)
    ensures Did(old(tree.shape), op, tree.shape, cost) && Affordable(old(tree.shape), tree.shape, cost)
  {
    answer, cost := None, 0;
    match op {
      case InsertOp(x) => cost := tree.Insert(x);
      case RemoveOp(x) => cost := tree.Remove(x);
      case FindOp(x) => answer, cost := tree.Find(x);
      case FindMinOp => answer, cost := tree.FindMin();
      case FindMaxOp => answer, cost := tree.FindMax();
      case MakeEmptyOp => tree.MakeEmpty();
    }
  }

  ghost predicate AllReplied(s: set<int>, ops: seq<Op>, answers: seq<Option<int>>) {
    |answers| <= |ops| && forall i :: 0 <= i < |answers| ==> Replies(Apply(s, ops[..i]), ops[i], answers[i])
  }

  /** The trees and the costs along a run: what each operation met, what it left, and what it cost. */
  ghost predicate AllCharged(shapes: seq<Shape>, ops: seq<Op>, costs: seq<int>) {
    |shapes| == |costs| + 1 && |costs| <= |ops| &&
    forall i :: 0 <= i < |costs| ==> Did(shapes[i], ops[i], shapes[i + 1], costs[i])
  }

  lemma AnswerAdded(keys: set<int>, ops: seq<Op>, answers: seq<Option<int>>, answer: Option<int>)
    requires AllReplied(keys, ops, answers) && |answers| < |ops|
    requires Replies(Apply(keys, ops[..|answers|]), ops[|answers|], answer)
    ensures AllReplied(keys, ops, answers + [answer])
  {}

  lemma ChargeAdded(shapes: seq<Shape>, ops: seq<Op>, costs: seq<int>, s: Shape, cost: int)
    requires AllCharged(shapes, ops, costs) && |costs| < |ops|
    requires Did(shapes[|costs|], ops[|costs|], s, cost)
    ensures AllCharged(shapes + [s], ops, costs + [cost]) && Total(costs + [cost]) == Total(costs) + cost
  {
    TotalMore(costs, cost);
    var ss, cs := shapes + [s], costs + [cost];
    forall i | 0 <= i < |cs| ensures Did(ss[i], ops[i], ss[i + 1], cs[i]) {
      assert i < |costs| ==> ss[i] == shapes[i] && ss[i + 1] == shapes[i + 1] && cs[i] == costs[i];
    }
  }

  /** The tree and the answers after the first operations of a run. */
  ghost predicate Underway(tree: SplayTree, keys: set<int>, ops: seq<Op>, answers: seq<Option<int>>,
                           shapes: seq<Shape>, costs: seq<int>)
    reads tree, tree.Repr
  {
    var i := |answers|;
    tree.Valid() && AllReplied(keys, ops, answers) && tree.KeySet() == Apply(keys, ops[..i]) &&
    AllCharged(shapes, ops, costs) && |costs| == i && shapes[i] == tree.shape &&
    Spent(shapes[0], tree.shape, Total(costs), i, |ops|)
  }

  /** The next operation of the run. */
  method PerformNext(tree: SplayTree, ops: seq<Op>, answers: seq<Option<int>>,
                     ghost keys: set<int>, ghost shapes: seq<Shape>, ghost costs: seq<int>)
    returns (answers': seq<Option<int>>, ghost shapes': seq<Shape>, ghost costs': seq<int>)
    requires Underway(tree, keys, ops, answers, shapes, costs) && |answers| < |ops|
    modifies tree.Repr
    ensures fresh(tree.Repr - old(tree.Repr)) && Underway(tree, keys, ops, answers', shapes', costs')
    ensures |answers'| == |answers| + 1 && shapes'[0] == shapes[0]
  {
    var i := |answers|;
    ApplyPrefix(keys, ops, i);
    var answer;
    ghost var cost;
    answer, cost := Perform(tree, ops[i]);
    AnswerAdded(keys, ops, answers, answer);
    ChargeAdded(shapes, ops, costs, tree.shape, cost);
    SpentMore(shapes[0], shapes[i], Total(costs), i, |ops|, tree.shape, cost);
    answers', shapes', costs' := answers + [answer], shapes + [tree.shape], costs + [cost];
  }

  lemma RunStart(tree: SplayTree, ops: seq<Op>)
    requires tree.Valid()
    ensures Underway(tree, tree.KeySet(), ops, [], [tree.shape], [])
  {
    SpentNothing(tree.shape, |ops|);
  }

  lemma RunEnd(tree: SplayTree, keys: set<int>, ops: seq<Op>, answers: seq<Option<int>>, shapes: seq<Shape>,
               costs: seq<int>)
    requires Underway(tree, keys, ops, answers, shapes, costs) && |answers| == |ops|
    ensures tree.KeySet() == Apply(keys, ops) && shapes[|ops|] == tree.shape
    ensures Total(costs) <= Allowed(shapes[0], |ops|, |ops|)
  {
    assert ops[..|ops|] == ops;
  }

  /** Over any run of operations, however the tree is reshaped, it holds and reports what a plain set would,
      and the m operations cost at most m times a charge logarithmic in the size the tree can reach. */
  method Run(tree: SplayTree, ops: seq<Op>)
    returns (answers: seq<Option<int>>, ghost shapes: seq<Shape>, ghost costs: seq<int>)
    requires tree.Valid()
    modifies tree.Repr
    ensures tree.Valid() && tree.KeySet() == Apply(old(tree.KeySet()), ops)
    ensures |answers| == |ops| && AllReplied(old(tree.KeySet()), ops, answers)
    ensures |costs| == |ops| && AllCharged(shapes, ops, costs) && shapes[0] == old(tree.shape) &&
            shapes[|ops|] == tree.shape
    ensures Total(costs) <= Allowed(old(tree.shape), |ops|, |ops|)
  {
    answers, shapes, costs := [], [tree.shape], [];
    ghost var keys, first := tree.KeySet(), tree.shape;
    RunStart(tree, ops);
    for i := 0 to |ops|
      invariant |answers| == i && fresh(tree.Repr - old(tree.Repr))
      invariant Underway(tree, keys, ops, answers, shapes, costs) && shapes[0] == first
    {
      answers, shapes, costs := PerformNext(tree, ops, answers, keys, shapes, costs);
    }
    RunEnd(tree, keys, ops, answers, shapes, costs);
  }
}
