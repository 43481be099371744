/** Top-down red-black insertion over linked nodes, with a sentinel below and a header above. */
module RedBlackTree {
  import opened Basics
  import opened OrderedSets
  import opened RedBlackTrees

  class RedBlackNode {
    var element: int
    var left: RedBlackNode
    var right: RedBlackNode
    var color: Color

    constructor (theElement: int, lt: RedBlackNode, rt: RedBlackNode)
      ensures element == theElement && left == lt && right == rt && color == BLACK
    {
      element := theElement;
      left := lt;
      right := rt;
      color := BLACK;
    }

    constructor Sentinel()
      ensures IsSentinel(this)
    {
      element := 0;
      left := this;
      right := this;
      color := BLACK;
    }
  }

  type Tree = Shape<RedBlackNode>
  type Place = Path<RedBlackNode>

  ghost predicate IsSentinel(nil: RedBlackNode)
    reads nil
  {
    nil.left == nil && nil.right == nil && nil.color == BLACK
  }

  lemma NodesAllocated(s: Tree)
    ensures forall o :: o in Nodes(s) ==> allocated(o)
  {
    if s.Branch? {
      NodesAllocated(s.left);
      NodesAllocated(s.right);
    }
  }

  lemma PathAllocated(p: Place)
    ensures forall o :: o in PathNodes(p) ==> allocated(o)
  {
    if p.Down? {
      PathAllocated(p.rest);
      NodesAllocated(p.side);
    }
  }

  /** The links from t on draw the tree s, over nodes that all differ; nil stands for no tree. */
  ghost predicate Rep(s: Tree, t: RedBlackNode, nil: RedBlackNode)
    reads Nodes(s)
  {
    nil !in Nodes(s) &&
    match s
    case Leaf => t == nil
    case Branch(l, n, key, color, r) =>
      t == n && n.element == key && n.color == color && n !in Nodes(l) && n !in Nodes(r) && Nodes(l) !! Nodes(r) &&
      Rep(l, n.left, nil) && Rep(r, n.right, nil)
  }

  /** The links from the header on follow p and arrive at t. */
  ghost predicate PathRep(p: Place, t: RedBlackNode, header: RedBlackNode, nil: RedBlackNode)
    reads PathNodes(p)
  {
    nil !in PathNodes(p) &&
    match p
    case Above => t == header
    case Down(rest, n, key, color, goLeft, side) =>
      PathRep(rest, n, header, nil) && n.element == key && n.color == color &&
      n !in PathNodes(rest) && n !in Nodes(side) && PathNodes(rest) !! Nodes(side) &&
      (if goLeft then n.left == t && Rep(side, n.right, nil) else n.right == t && Rep(side, n.left, nil))
  }

  class RedBlackTree {
    const nullNode: RedBlackNode
    const header: RedBlackNode
    const negInf: int
    var current: RedBlackNode
    var parent: RedBlackNode
    var grand: RedBlackNode
    var great: RedBlackNode
    ghost var shape: Tree
    ghost var Repr: set<object>

    constructor (negInf: int)
      ensures Valid() && fresh(Repr) && Keys() == [] && this.negInf == negInf
    {
      var nil := new RedBlackNode.Sentinel();
      var head := new RedBlackNode(negInf, nil, nil);
      nullNode := nil;
      header := head;
      this.negInf := negInf;
      current, parent, grand, great := head, head, head, head;
      shape := Branch(Leaf, head, negInf, BLACK, Leaf);
      Repr := {this, nil, head};
    }

    /** The header carries the tree as its right subtree. */
    ghost predicate Valid()
      reads this, Repr
    {
      this in Repr && nullNode in Repr && header in Repr && Nodes(shape) <= Repr &&
      IsSentinel(nullNode) && Rep(shape, header, nullNode) && InOrderAt(Above, shape) && Sorted(InOrder(shape)) &&
      shape.key == negInf
    }

    ghost function Keys(): seq<int>
      reads this
    {
      if shape.Branch? then InOrder(shape.right) else []
    }

    /** t, with the tree s below it, is where p leads. */
    ghost predicate At(p: Place, t: RedBlackNode, s: Tree)
      reads PathNodes(p), Nodes(s), nullNode
    {
      PathRep(p, t, header, nullNode) && Rep(s, t, nullNode) && PathNodes(p) !! Nodes(s) && IsSentinel(nullNode)
    }

    lemma GoDown(item: int, p: Place, t: RedBlackNode, s: Tree)
      requires At(p, t, s) && s.Branch?
      ensures At(Descend(item, p, s), if item < t.element then t.left else t.right, Child(item, s))
    {}

    lemma GoUp(p: Place, t: RedBlackNode, s: Tree)
      requires At(p, t, s) && p.Down?
      ensures At(p.rest, p.node, Attach(p, s))
    {}

    method RotateWithLeftChild(k2: RedBlackNode, ghost s: Tree) returns (k1: RedBlackNode)
      requires Rep(s, k2, nullNode) && s.Branch? && s.left.Branch?
      modifies k2`left, s.left.node`right
      ensures Rep(Rotate(true, s), k1, nullNode)
    {
      assert Rep(s.left, k2.left, nullNode) && Rep(s.right, k2.right, nullNode);
      k1 := k2.left;
      k2.left := k1.right;
      k1.right := k2;
      assert Rep(Branch(s.left.right, s.node, s.key, s.color, s.right), k2, nullNode);
    }

    method RotateWithRightChild(k1: RedBlackNode, ghost s: Tree) returns (k2: RedBlackNode)
      requires Rep(s, k1, nullNode) && s.Branch? && s.right.Branch?
      modifies k1`right, s.right.node`left
      ensures Rep(Rotate(false, s), k2, nullNode)
    {
      assert Rep(s.left, k1.left, nullNode) && Rep(s.right, k1.right, nullNode);
      k2 := k1.right;
      k1.right := k2.left;
      k2.left := k1;
      assert Rep(Branch(s.left, s.node, s.key, s.color, s.right.left), k1, nullNode);
    }

    /** Rotates the tree below top towards item; top is the last node on the path. */
    method RotateBelow(item: int, top: RedBlackNode, ghost p: Place, ghost t: RedBlackNode, ghost s: Tree)
      returns (r: RedBlackNode)
      requires At(p, t, s) && p.Down? && p.node == top && (item < p.key <==> p.goLeft)
      requires s.Branch? && Child(item, s).Branch?
      modifies top`left, top`right, s.node, Child(item, s).node
      ensures At(p, r, Rotate(item < s.key, s))
    {
      PathAllocated(p);
      if item < top.element {
        if item < top.left.element {
          r := RotateWithLeftChild(top.left, s);
        } else {
          r := RotateWithRightChild(top.left, s);
        }
        top.left := r;
      } else {
        if item < top.right.element {
          r := RotateWithLeftChild(top.right, s);
        } else {
          r := RotateWithRightChild(top.right, s);
        }
        top.right := r;
      }
    }

    /** current.color = RED. */
    method Redden(ghost p: Place, ghost s: Tree)
      requires At(p, current, s) && s.Branch?
      modifies current`color
      ensures At(p, current, s.(color := RED))
    {
      assert Rep(s.left, current.left, nullNode) && Rep(s.right, current.right, nullNode);
      current.color := RED;
      assert Rep(s.left, current.left, nullNode) && Rep(s.right, current.right, nullNode);
      assert PathRep(p, current, header, nullNode);
    }

    /** current.left.color = BLACK; current.right.color = BLACK. */
    method BlackenChildren(ghost p: Place, ghost s: Tree)
      requires At(p, current, s) && s.Branch?
      modifies current.left`color, current.right`color
      ensures At(p, current, s.(left := Blacken(s.left), right := Blacken(s.right)))
    {
      assert Rep(s.left, current.left, nullNode) && Rep(s.right, current.right, nullNode);
      current.left.color := BLACK;
      assert Rep(Blacken(s.left), current.left, nullNode) && Rep(s.right, current.right, nullNode);
      current.right.color := BLACK;
      assert Rep(Blacken(s.left), current.left, nullNode) && Rep(Blacken(s.right), current.right, nullNode);
      assert PathRep(p, current, header, nullNode);
    }

    method FlipColors(ghost p: Place, ghost s: Tree)
      requires At(p, current, s) && s.Branch?
      modifies Nodes(s)`color, nullNode`color
      ensures At(p, current, Flip(s))
    {
      assert Rep(s.left, current.left, nullNode) && Rep(s.right, current.right, nullNode);
      Redden(p, s);
      BlackenChildren(p, s.(color := RED));
    }

    method RedGrand(ghost p: Place, ghost s: Tree)
      requires At(p, current, s) && p.Down? && p.rest.Down? && grand == p.rest.node
      modifies grand`color
      ensures At(p.(rest := p.rest.(color := RED)), current, s)
    {
      ghost var g := p.rest;
      assert PathRep(g, p.node, header, nullNode) && PathRep(g.rest, grand, header, nullNode);
      grand.color := RED;
      assert PathRep(g.rest, grand, header, nullNode);
      assert PathRep(g.(color := RED), p.node, header, nullNode);
    }

    /** The first half of a double rotation, which a path that keeps its direction does without. */
    method RotateInner(item: int, ghost p: Place, ghost s: Tree, ghost q: Place) returns (ghost c: Tree)
      requires At(p, current, s) && s.Branch? && p.Down? && p.rest == q && q.Down? && parent == p.node &&
               grand == q.node
      requires (item < p.key <==> p.goLeft) && (item < q.key <==> q.goLeft)
      modifies s.node, parent, grand, `parent
      ensures c == if p.goLeft != q.goLeft then Rotate(p.goLeft, Attach(p, s)) else Attach(p, s)
      ensures At(q, parent, c) && c.Branch? && c.node in {old(parent), s.node}
    {
      GoUp(p, current, s);
      c := Attach(p, s);
      if (item < grand.element) != (item < parent.element) {
        parent := RotateBelow(item, grand, q, parent, c);
        c := Rotate(p.goLeft, c);
      }
    }

    /** t.color = BLACK, for a node or the sentinel. */
    method BlackenAt(t: RedBlackNode, ghost p: Place, ghost s: Tree)
      requires At(p, t, s)
      modifies t`color
      ensures At(p, t, Blacken(s))
    {
      assert s.Branch? ==> Rep(s.left, t.left, nullNode) && Rep(s.right, t.right, nullNode);
      t.color := BLACK;
      assert s.Branch? ==> Rep(s.left, t.left, nullNode) && Rep(s.right, t.right, nullNode);
      assert PathRep(p, t, header, nullNode);
    }

    method RotateOuter(item: int, ghost q: Place, ghost c: Tree)
      requires At(q, parent, c) && c.Branch? && q.Down? && q.rest.Down? && grand == q.node && great == q.rest.node
      requires (item < q.key <==> q.goLeft) && (item < q.rest.key <==> q.rest.goLeft)
      modifies c.node, grand, great, `current
      ensures At(q.rest, current, Blacken(Rotate(q.goLeft, Attach(q, c))))
    {
      GoUp(q, parent, c);
      ghost var g := Attach(q, c);
      current := RotateBelow(item, great, q.rest, grand, g);
      BlackenAt(current, q.rest, Rotate(q.goLeft, g));
    }

    /** The rotations of a repair below a red parent. */
    method RotateUp(item: int, ghost p: Place, ghost s: Tree)
      requires At(p, current, s) && s.Branch? && p.Down? && p.rest.Down? && p.rest.rest.Down?
      requires parent == p.node && grand == p.rest.node && great == p.rest.rest.node
      requires (item < p.key <==> p.goLeft) && (item < p.rest.key <==> p.rest.goLeft) &&
               (item < p.rest.rest.key <==> p.rest.rest.goLeft)
      modifies s.node, parent, grand, great, `current, `parent
      ensures At(p.rest.rest, current, Rotated(p, s))
    {
      RedGrand(p, s);
      ghost var q := p.rest.(color := RED);
      ghost var c := RotateInner(item, p.(rest := q), s, q);
      RotateOuter(item, q, c);
    }

    lemma {:induction false} RootIsBlack(p: Place, t: RedBlackNode, h: int)
      requires PathRep(p, t, header, nullNode) && PathFits(p, h)
      ensures if AtHeader(p) then header.right == t else header.right in PathNodes(p) && header.right.color == BLACK
    {
      if !AtHeader(p) {
        RootIsBlack(p.rest, p.node, if p.color.RED? then h else h + 1);
      }
    }

    /** header.right.color = BLACK. */
    method BlackenRoot(ghost p: Place, ghost s: Tree, ghost h: int) returns (ghost s': Tree)
      requires At(p, current, s) && PathFits(p, h)
      modifies header.right`color
      ensures s' == (if AtHeader(p) then Blacken(s) else s) && At(p, current, s')
    {
      RootIsBlack(p, current, h);
      if AtHeader(p) {
        s' := Blacken(s);
      } else {
        s' := s;
      }
      ghost var root := header.right;
      assert header.right == current ==> s.Branch? ==>
               Rep(s.left, current.left, nullNode) && Rep(s.right, current.right, nullNode);
      header.right.color := BLACK;
      assert PathRep(p, current, header, nullNode);
      assert s.Branch? && root == current ==>
               Rep(s.left, current.left, nullNode) && Rep(s.right, current.right, nullNode);
    }

    /** The parent is the node above p, and so are the others as far as a rotation there needs them. */
    static ghost predicate TrueAncestors(p: Place, parent: RedBlackNode, grand: RedBlackNode, great: RedBlackNode) {
      p.Down? && parent == p.node &&
      (p.color.RED? ==>
        p.rest.Down? && p.rest.rest.Down? && grand == p.rest.node && great == p.rest.rest.node && !Red(p.rest.side))
    }

    /** parent, grand and great are what a repair at the end of p needs them to be. */
    ghost predicate Repairable(p: Place)
      reads `parent, `grand, `great
    {
      TrueAncestors(p, parent, grand, great)
    }

    method HandleReorient(item: int, ghost p: Place, ghost s: Tree) returns (ghost f: Focus<RedBlackNode>)
      requires At(p, current, s) && Flippable(p, s) && Seeking(item, p, s) && Repairable(p)
      modifies Nodes(s), PathNodes(p), nullNode`color, header.right`color, `current, `parent
      ensures f == Reorient(p, s) && At(f.path, current, f.tree)
    {
      FrameDirection(item, p);
      ReorientPlaced(p, s);
      ReorientNodes(p, s);
      FlipColors(p, s);
      ghost var f0 := Flip(s);
      ghost var h := BlackHeight(Reorient(p, s).tree);
      if parent.color == RED {
        FrameDirection(item, p.rest);
        FrameDirection(item, p.rest.rest);
        RotatedNodes(p, f0);
        RotateUp(item, p, f0);
        RootIsBlack(p.rest.rest, current, h);
        ghost var u := BlackenRoot(p.rest.rest, Rotated(p, f0), h);
        f := Focus(p.rest.rest, u);
      } else {
        RootIsBlack(p, current, h);
        ghost var u := BlackenRoot(p, f0, h);
        f := Focus(p, u);
      }
    }

    /** What holds whenever the loop of an insertion starts over; keys and nodes are those of the whole tree. */
    ghost predicate Searching(item: int, p: Place, s: Tree, keys: seq<int>, nodes: set<RedBlackNode>)
      reads PathNodes(p), Nodes(s), nullNode, `current, `parent, `grand, `great
    {
      At(p, current, s) && InOrderAt(p, s) && Seeking(item, p, s) && Ready(item, p, s, parent, grand) &&
      KeysAround(p, s) == keys && AllNodes(p, s) == nodes &&
      (p.Above? ==> item >= s.key) && (s.Leaf? ==> Repairable(p)) && nullNode.element == item
    }

    /** great = grand; grand = parent; parent = current; current moves down, to the tree c at the end of p. */
    method MoveDown(item: int, ghost p: Place, ghost c: Tree)
      requires current != nullNode && At(p, if item < current.element then current.left else current.right, c)
      modifies `current, `parent, `grand, `great
      ensures great == old(grand) && grand == old(parent) && parent == old(current) && At(p, current, c)
    {
      great, grand, parent := grand, parent, current;
      current := if item < current.element then current.left else current.right;
    }

    /** What the move comes to. */
    lemma Below(item: int, p: Place, s: Tree, keys: seq<int>, nodes: set<RedBlackNode>)
      requires Searching(item, p, s, keys, nodes) && current.element != item
      ensures s.Branch? && s.node == current
      ensures var p', c := Descend(item, p, s), Child(item, s);
              At(p', if item < current.element then current.left else current.right, c) &&
              Placed(p', c) && Seeking(item, p', c) && KeysAround(p', c) == keys && AllNodes(p', c) == nodes &&
              (if c.Leaf? || TwoRed(c) then TrueAncestors(p', current, parent, grand)
               else Ready(item, p', c, current, parent))
    {
      GoDown(item, p, current, s);
      StepDown(item, p, s, parent, grand);
    }

    lemma ColorTest(p: Place, t: RedBlackNode, s: Tree)
      requires At(p, t, s)
      ensures t.left.color == RED && t.right.color == RED <==> TwoRed(s)
    {
      if s.Branch? {
        assert Rep(s.left, t.left, nullNode) && Rep(s.right, t.right, nullNode);
      }
    }

    /** The repair at a node with two red children. */
    method Repair(item: int, ghost p: Place, ghost s: Tree, ghost keys: seq<int>, ghost nodes: set<RedBlackNode>)
      returns (ghost f: Focus<RedBlackNode>)
      requires At(p, current, s) && Placed(p, s) && TwoRed(s) && Seeking(item, p, s) && Repairable(p)
      requires KeysAround(p, s) == keys && AllNodes(p, s) == nodes && header in nodes && nullNode.element == item
      modifies nodes, nullNode`color, `current, `parent
      ensures Searching(item, f.path, f.tree, keys, nodes) && Rank(item, f.tree) < Rank(item, Attach(p, s))
    {
      Repaired(item, p, s);
      RootIsBlack(p, current, BlackHeight(s));
      f := HandleReorient(item, p, s);
      ReadyAfterRepair(item, p, s, parent, grand);
    }

    /** The body of the loop. */
    method Advance(item: int, ghost p: Place, ghost s: Tree, ghost keys: seq<int>, ghost nodes: set<RedBlackNode>)
      returns (ghost p': Place, ghost s': Tree)
      requires Searching(item, p, s, keys, nodes) && current.element != item && header in nodes
      modifies nodes, nullNode`color, `current, `parent, `grand, `great
      ensures Searching(item, p', s', keys, nodes) && Rank(item, s') < Rank(item, s)
    {
      Below(item, p, s, keys, nodes);
      p', s' := Descend(item, p, s), Child(item, s);
      MoveDown(item, p', s');
      DescendAttach(item, p, s);
      ColorTest(p', current, s');
      if current.left.color == RED && current.right.color == RED {
        ghost var f := Repair(item, p', s', keys, nodes);
        p', s' := f.path, f.tree;
      }
    }

    lemma {:induction false} Rebuilt(p: Place, t: RedBlackNode, s: Tree)
      requires At(p, t, s)
      ensures At(Above, header, Close(p, s))
    {
      if p.Down? {
        GoUp(p, t, s);
        Rebuilt(p.rest, p.node, Attach(p, s));
      }
    }

    /** Takes the tree with s at the end of p as the whole. */
    ghost method Adopt(p: Place, s: Tree)
      requires this in Repr && nullNode in Repr && header in Repr && AllNodes(p, s) <= Repr
      requires At(p, current, s) && InOrderAt(p, s) && Sorted(KeysAround(p, s))
      requires KeysAround(p, s) != [] && KeysAround(p, s)[0] == negInf
      modifies `shape
      ensures Valid() && InOrder(shape) == KeysAround(p, s)
    {
      Rebuilt(p, current, s);
      var w := s;
      if p.Down? {
        w := Rebuild(p, s);
      }
      assert KeysAround(p, s) == InOrder(w);
      shape := w;
      assert InOrder(w)[0] == w.key;
    }

    /** parent.left = current, or parent.right = current. */
    method AttachNew(item: int, ghost p: Place)
      requires At(p, nullNode, Leaf) && p.Down? && p.node == parent && (item < p.key <==> p.goLeft)
      requires current !in PathNodes(p) && current != nullNode && current.element == item && current.color == BLACK
      requires current.left == nullNode && current.right == nullNode
      modifies parent`left, parent`right
      ensures At(p, current, Branch(Leaf, current, item, BLACK, Leaf))
    {
      assert PathRep(p.rest, parent, header, nullNode);
      if item < parent.element {
        parent.left := current;
      } else {
        parent.right := current;
      }
      assert PathRep(p.rest, parent, header, nullNode);
      assert Rep(Branch(Leaf, current, item, BLACK, Leaf), current, nullNode);
    }

    /** The keys as a set. */
    ghost function KeySet(): set<int>
      reads this
    {
      Elements(Keys())
    }

    /** The search of an insertion, which repairs on its way down. */
    method Search(item: int) returns (ghost p: Place, ghost s: Tree)
      requires Valid() && item >= negInf
      modifies Nodes(shape), nullNode, `current, `parent, `grand, `great
      ensures Searching(item, p, s, InOrder(shape), Nodes(shape)) && current.element == item
    {
      current, parent, grand := header, header, header;
      nullNode.element := item;
      p, s := Above, shape;
      ghost var keys, nodes := InOrder(shape), Nodes(shape);
      assert KeysAround(p, s) == keys;
      assert header in nodes;
      while current.element != item
        invariant Searching(item, p, s, keys, nodes)
        decreases Rank(item, s)
      {
        p, s := Advance(item, p, s, keys, nodes);
      }
    }

    /** Puts a new node in the place of the leaf that the search ended at. */
    method Grow(item: int, ghost p: Place) returns (n: RedBlackNode, ghost f: Focus<RedBlackNode>)
      requires At(p, nullNode, Leaf) && Placed(p, Leaf) && Seeking(item, p, Leaf) && Repairable(p)
      modifies PathNodes(p), nullNode`color, `current, `parent
      ensures At(f.path, current, f.tree) && Placed(f.path, f.tree) && Seeking(item, f.path, f.tree)
      ensures Elements(KeysAround(f.path, f.tree)) == Elements(KeysAround(p, Leaf)) + {item}
      ensures fresh(n) && AllNodes(f.path, f.tree) == PathNodes(p) + {n}
    {
      PathAllocated(p);
      n := new RedBlackNode(item, nullNode, nullNode);
      current := n;
      FrameDirection(item, p);
      AttachNew(item, p);
      ghost var s := Branch(Leaf, current, item, BLACK, Leaf);
      Grown(item, p, current);
      RootIsBlack(p, current, BlackHeight(Flip(s)));
      f := HandleReorient(item, p, s);
    }

    lemma LeastIsFirst(keys: seq<int>, keys': seq<int>, item: int)
      requires Sorted(keys) && Sorted(keys') && keys != [] && keys[0] <= item
      requires Elements(keys') == Elements(keys) + {item}
      ensures keys' != [] && keys'[0] == keys[0]
    {
      assert keys[0] in Elements(keys');
      assert keys' != [];
      assert keys'[0] in Elements(keys');
    }

    /** The keys without the header's. */
    lemma KeysBelowHeader()
      requires Valid()
      ensures KeySet() == Elements(InOrder(shape)) - {negInf} && InOrder(shape) != [] && InOrder(shape)[0] == negInf
      ensures Sorted(Keys()) && forall y :: y in KeySet() ==> negInf < y
    {
      assert InOrder(shape) == [] + [negInf] + InOrder(shape.right);
      SortedParts([], negInf, InOrder(shape.right));
      ElementsOf([], negInf, InOrder(shape.right));
    }

    /** An insertion, up to taking the tree that it leaves as the whole. */
    method SearchAndGrow(item: int) returns (ghost p: Place, ghost s: Tree)
      requires Valid() && item >= negInf
      modifies Nodes(shape), nullNode, `current, `parent, `grand, `great
      ensures At(p, current, s) && InOrderAt(p, s) && Sorted(KeysAround(p, s))
      ensures Elements(KeysAround(p, s)) == Elements(InOrder(shape)) + {item}
      ensures fresh(AllNodes(p, s) - Nodes(shape))
    {
      p, s := Search(item);
      assert AllNodes(p, s) == Nodes(shape);
      if current != nullNode {
        assert item in KeysAround(p, s);
      } else {
        assert PathNodes(p) == Nodes(shape);
        var n, f := Grow(item, p);
        p, s := f.path, f.tree;
      }
    }

    /** Adds item; negInf itself is taken to be there already. */
    method Insert(item: int)
      requires Valid() && item >= negInf
      modifies Repr
      ensures Valid() && fresh(Repr - old(Repr))
      ensures KeySet() == if item == negInf then old(KeySet()) else old(KeySet()) + {item}
    {
      KeysBelowHeader();
      InsertKey(item);
      KeysBelowHeader();
    }

    /** An insertion as it changes the keys, the header's included. */
    method InsertKey(item: int)
      requires Valid() && item >= negInf && InOrder(shape) != [] && InOrder(shape)[0] == negInf
      modifies Repr
      ensures Valid() && fresh(Repr - old(Repr))
      ensures Elements(InOrder(shape)) == old(Elements(InOrder(shape))) + {item}
    {
      ghost var keys := InOrder(shape);
      ghost var p, s := SearchAndGrow(item);
      Repr := Repr + AllNodes(p, s);
      LeastIsFirst(keys, KeysAround(p, s), item);
      Adopt(p, s);
    }

    /** Searches with x stored in the sentinel, so that the loop needs no test for the bottom. */
    method Find(x: int) returns (answer: Option<int>)
      requires Valid()
      modifies nullNode`element, `current
      ensures Valid() && Repr == old(Repr) && KeySet() == old(KeySet())
      ensures Answers(KeySet(), FindOp(x), answer)
    {
      KeysBelowHeader();
      nullNode.element := x;
      current := header.right;
      ghost var s := shape.right;
      while true
        invariant nullNode.element == x && Valid() && shape == old(shape)
        invariant Rep(s, current, nullNode) && Sorted(InOrder(s)) && (x in Keys() <==> x in InOrder(s))
        decreases s
      {
        if s.Branch? {
          SortedParts(InOrder(s.left), s.key, InOrder(s.right));
        }
        if x < current.element {
          current, s := current.left, s.left;
        } else if x > current.element {
          current, s := current.right, s.right;
        } else if current != nullNode {
          return Some(current.element);
        } else {
          return None;
        }
      }
    }

    method FindMin() returns (answer: Option<int>)
      requires Valid()
      ensures Answers(KeySet(), FindMinOp, answer)
    {
      KeysBelowHeader();
      var empty := IsEmpty();
      if empty {
        return None;
      }
      SortedEnds(Keys());
      var itr := header.right;
      ghost var s := shape.right;
      while itr.left != nullNode
        invariant s.Branch? && Rep(s, itr, nullNode) && InOrder(s) != [] && InOrder(s)[0] == Keys()[0]
        decreases s
      {
        itr, s := itr.left, s.left;
      }
      return Some(itr.element);
    }

    method FindMax() returns (answer: Option<int>)
      requires Valid()
      ensures Answers(KeySet(), FindMaxOp, answer)
    {
      KeysBelowHeader();
      var empty := IsEmpty();
      if empty {
        return None;
      }
      SortedEnds(Keys());
      var itr := header.right;
      ghost var s := shape.right;
      while itr.right != nullNode
        invariant s.Branch? && Rep(s, itr, nullNode) && InOrder(s) != []
        invariant InOrder(s)[|InOrder(s)| - 1] == Keys()[|Keys()| - 1]
        decreases s
      {
        itr, s := itr.right, s.right;
      }
      return Some(itr.element);
    }

    method MakeEmpty()
      requires Valid()
      modifies header`right, `shape
      ensures Valid() && KeySet() == {}
    {
      header.right := nullNode;
      shape := Branch(Leaf, header, negInf, BLACK, Leaf);
    }

    method IsEmpty() returns (empty: bool)
      requires Valid()
      ensures empty <==> KeySet() == {}
      ensures empty <==> shape.right.Leaf?
    {
      empty := header.right == nullNode;
      assert Rep(shape.right, header.right, nullNode);
      assert shape.right.Leaf? ==> Keys() == [];
      if shape.right.Branch? {
        ElementsOf(InOrder(shape.right.left), shape.right.key, InOrder(shape.right.right));
        assert shape.right.key in Elements(InOrder(shape.right));
      }
    }
  }

  /** The demand of the constructor: negInf is less than or equal to all items. */
  ghost predicate NotBelow(op: Op, negInf: int) {
    op.InsertOp? ==> negInf <= op.x
  }

  method Perform(tree: RedBlackTree, op: Op) returns (answer: Option<int>)
    requires tree.Valid() && NotBelow(op, tree.negInf)
    modifies tree.Repr
    ensures tree.Valid() && fresh(tree.Repr - old(tree.Repr))
    ensures tree.KeySet() == Effect(old(tree.KeySet()), op, tree.negInf)
    ensures Answers(old(tree.KeySet()), op, answer)
  {
    answer := None;
    match op {
      case InsertOp(x) => tree.Insert(x);
      case RemoveOp(_) =>
      case FindOp(x) => answer := tree.Find(x);
      case FindMinOp => answer := tree.FindMin();
      case FindMaxOp => answer := tree.FindMax();
      case MakeEmptyOp => tree.MakeEmpty();
    }
  }

  /** The answers so far are those of the plain set at the time. */
  ghost predicate AllAnswered(s: set<int>, ops: seq<Op>, negInf: int, answers: seq<Option<int>>) {
    |answers| <= |ops| &&
    forall i :: 0 <= i < |answers| ==> Answers(Effects(s, ops[..i], negInf), ops[i], answers[i])
  }

  /** Over any run the tree stays a red-black search tree of the keys a plain set would hold. */
  method Run(tree: RedBlackTree, ops: seq<Op>) returns (answers: seq<Option<int>>)
    requires tree.Valid() && forall i :: 0 <= i < |ops| ==> NotBelow(ops[i], tree.negInf)
    modifies tree.Repr
    ensures tree.Valid() && tree.KeySet() == Effects(old(tree.KeySet()), ops, tree.negInf)
    ensures |answers| == |ops| && AllAnswered(old(tree.KeySet()), ops, tree.negInf, answers)
  {
    answers := [];
    ghost var s0 := tree.KeySet();
    for i := 0 to |ops|
      invariant tree.Valid() && fresh(tree.Repr - old(tree.Repr)) && tree.KeySet() == Effects(s0, ops[..i], tree.negInf)
      invariant |answers| == i && AllAnswered(s0, ops, tree.negInf, answers)
    {
      EffectsPrefix(s0, ops, tree.negInf, i);
      var answer := Perform(tree, ops[i]);
      answers := answers + [answer];
    }
    assert ops[..|ops|] == ops;
  }
}
