/** AA-trees as values: the rebalancing steps, insertion and removal, and what they keep. */
module AATrees {
  import opened Basics
  import opened OrderedSets

  datatype Tree = Nil | Node(level: int, left: Tree, element: int, right: Tree)

  function Level(t: Tree): int {
    if t.Nil? then 0 else t.level
  }

  function Left(t: Tree): Tree {
    if t.Nil? then Nil else t.left
  }

  function Right(t: Tree): Tree {
    if t.Nil? then Nil else t.right
  }

  /** Left children are one level down, right children at most one; no two right steps stay level. */
  predicate Balanced(t: Tree) {
    t.Nil? ||
    (t.level >= 1 && Balanced(t.left) && Balanced(t.right) && Level(t.left) == t.level - 1 &&
     t.level - 1 <= Level(t.right) <= t.level && Level(Right(t.right)) < t.level)
  }

  function InOrder(t: Tree): seq<int> {
    if t.Nil? then [] else InOrder(t.left) + [t.element] + InOrder(t.right)
  }

  // ---------- The steps ----------

  function RotateWithLeft(t: Tree): (u: Tree)
    requires t.Node? && t.left.Node?
    ensures u.Node?
  {
    Node(t.left.level, t.left.left, t.left.element, Node(t.level, t.left.right, t.element, t.right))
  }

  function RotateWithRight(t: Tree): (u: Tree)
    requires t.Node? && t.right.Node?
    ensures u.Node?
  {
    Node(t.right.level, Node(t.level, t.left, t.element, t.right.left), t.right.element, t.right.right)
  }

  function Skew(t: Tree): Tree {
    if t.Node? && t.left.Node? && t.left.level == t.level then RotateWithLeft(t) else t
  }

  function Split(t: Tree): Tree {
    if t.Node? && t.right.Node? && Level(t.right.right) == t.level then
      var u := RotateWithRight(t); Node(u.level + 1, u.left, u.element, u.right)
    else t
  }

  function Insert(x: int, t: Tree): Tree {
    if t.Nil? then Split(Skew(Node(1, Nil, x, Nil)))
    else if x < t.element then Split(Skew(t.(left := Insert(x, t.left))))
    else if x > t.element then Split(Skew(t.(right := Insert(x, t.right))))
    else t
  }

  lemma Parts(t: Tree)
    requires Balanced(t)
    ensures Level(Right(t)) <= Level(t) && (t.Nil? <==> Level(t) == 0) && Level(t) >= 0
    ensures Balanced(Left(t)) && Balanced(Right(t))
  {}

  // ---------- Insertion ----------

  lemma SkewSplitInOrder(t: Tree)
    ensures InOrder(Skew(t)) == InOrder(t) && InOrder(Split(t)) == InOrder(t)
  {}

  /** The level grows by at most one, and only when t had a right child on its own level. */
  lemma {:induction false} InsertKeepsBalance(x: int, t: Tree)
    requires Balanced(t)
    ensures var u := Insert(x, t);
            Balanced(u) && u.Node? &&
            (Level(u) == Level(t) ||
             (Level(u) == Level(t) + 1 && Level(u.right) == Level(t) && Level(Right(t)) == Level(t)))
  {
    if t.Node? && x < t.element {
      InsertKeepsBalance(x, t.left);
      LeftGrown(t, Insert(x, t.left));
    } else if t.Node? && x > t.element {
      InsertKeepsBalance(x, t.right);
      RightGrown(t, Insert(x, t.right));
    }
  }

  lemma LeftGrown(t: Tree, l: Tree)
    requires t.Node? && Balanced(t) && Balanced(l)
    requires Level(l) == t.level - 1 || (Level(l) == t.level && Level(l.right) == t.level - 1)
    ensures var u := Split(Skew(t.(left := l)));
            Balanced(u) && (Level(u) == t.level ||
             (Level(u) == t.level + 1 && Level(u.right) == t.level && Level(t.right) == t.level))
  {}

  lemma RightGrown(t: Tree, r: Tree)
    requires t.Node? && Balanced(t) && Balanced(r) && r.Node?
    requires Level(r) == Level(t.right) ||
             (Level(r) == Level(t.right) + 1 && Level(r.right) == Level(t.right) &&
               Level(Right(t.right)) == Level(t.right))
    ensures var u := Split(Skew(t.(right := r)));
            Balanced(u) && (Level(u) == t.level ||
             (Level(u) == t.level + 1 && Level(u.right) == t.level && Level(t.right) == t.level))
  {}

  /** Insertion adds exactly x to the keys, in order. */
  lemma {:induction false} InsertAdds(x: int, t: Tree)
    requires Sorted(InOrder(t))
    ensures Sorted(InOrder(Insert(x, t)))
    ensures forall y :: y in InOrder(Insert(x, t)) <==> y in InOrder(t) || y == x
  {
    if t.Nil? {
      SkewSplitInOrder(Node(1, Nil, x, Nil));
    } else {
      SortedParts(InOrder(t.left), t.element, InOrder(t.right));
      if x < t.element {
        InsertAdds(x, t.left);
        SortedWhole(InOrder(Insert(x, t.left)), t.element, InOrder(t.right));
        SkewSplitInOrder(t.(left := Insert(x, t.left)));
        SkewSplitInOrder(Skew(t.(left := Insert(x, t.left))));
      } else if x > t.element {
        InsertAdds(x, t.right);
        SortedWhole(InOrder(t.left), t.element, InOrder(Insert(x, t.right)));
        SkewSplitInOrder(t.(right := Insert(x, t.right)));
        SkewSplitInOrder(Skew(t.(right := Insert(x, t.right))));
      }
    }
  }

  // ---------- Removal ----------

  /** tree: what is left; done: whether an element went; last: the element of the node taken out. */
  datatype Removal = Removal(tree: Tree, done: bool, last: int)

  function Lower(t: Tree): Tree
    requires t.Node?
  {
    var v := t.level - 1;
    Node(v, t.left, t.element, if t.right.Node? && t.right.level > v then t.right.(level := v) else t.right)
  }

  function SkewThrice(t: Tree): (u: Tree)
    requires t.Node?
    ensures u.Node?
  {
    var t1 := Skew(t);
    var t2 := t1.(right := Skew(t1.right));
    if t2.right.Nil? then t2 else t2.(right := t2.right.(right := Skew(t2.right.right)))
  }

  function SplitTwice(t: Tree): (u: Tree)
    requires t.Node?
    ensures u.Node?
  {
    var t1 := Split(t);
    t1.(right := Split(t1.right))
  }

  predicate NeedsRebalance(t: Tree)
    requires t.Node?
  {
    Level(t.left) < t.level - 1 || Level(t.right) < t.level - 1
  }

  /** Restores a node that has lost a level on one side. */
  function Rebalance(t: Tree): (u: Tree)
    requires t.Node?
    ensures u.Node?
  {
    if NeedsRebalance(t) then SplitTwice(SkewThrice(Lower(t))) else t
  }

  /** Removal below t; candidate says whether the last node at which the search went right holds x. */
  function Remove(x: int, t: Tree, candidate: bool): Removal {
    if t.Nil? then Removal(Nil, false, 0)
    else if x < t.element then
      if t.left.Nil? then
        if candidate then Removal(t.right, true, t.element) else Removal(t, false, 0)
      else
        var r := Remove(x, t.left, candidate);
        Removal(Rebalance(t.(left := r.tree)), r.done, r.last)
    else
      if t.right.Nil? then
        if x == t.element then Removal(Nil, true, t.element) else Removal(t, false, 0)
      else
        var r := Remove(x, t.right, x == t.element);
        Removal(Rebalance(t.(right := r.tree, element := if r.done && x == t.element then r.last else t.element)),
                r.done, r.last)
  }

  /** How the tree that remains relates to t in height. */
  predicate Lowered(t: Tree, u: Tree) {
    Level(t) - 1 <= Level(u) <= Level(t) &&
    (Level(u) == Level(t) && Level(Right(t)) < Level(t) ==> Level(Right(u)) < Level(u))
  }

  lemma LeftLowered(t: Tree, l: Tree)
    requires t.Node? && Balanced(t) && t.left.Node? && Balanced(l) && Lowered(t.left, l)
    ensures Balanced(Rebalance(t.(left := l))) && Lowered(t, Rebalance(t.(left := l)))
  {
    if Level(l) < Level(t.left) {
      LeftDropped(t.level, l, t.element, t.right);
    }
  }

  lemma RightLowered(t: Tree, e: int, r: Tree)
    requires t.Node? && Balanced(t) && t.right.Node? && Balanced(r) && Lowered(t.right, r)
    ensures Balanced(Rebalance(t.(right := r, element := e))) && Lowered(t, Rebalance(t.(right := r, element := e)))
  {
    if Level(r) < t.level - 1 {
      RightDropped(t.level, t.left, e, r);
    }
  }

  lemma RightDropped(w: int, l: Tree, e: int, r: Tree)
    requires w >= 2 && Balanced(l) && Balanced(r) && Level(l) == w - 1 && Level(r) == w - 2
    ensures var u := Rebalance(Node(w, l, e, r));
            Balanced(u) && w - 1 <= Level(u) <= w && Level(u.right) < w
  {
    Parts(l);
    Parts(r);
    Parts(l.right);
    var t1 := Skew(Node(w - 1, l, e, r));
    assert t1 == Node(w - 1, l.left, l.element, Node(w - 1, l.right, e, r));
    if Level(l.right) == w - 1 {
      var b := l.right;
      Parts(b.left);
      var low := Node(w - 1, b.right, e, r);
      assert Skew(t1.right) == Node(w - 1, b.left, b.element, low);
      assert Skew(low) == low;
      var t3 := Node(w - 1, l.left, l.element, Node(w - 1, b.left, b.element, low));
      var t4 := Node(w, Node(w - 1, l.left, l.element, b.left), b.element, low);
      assert Split(t3) == t4;
      assert Split(low) == low;
      assert Rebalance(Node(w, l, e, r)) == t4;
      Parts(b.right);
      assert Balanced(low);
      assert Balanced(t4.left);
    } else {
      assert Skew(t1.right) == t1.right;
      assert Skew(r) == r;
      assert Split(t1) == t1;
      assert Split(t1.right) == t1.right;
      assert Rebalance(Node(w, l, e, r)) == t1;
      assert Balanced(t1.right);
    }
  }

  lemma LeftDropped(w: int, l: Tree, e: int, r: Tree)
    requires w >= 2 && Balanced(l) && Balanced(r) && Level(l) == w - 2
    requires w - 1 <= Level(r) <= w && Level(r.right) < w
    ensures var u := Rebalance(Node(w, l, e, r));
            Balanced(u) && w - 1 <= Level(u) <= w && (Level(u) == w && Level(r) < w ==> Level(u.right) < w)
  {
    if Level(r) == w {
      LeftDroppedLevel(w, l, e, r);
    } else {
      var t1 := Node(w - 1, l, e, r);
      Parts(l);
      Parts(r);
      Parts(r.left);
      Parts(r.right);
      assert Skew(t1) == t1 && Skew(r) == r && Skew(r.right) == r.right;
      if Level(r.right) == w - 1 {
        var t4 := Node(w, Node(w - 1, l, e, r.left), r.element, r.right);
        assert Split(t1) == t4;
        assert Split(r.right) == r.right;
        assert Rebalance(Node(w, l, e, r)) == t4;
        assert Balanced(t4.left);
      } else {
        assert Split(t1) == t1 && Split(r) == r;
        assert Rebalance(Node(w, l, e, r)) == t1;
      }
    }
  }

  /** The hardest case: the right child is level with t and comes down with it. */
  lemma LeftDroppedLevel(w: int, l: Tree, e: int, r: Tree)
    requires w >= 2 && Balanced(l) && Balanced(r) && Level(l) == w - 2 && Level(r) == w && Level(r.right) < w
    ensures var u := Rebalance(Node(w, l, e, r));
            Balanced(u) && Level(u) == w
  {
    Parts(r.left);
    if Level(r.left.right) == w - 1 {
      ThreeSkews(w, l, e, r);
    } else {
      TwoSkews(w, l, e, r);
    }
  }

  lemma ThreeSkews(w: int, l: Tree, e: int, r: Tree)
    requires w >= 2 && Balanced(l) && Balanced(r) && Level(l) == w - 2 && Level(r) == w && Level(r.right) < w
    requires Level(Right(r.left)) == w - 1
    ensures var u := Rebalance(Node(w, l, e, r));
            Balanced(u) && Level(u) == w
  {
    var a, c := r.left, r.left.right;
    Parts(a);
    Parts(c);
    Parts(a.left);
    Parts(c.left);
    Parts(c.right);
    ThreeSkewsSplit(w, l, e, r, a, c);
    assert Balanced(Node(w - 1, l, e, a.left));
    assert Balanced(Node(w, Node(w - 1, c.left, c.element, c.right), r.element, r.right));
  }

  lemma ThreeSkewsSplit(w: int, l: Tree, e: int, r: Tree, a: Tree, c: Tree)
    requires w >= 2 && Level(l) == w - 2 && r.Node? && a.Node? && c.Node? && r.left == a && a.right == c
    requires r.level == w && a.level == c.level == w - 1 && Level(r.right) == w - 1
    requires Level(a.left) < w - 1 && Level(c.left) < w - 1 && Level(c.right) < w - 1
    ensures Rebalance(Node(w, l, e, r)) ==
            Node(w, Node(w - 1, l, e, a.left), a.element,
                 Node(w, Node(w - 1, c.left, c.element, c.right), r.element, r.right))
  {
    var rest := Node(w - 1, c.right, r.element, r.right);
    var middle := Node(w - 1, c.left, c.element, rest);
    var t1 := Node(w - 1, l, e, r.(level := w - 1));
    var t3 := Node(w - 1, l, e, Node(w - 1, a.left, a.element, middle));
    assert Lower(Node(w, l, e, r)) == t1;
    ThreeSkewsMeet(t1, a, c, r.right);
    assert SkewThrice(t1) == t3;
    assert Split(t3) == Node(w, Node(w - 1, l, e, a.left), a.element, middle);
    assert Split(middle) == Node(w, Node(w - 1, c.left, c.element, c.right), r.element, r.right);
  }

  lemma ThreeSkewsMeet(t: Tree, a: Tree, c: Tree, q: Tree)
    requires t.Node? && t.right.Node? && a.Node? && c.Node? && t.right.left == a && a.right == c && t.right.right == q
    requires t.right.level == t.level == a.level == c.level && Level(t.left) < t.level && Level(a.left) < t.level
    requires Level(c.left) < t.level && Level(c.right) < t.level
    ensures SkewThrice(t) ==
            Node(t.level, t.left, t.element,
                 Node(t.level, a.left, a.element,
                      Node(t.level, c.left, c.element, Node(t.level, c.right, t.right.element, q))))
  {}

  lemma TwoSkews(w: int, l: Tree, e: int, r: Tree)
    requires w >= 2 && Balanced(l) && Balanced(r) && Level(l) == w - 2 && Level(r) == w && Level(r.right) < w
    requires Level(Right(r.left)) != w - 1
    ensures var u := Rebalance(Node(w, l, e, r));
            Balanced(u) && Level(u) == w
  {
    var a := r.left;
    Parts(a);
    Parts(a.left);
    Parts(a.right);
    var low := Node(w - 1, a.right, r.element, r.right);
    var first := Node(w - 1, l, e, a.left);
    TwoSkewsMeet(w, l, e, r, a);
    SplitLow(w, low);
    assert Balanced(first);
  }

  lemma TwoSkewsMeet(w: int, l: Tree, e: int, r: Tree, a: Tree)
    requires w >= 2 && Level(l) == w - 2 && r.Node? && a.Node? && r.left == a && r.level == w && a.level == w - 1
    requires Level(r.right) <= w - 1 && Level(a.left) < w - 1 && Level(a.right) < w - 1
    ensures var low := Node(w - 1, a.right, r.element, r.right);
            Rebalance(Node(w, l, e, r)) == Node(w, Node(w - 1, l, e, a.left), a.element, Split(low))
  {
    var low := Node(w - 1, a.right, r.element, r.right);
    var t1 := Node(w - 1, l, e, r.(level := w - 1));
    var t3 := Node(w - 1, l, e, Node(w - 1, a.left, a.element, low));
    assert Lower(Node(w, l, e, r)) == t1;
    assert SkewThrice(t1) == t3 by {
      assert Skew(t1) == t1 && Skew(t1.right) == t3.right && Skew(low) == low;
    }
    assert Split(t3) == Node(w, Node(w - 1, l, e, a.left), a.element, low);
  }

  /** The second split restores what hangs to the right. */
  lemma SplitLow(w: int, low: Tree)
    requires w >= 2 && low.Node? && low.level == w - 1 && Balanced(low.left) && Balanced(low.right)
    requires Level(low.left) == w - 2 && w - 2 <= Level(low.right) <= w - 1
    ensures Balanced(Split(low)) && w - 1 <= Level(Split(low)) <= w && Level(Right(Split(low))) < w
  {
    Parts(low.left);
    Parts(low.right);
    var q := low.right;
    if q.Node? && Level(q.right) == w - 1 {
      Parts(q.left);
      var under := Node(w - 1, low.left, low.element, q.left);
      assert Split(low) == Node(w, under, q.element, q.right);
      assert Balanced(under);
    } else {
      assert Split(low) == low;
    }
  }

  lemma {:induction false} RemoveKeepsBalance(x: int, t: Tree, candidate: bool)
    requires Balanced(t)
    ensures Balanced(Remove(x, t, candidate).tree) && Lowered(t, Remove(x, t, candidate).tree)
  {
    if t.Node? && x < t.element && t.left.Node? {
      RemoveKeepsBalance(x, t.left, candidate);
      LeftLowered(t, Remove(x, t.left, candidate).tree);
    } else if t.Node? && x >= t.element && t.right.Node? {
      var r := Remove(x, t.right, x == t.element);
      RemoveKeepsBalance(x, t.right, x == t.element);
      RightLowered(t, if r.done && x == t.element then r.last else t.element, r.tree);
    }
  }

  lemma SkewThriceInOrder(t: Tree)
    requires t.Node?
    ensures InOrder(SkewThrice(t)) == InOrder(t)
  {
    var t1 := Skew(t);
    var t2 := t1.(right := Skew(t1.right));
    SkewSplitInOrder(t);
    SkewSplitInOrder(t1.right);
    assert InOrder(t2) == InOrder(t1);
    if t2.right.Node? {
      SkewSplitInOrder(t2.right.right);
      SameInOrder(t2.right, t2.right.(right := Skew(t2.right.right)));
      SameInOrder(t2, SkewThrice(t));
    }
  }

  lemma SameInOrder(t: Tree, u: Tree)
    requires t.Node? && u.Node? && t.element == u.element
    requires InOrder(t.left) == InOrder(u.left) && InOrder(t.right) == InOrder(u.right)
    ensures InOrder(t) == InOrder(u)
  {}

  lemma RebalanceInOrder(t: Tree)
    requires t.Node?
    ensures InOrder(Rebalance(t)) == InOrder(t)
  {
    if Rebalance(t) != t {
      SameInOrder(t, Lower(t));
      SkewThriceInOrder(Lower(t));
      var t3 := SkewThrice(Lower(t));
      SkewSplitInOrder(t3);
      var t4 := Split(t3);
      SkewSplitInOrder(t4.right);
      SameInOrder(t4, SplitTwice(t3));
    }
  }

  /** The search runs into the smallest key above x, which takes the place of x. */
  lemma {:induction false} RemoveFirst(x: int, t: Tree, candidate: bool)
    requires candidate && Balanced(t) && t.Node? && Sorted(InOrder(t)) && forall y :: y in InOrder(t) ==> x < y
    ensures var r := Remove(x, t, candidate);
            r.done && r.last == InOrder(t)[0] && InOrder(r.tree) == InOrder(t)[1..]
  {
    assert t.element in InOrder(t);
    SortedParts(InOrder(t.left), t.element, InOrder(t.right));
    if t.left.Node? {
      forall y | y in InOrder(t.left) ensures x < y {
        assert y in InOrder(t);
      }
      RemoveFirst(x, t.left, candidate);
      RebalanceInOrder(t.(left := Remove(x, t.left, candidate).tree));
      assert InOrder(t)[1..] == InOrder(t.left)[1..] + [t.element] + InOrder(t.right);
    } else {
      assert InOrder(t) == [t.element] + InOrder(t.right);
    }
  }

  /** Removal takes exactly x out of the keys, and leaves the tree alone if x is not there. */
  lemma {:induction false} RemoveRemoves(x: int, t: Tree, candidate: bool)
    requires !candidate && Balanced(t) && Sorted(InOrder(t))
    ensures var r := Remove(x, t, candidate);
            (r.done <==> x in InOrder(t)) && (!r.done ==> r.tree == t) && Sorted(InOrder(r.tree)) &&
            forall y :: y in InOrder(r.tree) <==> y in InOrder(t) && y != x
  {
    if t.Node? {
      var a, b := InOrder(t.left), InOrder(t.right);
      SortedParts(a, t.element, b);
      if x < t.element {
        RemoveRemoves(x, t.left, candidate);
        var r := Remove(x, t.left, candidate);
        RemovedFromPart(a, InOrder(r.tree), t.element, b, b, x);
        RebalanceInOrder(t.(left := r.tree));
      } else if x > t.element {
        RemoveRemoves(x, t.right, x == t.element);
        var r := Remove(x, t.right, x == t.element);
        RemovedFromPart(a, a, t.element, b, InOrder(r.tree), x);
        RebalanceInOrder(t.(right := r.tree));
      } else {
        RemoveFound(x, t, candidate);
        RemovedMiddle(a, x, b);
      }
    }
  }

  lemma RemoveFound(x: int, t: Tree, candidate: bool)
    requires t.Node? && Balanced(t) && Sorted(InOrder(t)) && x == t.element
    ensures var r := Remove(x, t, candidate);
            r.done && InOrder(r.tree) == InOrder(t.left) + InOrder(t.right)
  {
    var a, b := InOrder(t.left), InOrder(t.right);
    SortedParts(a, x, b);
    if t.right.Node? {
      var found := x == t.element;
      RemoveFirst(x, t.right, found);
      var r := Remove(x, t.right, found);
      RebalanceInOrder(t.(right := r.tree, element := r.last));
      assert a + [b[0]] + b[1..] == a + b;
    } else {
      Parts(t.left);
      assert a + b == [];
    }
  }

  lemma RemovedFromPart(a: seq<int>, a': seq<int>, e: int, b: seq<int>, b': seq<int>, x: int)
    requires Sorted(a + [e] + b) && Sorted(a') && Sorted(b') && x != e
    requires forall y :: y in a' <==> y in a && y != x
    requires forall y :: y in b' <==> y in b && y != x
    ensures Sorted(a' + [e] + b')
    ensures forall y :: y in a' + [e] + b' <==> y in a + [e] + b && y != x
  {
    SortedParts(a, e, b);
    SortedWhole(a', e, b');
  }

  lemma RemovedMiddle(a: seq<int>, x: int, b: seq<int>)
    requires Sorted(a + [x] + b)
    ensures Sorted(a + b)
    ensures forall y :: y in a + b <==> y in a + [x] + b && y != x
  {
    SortedParts(a, x, b);
    assert forall i :: 0 <= i < |a| ==> a[i] in a;
    assert forall i :: 0 <= i < |b| ==> b[i] in b;
  }

  /** An AA-tree of distinct keys in order. */
  ghost predicate SearchTree(t: Tree) {
    Balanced(t) && Sorted(InOrder(t))
  }

  /** Insertion and removal turn AA-trees into AA-trees, and act on the keys as on a plain set. */
  lemma InsertRefines(x: int, t: Tree)
    requires SearchTree(t)
    ensures SearchTree(Insert(x, t)) && Elements(InOrder(Insert(x, t))) == Elements(InOrder(t)) + {x}
  {
    InsertKeepsBalance(x, t);
    InsertAdds(x, t);
  }

  lemma RemoveRefines(x: int, t: Tree, candidate: bool)
    requires SearchTree(t) && !candidate
    ensures var u := Remove(x, t, candidate).tree;
            SearchTree(u) && Elements(InOrder(u)) == Elements(InOrder(t)) - {x}
  {
    RemoveKeepsBalance(x, t, candidate);
    RemoveRemoves(x, t, candidate);
  }

  // ---------- Why the sentinel is safe ----------

  /** Every node has a positive level; the sentinel alone is at level 0. */
  predicate Positive(t: Tree) {
    t.Nil? || (t.level >= 1 && Positive(t.left) && Positive(t.right))
  }

  lemma {:induction false} BalancedIsPositive(t: Tree)
    requires Balanced(t)
    ensures Positive(t)
  {
    if t.Node? {
      BalancedIsPositive(t.left);
      BalancedIsPositive(t.right);
    }
  }

  lemma StepsKeepPositive(t: Tree)
    requires Positive(t)
    ensures Positive(Skew(t)) && Positive(Split(t))
    ensures t.Node? && t.level >= 2 ==> Positive(Lower(t))
  {}

  /** What an insertion hands to skew and split. */
  lemma InsertPositive(x: int, t: Tree)
    requires Balanced(t) && t.Node?
    ensures x < t.element ==> Positive(t.(left := Insert(x, t.left)))
    ensures x > t.element ==> Positive(t.(right := Insert(x, t.right)))
    ensures x < t.element ==> Positive(Skew(t.(left := Insert(x, t.left))))
    ensures x > t.element ==> Positive(Skew(t.(right := Insert(x, t.right))))
  {
    BalancedIsPositive(t);
    InsertKeepsBalance(x, t.left);
    InsertKeepsBalance(x, t.right);
    BalancedIsPositive(Insert(x, t.left));
    BalancedIsPositive(Insert(x, t.right));
    StepsKeepPositive(t.(left := Insert(x, t.left)));
    StepsKeepPositive(t.(right := Insert(x, t.right)));
  }

  /** A node that needs rebalancing: one child lost a level, the other did not. */
  predicate Dropped(t: Tree) {
    t.Node? && t.level >= 2 && Balanced(t.left) && Balanced(t.right) &&
    ((Level(t.left) == t.level - 2 && t.level - 1 <= Level(t.right) <= t.level && Level(Right(t.right)) < t.level) ||
     (Level(t.left) == t.level - 1 && Level(t.right) == t.level - 2))
  }

  /** What a removal in the left subtree hands to the rebalancing. */
  lemma LeftLoweredDropped(t: Tree, l: Tree)
    requires t.Node? && Balanced(t) && t.left.Node? && Balanced(l) && Lowered(t.left, l)
    ensures Positive(t.(left := l)) && (NeedsRebalance(t.(left := l)) ==> Dropped(t.(left := l)))
  {
    BalancedIsPositive(l);
    BalancedIsPositive(t);
  }

  lemma RightLoweredDropped(t: Tree, e: int, r: Tree)
    requires t.Node? && Balanced(t) && t.right.Node? && Balanced(r) && Lowered(t.right, r)
    ensures var u := t.(right := r, element := e);
            Positive(u) && (NeedsRebalance(u) ==> Dropped(u))
  {
    BalancedIsPositive(r);
    BalancedIsPositive(t);
  }

  /** All keys of t lie above x. */
  ghost predicate Above(x: int, t: Tree) {
    forall y :: y in InOrder(t) ==> x < y
  }

  /** What the recursive calls of a removal may count on. */
  lemma RemovalParts(x: int, t: Tree)
    requires t.Node? && SearchTree(t)
    ensures SearchTree(t.left) && SearchTree(t.right)
    ensures x == t.element ==> Above(x, t.right)
    ensures Above(x, t) ==> x < t.element && Above(x, t.left)
  {
    SortedParts(InOrder(t.left), t.element, InOrder(t.right));
    assert forall y :: y in InOrder(t.left) ==> y in InOrder(t);
    assert t.element in InOrder(t);
  }

  /** The first step of a removal, the descent, and whether it ends at the root of t. */
  function Descend(x: int, t: Tree, candidate: bool): Tree
    requires t.Node?
  {
    if x < t.element then t.(left := Remove(x, t.left, candidate).tree)
    else
      var r := Remove(x, t.right, x == t.element);
      t.(right := r.tree, element := if r.done && x == t.element then r.last else t.element)
  }

  predicate AtBottom(x: int, t: Tree)
    requires t.Node?
  {
    if x < t.element then t.left.Nil? else t.right.Nil?
  }

  /** Above the bottom, a removal is a descent and a rebalancing fit for the cases that can come up. */
  lemma RemoveInSteps(x: int, t: Tree, candidate: bool)
    requires t.Node? && Balanced(t)
    ensures AtBottom(x, t) ==> Descend(x, t, candidate) == t
    ensures !AtBottom(x, t) ==>
              var u := Descend(x, t, candidate);
              Remove(x, t, candidate).tree == Rebalance(u) && Positive(u) && (NeedsRebalance(u) ==> Dropped(u))
  {
    if !AtBottom(x, t) {
      if x < t.element {
        RemoveKeepsBalance(x, t.left, candidate);
        LeftLoweredDropped(t, Remove(x, t.left, candidate).tree);
      } else {
        RemoveKeepsBalance(x, t.right, x == t.element);
        var u := Descend(x, t, candidate);
        RightLoweredDropped(t, u.element, u.right);
      }
    }
  }

  /** Skewing thrice leaves levels positive. */
  lemma SkewThricePositive(t: Tree)
    requires t.Node? && Positive(t)
    ensures Positive(SkewThrice(t))
  {
    StepsKeepPositive(t);
    var t1 := Skew(t);
    StepsKeepPositive(t1.right);
    var r := Skew(t1.right);
    if r.Node? {
      StepsKeepPositive(r.right);
    }
  }

  /** The second split of a rebalancing never meets the sentinel, whose level it would raise. */
  lemma SecondSplitHasNode(t: Tree)
    requires Dropped(t)
    ensures SkewThrice(Lower(t)).right.Node? && Split(SkewThrice(Lower(t))).right.Node?
    ensures Skew(Lower(t)).right.Node? && Skew(Skew(Lower(t)).right).Node?
  {}

  // ---------- Size ----------

  function Size(t: Tree): nat {
    if t.Nil? then 0 else Size(t.left) + 1 + Size(t.right)
  }

  function Height(t: Tree): nat {
    if t.Nil? then 0 else 1 + if Height(t.left) > Height(t.right) then Height(t.left) else Height(t.right)
  }

  /** Height is at most twice the level, and the level logarithmic in the size. */
  lemma {:induction false} LevelBounds(t: Tree)
    requires Balanced(t)
    ensures Level(t) >= 0 && Size(t) + 1 >= Pow2(Level(t))
    ensures Height(t) <= 2 * Level(t) && (Level(Right(t)) < Level(t) ==> Height(t) <= 2 * Level(t) - 1)
  {
    if t.Node? {
      LevelBounds(t.left);
      LevelBounds(t.right);
      if Level(t.right) == t.level {
        assert Pow2(Level(t.right)) == 2 * Pow2(t.level - 1);
      }
    }
  }
}
