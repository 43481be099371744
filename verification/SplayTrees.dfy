/** What a top-down splay tree holds: the shape of the tree and of its pieces in mid-splay. */
module SplayTrees {
  import opened OrderedSets

  // ---------- Trees ----------

  /** Which node sits where, and with which key. */
  datatype Shape<N> = Leaf | Branch(left: Shape<N>, node: N, key: int, right: Shape<N>)

  ghost function Nodes<N>(s: Shape<N>): set<N> {
    match s
    case Leaf => {}
    case Branch(l, n, _, r) => Nodes(l) + {n} + Nodes(r)
  }

  ghost function Size<N>(s: Shape<N>): nat {
    match s
    case Leaf => 0
    case Branch(l, _, _, r) => Size(l) + 1 + Size(r)
  }

  ghost function InOrder<N>(s: Shape<N>): seq<int> {
    match s
    case Leaf => []
    case Branch(l, _, key, r) => InOrder(l) + [key] + InOrder(r)
  }

  // ---------- The two side trees of a splay ----------

  /** A tree cut open along its right spine (or left spine), listed from the far end:
      each node of the spine with the subtree on its closed side. */
  datatype Spine<N> = End | Link(rest: Spine<N>, side: Shape<N>, node: N, key: int)

  ghost function SpineNodes<N>(p: Spine<N>): set<N> {
    match p
    case End => {}
    case Link(rest, side, n, _) => SpineNodes(rest) + Nodes(side) + {n}
  }

  ghost function LeftKeys<N>(p: Spine<N>): seq<int> {
    match p
    case End => []
    case Link(rest, side, _, key) => LeftKeys(rest) + InOrder(side) + [key]
  }

  ghost function RightKeys<N>(p: Spine<N>): seq<int> {
    match p
    case End => []
    case Link(rest, side, _, key) => [key] + InOrder(side) + RightKeys(rest)
  }

  /** Whether x parts the keys below the root of s. */
  ghost predicate Parted<N>(x: int, s: Shape<N>) {
    s.Branch? ==> (forall y :: y in InOrder(s.left) ==> y < x) && (forall y :: y in InOrder(s.right) ==> x < y)
  }

  /** l, s and r are s0 in three pieces, with x above the first and below the last. */
  ghost predicate CutOf<N>(x: int, s0: Shape<N>, l: Spine<N>, s: Shape<N>, r: Spine<N>) {
    SpineNodes(l) + Nodes(s) + SpineNodes(r) == Nodes(s0) &&
    LeftKeys(l) + InOrder(s) + RightKeys(r) == InOrder(s0) && Sorted(InOrder(s)) &&
    (forall y :: y in LeftKeys(l) ==> y < x) && (forall y :: y in RightKeys(r) ==> x < y)
  }

  /** The pieces when the search for x goes left below s. */
  lemma GoLeft<N>(x: int, s0: Shape<N>, l: Spine<N>, s: Shape<N>, r: Spine<N>)
    requires CutOf(x, s0, l, s, r) && s.Branch? && x < s.key
    ensures CutOf(x, s0, l, s.left, Link(r, s.right, s.node, s.key)) && (s.left.Leaf? ==> Parted(x, s))
  {
    SortedParts(InOrder(s.left), s.key, InOrder(s.right));
    ShiftedRight(LeftKeys(l), InOrder(s.left), s.key, InOrder(s.right), RightKeys(r));
  }

  lemma GoRight<N>(x: int, s0: Shape<N>, l: Spine<N>, s: Shape<N>, r: Spine<N>)
    requires CutOf(x, s0, l, s, r) && s.Branch? && x > s.key
    ensures CutOf(x, s0, Link(l, s.left, s.node, s.key), s.right, r) && (s.right.Leaf? ==> Parted(x, s))
  {
    SortedParts(InOrder(s.left), s.key, InOrder(s.right));
    ShiftedLeft(LeftKeys(l), InOrder(s.left), s.key, InOrder(s.right), RightKeys(r));
  }

  lemma ShiftedRight(a: seq<int>, b: seq<int>, e: int, c: seq<int>, d: seq<int>)
    ensures a + b + ([e] + c + d) == a + (b + [e] + c) + d
  {}

  lemma ShiftedLeft(a: seq<int>, b: seq<int>, e: int, c: seq<int>, d: seq<int>)
    ensures (a + b + [e]) + c + d == a + (b + [e] + c) + d
  {}

  /** Put together around the root of s, the pieces make the whole again, parted by x. */
  lemma Assembled<N>(x: int, whole: Shape<N>, l: Spine<N>, s: Shape<N>, r: Spine<N>, a: Shape<N>, b: Shape<N>)
    requires CutOf(x, whole, l, s, r) && s.Branch? && Parted(x, s)
    requires Nodes(a) == SpineNodes(l) + Nodes(s.left) && InOrder(a) == LeftKeys(l) + InOrder(s.left)
    requires Nodes(b) == SpineNodes(r) + Nodes(s.right) && InOrder(b) == InOrder(s.right) + RightKeys(r)
    ensures var u := Branch(a, s.node, s.key, b);
            Nodes(u) == Nodes(whole) && InOrder(u) == InOrder(whole) && Parted(x, u)
  {
    var u := Branch(a, s.node, s.key, b);
    assert InOrder(u) == InOrder(whole) by {
      Regroup(LeftKeys(l), InOrder(s.left), s.key, InOrder(s.right), RightKeys(r));
    }
    assert Parted(x, u) by {
      PartedConcat(x, LeftKeys(l), InOrder(s.left), InOrder(s.right), RightKeys(r));
    }
    assert Nodes(u) == SpineNodes(l) + Nodes(s) + SpineNodes(r);
  }

  lemma ShapeParts<N>(s: Shape<N>)
    requires s.Branch? && Sorted(InOrder(s))
    ensures Sorted(InOrder(s.left)) && Sorted(InOrder(s.right))
    ensures (forall y :: y in InOrder(s.left) ==> y < s.key) && (forall y :: y in InOrder(s.right) ==> s.key < y)
    ensures Elements(InOrder(s)) == Elements(InOrder(s.left)) + {s.key} + Elements(InOrder(s.right))
  {
    SortedParts(InOrder(s.left), s.key, InOrder(s.right));
    ElementsOf(InOrder(s.left), s.key, InOrder(s.right));
  }

  lemma ShapeWhole<N>(s: Shape<N>)
    requires s.Branch? && Sorted(InOrder(s.left)) && Sorted(InOrder(s.right))
    requires (forall y :: y in InOrder(s.left) ==> y < s.key) && (forall y :: y in InOrder(s.right) ==> s.key < y)
    ensures Sorted(InOrder(s)) &&
            Elements(InOrder(s)) == Elements(InOrder(s.left)) + {s.key} + Elements(InOrder(s.right))
  {
    SortedWhole(InOrder(s.left), s.key, InOrder(s.right));
    ElementsOf(InOrder(s.left), s.key, InOrder(s.right));
  }

  lemma SplitBefore(a: seq<int>, e: int, c: seq<int>)
    ensures a + [e] + c == a + ([e] + c) && [] + [e] + c == [e] + c
  {}

  lemma SplitAfter(a: seq<int>, e: int)
    ensures a + [e] + [] == a + [e]
  {}

  /** Rotations regroup the keys. */
  lemma Regrouped(a: seq<int>, e: int, b: seq<int>, f: int, c: seq<int>)
    ensures (a + [e] + b) + [f] + c == a + [e] + (b + [f] + c)
  {}

  /** x goes between the left subtree and the root, or between the root and the right subtree. */
  lemma InsertedBefore<N>(x: int, s: Shape<N>, n: N, u: Shape<N>)
    requires s.Branch? && Parted(x, s) && Sorted(InOrder(s)) && x < s.key
    requires u == Branch(s.left, n, x, Branch(Leaf, s.node, s.key, s.right))
    ensures Sorted(InOrder(u)) && Elements(InOrder(u)) == Elements(InOrder(s)) + {x}
  {
    var a, b := InOrder(s.left), [s.key] + InOrder(s.right);
    SortedParts(a, s.key, InOrder(s.right));
    SplitBefore(a, s.key, InOrder(s.right));
    SortedInsert(a, x, b);
  }

  lemma InsertedAfter<N>(x: int, s: Shape<N>, n: N, u: Shape<N>)
    requires s.Branch? && Parted(x, s) && Sorted(InOrder(s)) && x > s.key
    requires u == Branch(Branch(s.left, s.node, s.key, Leaf), n, x, s.right)
    ensures Sorted(InOrder(u)) && Elements(InOrder(u)) == Elements(InOrder(s)) + {x}
  {
    var a, b := InOrder(s.left) + [s.key], InOrder(s.right);
    SortedParts(InOrder(s.left), s.key, b);
    SplitAfter(InOrder(s.left), s.key);
    SortedInsert(a, x, b);
  }

  lemma RightKeyListed<N>(s: Shape<N>)
    ensures s.Branch? && s.right.Branch? ==> s.right.key in Elements(InOrder(s)) && s.right.key in InOrder(s.right)
  {}

  /** Splaying the smaller keys around x leaves no right child. */
  lemma NoneBetween<N>(x: int, s: Shape<N>, a: Shape<N>)
    requires s.Branch? && s.key == x && Sorted(InOrder(s)) && InOrder(a) == InOrder(s.left) && Parted(x, a)
    ensures a.Branch? ==> a.right.Leaf?
  {
    ShapeParts(s);
    RightKeyListed(a);
  }

  /** And so room for the larger ones. */
  lemma RemovedRoot<N>(x: int, s: Shape<N>, a: Shape<N>, u: Shape<N>)
    requires s.Branch? && s.key == x && Sorted(InOrder(s)) && InOrder(a) == InOrder(s.left)
    requires a.Branch? ==> a.right.Leaf?
    requires u == if a.Leaf? then s.right else Branch(a.left, a.node, a.key, s.right)
    ensures Sorted(InOrder(u)) && Elements(InOrder(u)) == Elements(InOrder(s)) - {x}
  {
    ShapeParts(s);
    if a.Branch? {
      ShapeParts(a);
      assert a.key in Elements(InOrder(a));
      ShapeWhole(u);
    }
  }

  /** After a splay around x, only the root can hold x, and no other key lies between the root and x. */
  lemma RootDecides<N>(x: int, s: Shape<N>)
    requires s.Branch? && Parted(x, s) && Sorted(InOrder(s))
    ensures x in InOrder(s) <==> s.key == x
    ensures forall y :: y in InOrder(s) && y != s.key ==> !(s.key < y <= x) && !(x <= y < s.key)
  {
    ShapeParts(s);
    assert s.key in Elements(InOrder(s));
    forall y | y in InOrder(s) && y != s.key
      ensures y != x && !(s.key < y <= x) && !(x <= y < s.key)
    {
      assert y in Elements(InOrder(s));
    }
  }

  lemma AssembledApart<N>(l: Spine<N>, s: Shape<N>, r: Spine<N>)
    requires s.Branch? && SpineNodes(l) !! Nodes(s) && SpineNodes(r) !! Nodes(s) && SpineNodes(l) !! SpineNodes(r)
    requires s.node !in Nodes(s.left) && s.node !in Nodes(s.right) && Nodes(s.left) !! Nodes(s.right)
    ensures var a, b := SpineNodes(l) + Nodes(s.left), SpineNodes(r) + Nodes(s.right);
            s.node !in a && s.node !in b && a !! b
  {}

  lemma Regroup(a: seq<int>, b: seq<int>, e: int, c: seq<int>, d: seq<int>)
    ensures (a + b) + [e] + (c + d) == a + (b + [e] + c) + d
  {}

  lemma PartedConcat(x: int, a: seq<int>, b: seq<int>, c: seq<int>, d: seq<int>)
    requires (forall y :: y in a ==> y < x) && (forall y :: y in b ==> y < x)
    requires (forall y :: y in c ==> x < y) && (forall y :: y in d ==> x < y)
    ensures (forall y :: y in a + b ==> y < x) && (forall y :: y in c + d ==> x < y)
  {}
}
