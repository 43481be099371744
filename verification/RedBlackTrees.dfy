/** Red-black trees as values: a tree, the path that leads to a place in it, and the repairs of a top-down insertion. */
module RedBlackTrees {
  import opened Basics
  import opened OrderedSets

  datatype Color = RED | BLACK

  /** A tree over nodes of type N, with what each node holds. */
  datatype Shape<N> = Leaf | Branch(left: Shape<N>, node: N, key: int, color: Color, right: Shape<N>)

  /** The way from the header down to a place: the nodes passed, which way the path left each of them,
      and what hangs on the other side. */
  datatype Path<N> = Above | Down(rest: Path<N>, node: N, key: int, color: Color, goLeft: bool, side: Shape<N>)

  predicate Red<N>(s: Shape<N>) {
    s.Branch? && s.color.RED?
  }

  predicate TwoRed<N>(s: Shape<N>) {
    s.Branch? && Red(s.left) && Red(s.right)
  }

  /** No red node has a red child, and every way down passes h black nodes. */
  predicate Fits<N>(s: Shape<N>, h: int) {
    match s
    case Leaf => h == 0
    case Branch(l, _, _, color, r) =>
      var k := if color.RED? then h else h - 1;
      Fits(l, k) && Fits(r, k) && (color.RED? ==> !Red(l) && !Red(r))
  }

  function BlackHeight<N>(s: Shape<N>): int {
    match s
    case Leaf => 0
    case Branch(l, _, _, color, _) => if color.RED? then BlackHeight(l) else BlackHeight(l) + 1
  }

  predicate RedBlack<N>(s: Shape<N>) {
    Fits(s, BlackHeight(s)) && !Red(s)
  }

  lemma {:induction false} FitsHeight<N>(s: Shape<N>, h: int)
    requires Fits(s, h)
    ensures h == BlackHeight(s) && h >= 0
  {
    if s.Branch? {
      FitsHeight(s.left, if s.color.RED? then h else h - 1);
    }
  }

  function InOrder<N>(s: Shape<N>): seq<int> {
    match s
    case Leaf => []
    case Branch(l, _, key, _, r) => InOrder(l) + [key] + InOrder(r)
  }

  ghost function Nodes<N>(s: Shape<N>): set<N> {
    match s
    case Leaf => {}
    case Branch(l, n, _, _, r) => Nodes(l) + {n} + Nodes(r)
  }

  // ---------- Places ----------

  /** s with its place at p: one step further up. */
  function Attach<N>(p: Path<N>, s: Shape<N>): (u: Shape<N>)
    requires p.Down?
    ensures u.Branch?
  {
    if p.goLeft then Branch(s, p.node, p.key, p.color, p.side) else Branch(p.side, p.node, p.key, p.color, s)
  }

  /** The header's frame: its right child is the root of the tree. */
  predicate AtHeader<N>(p: Path<N>) {
    p.Down? && p.rest.Above? && p.color.BLACK? && !p.goLeft && p.side.Leaf?
  }

  /** A red node would be in its place here: neither below another nor as the root. */
  predicate RedAllowed<N>(p: Path<N>) {
    p.Down? && p.rest.Down? && p.color.BLACK?
  }

  /** Everything around the place is in order for a tree of black height h. */
  predicate PathFits<N>(p: Path<N>, h: int) {
    p.Down? &&
    (AtHeader(p) ||
     (Fits(p.side, h) && PathFits(p.rest, if p.color.RED? then h else h + 1) &&
      (p.color.RED? ==> RedAllowed(p.rest) && !Red(p.side))))
  }

  predicate Placed<N>(p: Path<N>, s: Shape<N>) {
    PathFits(p, BlackHeight(s)) && Fits(s, BlackHeight(s)) && (Red(s) ==> RedAllowed(p))
  }

  function Before<N>(p: Path<N>): seq<int> {
    if p.Above? then []
    else if p.goLeft then Before(p.rest) else Before(p.rest) + InOrder(p.side) + [p.key]
  }

  function After<N>(p: Path<N>): seq<int> {
    if p.Above? then []
    else if p.goLeft then [p.key] + InOrder(p.side) + After(p.rest) else After(p.rest)
  }

  /** All the keys, the header's included. */
  function KeysAround<N>(p: Path<N>, s: Shape<N>): seq<int> {
    Before(p) + InOrder(s) + After(p)
  }

  /** The path leads between the keys below item and the keys above it. */
  ghost predicate Around<N>(item: int, p: Path<N>) {
    (forall y :: y in Before(p) ==> y < item) && (forall y :: y in After(p) ==> item < y)
  }

  /** The place where the search for item has got to. */
  ghost predicate Seeking<N>(item: int, p: Path<N>, s: Shape<N>) {
    Sorted(KeysAround(p, s)) && Around(item, p)
  }

  ghost function PathNodes<N>(p: Path<N>): set<N> {
    if p.Above? then {} else PathNodes(p.rest) + {p.node} + Nodes(p.side)
  }

  ghost function AllNodes<N>(p: Path<N>, s: Shape<N>): set<N> {
    PathNodes(p) + Nodes(s)
  }

  // ---------- Going down and up ----------

  function Child<N>(item: int, s: Shape<N>): Shape<N> {
    if s.Leaf? then Leaf else if item < s.key then s.left else s.right
  }

  function Sibling<N>(item: int, s: Shape<N>): Shape<N> {
    if s.Leaf? then Leaf else if item < s.key then s.right else s.left
  }

  function Descend<N>(item: int, p: Path<N>, s: Shape<N>): Path<N>
    requires s.Branch?
  {
    Down(p, s.node, s.key, s.color, item < s.key, Sibling(item, s))
  }

  lemma DescendAttach<N>(item: int, p: Path<N>, s: Shape<N>)
    requires s.Branch?
    ensures Attach(Descend(item, p, s), Child(item, s)) == s
    ensures KeysAround(Descend(item, p, s), Child(item, s)) == KeysAround(p, s)
  {}

  lemma AttachKeys<N>(p: Path<N>, s: Shape<N>)
    requires p.Down?
    ensures KeysAround(p.rest, Attach(p, s)) == KeysAround(p, s)
  {}

  lemma DescendPlaced<N>(item: int, p: Path<N>, s: Shape<N>)
    requires s.Branch? && Placed(p, s)
    ensures Placed(Descend(item, p, s), Child(item, s))
  {
    var k := if s.color.RED? then BlackHeight(s) else BlackHeight(s) - 1;
    FitsHeight(Child(item, s), k);
    FitsHeight(Sibling(item, s), k);
  }

  lemma AttachPlaced<N>(p: Path<N>, s: Shape<N>)
    requires Placed(p, s) && !AtHeader(p)
    ensures Placed(p.rest, Attach(p, s))
  {
    FitsHeight(p.side, BlackHeight(s));
    var u := Attach(p, s);
    var h := if p.color.RED? then BlackHeight(s) else BlackHeight(s) + 1;
    assert Fits(u, h);
    FitsHeight(u, h);
  }

  lemma DescendSeeking<N>(item: int, p: Path<N>, s: Shape<N>)
    requires s.Branch? && Seeking(item, p, s) && item != s.key
    ensures Seeking(item, Descend(item, p, s), Child(item, s))
  {
    DescendAttach(item, p, s);
    var a, b := Before(p) + InOrder(s.left), InOrder(s.right) + After(p);
    assert KeysAround(p, s) == a + [s.key] + b;
    SortedParts(a, s.key, b);
    assert forall y :: y in InOrder(s.left) ==> y in a;
    assert forall y :: y in InOrder(s.right) ==> y in b;
  }

  lemma OuterKeys<N>(p: Path<N>)
    requires p.Down?
    ensures forall y :: y in Before(p.rest) ==> y in Before(p)
    ensures forall y :: y in After(p.rest) ==> y in After(p)
  {}

  /** The frames of the path point the way the search went. */
  lemma FrameDirection<N>(item: int, p: Path<N>)
    requires Around(item, p) && p.Down?
    ensures item != p.key && (item < p.key <==> p.goLeft) && Around(item, p.rest)
  {
    OuterKeys(p);
    if p.goLeft {
      assert p.key in After(p);
    } else {
      assert p.key in Before(p);
    }
  }

  /** A place in order belongs to a whole in order. */
  lemma {:induction false} Rebuild<N>(p: Path<N>, s: Shape<N>) returns (w: Shape<N>)
    requires Placed(p, s)
    ensures w.Branch? && w.color.BLACK? && w.left.Leaf? && RedBlack(w.right)
    ensures w == Close(p, s) && InOrder(w) == KeysAround(p, s) && Nodes(w) == AllNodes(p, s)
  {
    w := Attach(p, s);
    AttachKeys(p, s);
    assert AllNodes(p.rest, w) == AllNodes(p, s);
    if AtHeader(p) {
      assert KeysAround(p.rest, w) == InOrder(w);
    } else {
      AttachPlaced(p, s);
      w := Rebuild(p.rest, w);
    }
  }

  function Close<N>(p: Path<N>, s: Shape<N>): Shape<N> {
    if p.Above? then s else Close(p.rest, Attach(p, s))
  }

  /** A new node in the place of a leaf adds its key, in order. */
  lemma KeyAdded<N>(item: int, p: Path<N>, n: N)
    requires Seeking(item, p, Leaf)
    ensures var s := Branch(Leaf, n, item, BLACK, Leaf);
            Seeking(item, p, s) && Elements(KeysAround(p, s)) == Elements(KeysAround(p, Leaf)) + {item}
  {
    var a, b := Before(p), After(p);
    assert KeysAround(p, Leaf) == a + b;
    SortedInsert(a, item, b);
    assert KeysAround(p, Branch(Leaf, n, item, BLACK, Leaf)) == a + [item] + b;
  }

  // ---------- Repairs ----------

  function Blacken<N>(s: Shape<N>): Shape<N> {
    if s.Leaf? then s else s.(color := BLACK)
  }

  /** The colour flip. */
  function Flip<N>(s: Shape<N>): Shape<N>
    requires s.Branch?
  {
    Branch(Blacken(s.left), s.node, s.key, RED, Blacken(s.right))
  }

  /** Rotates s with its left or its right child. */
  function Rotate<N>(goLeft: bool, s: Shape<N>): (u: Shape<N>)
    requires s.Branch? && (if goLeft then s.left.Branch? else s.right.Branch?)
    ensures u.Branch?
  {
    if goLeft then
      Branch(s.left.left, s.left.node, s.left.key, s.left.color, Branch(s.left.right, s.node, s.key, s.color, s.right))
    else
      Branch(Branch(s.left, s.node, s.key, s.color, s.right.left), s.right.node, s.right.key, s.right.color,
        s.right.right)
  }

  /** The subtree that takes the place of the grandparent when s, now red, sits below a red parent. */
  function Rotated<N>(p: Path<N>, s: Shape<N>): (u: Shape<N>)
    requires p.Down? && p.rest.Down? && s.Branch?
    ensures u.Branch? && u.color.BLACK?
  {
    var child := if p.goLeft != p.rest.goLeft then Rotate(p.goLeft, Attach(p, s)) else Attach(p, s);
    Blacken(Rotate(p.rest.goLeft, Attach(p.rest.(color := RED), child)))
  }

  datatype Focus<N> = Focus(path: Path<N>, tree: Shape<N>)

  /** The new current place, and the tree there, after a flip at s. */
  function Reorient<N>(p: Path<N>, s: Shape<N>): Focus<N>
    requires s.Branch? && p.Down? && (p.color.RED? ==> p.rest.Down?)
  {
    var f := Flip(s);
    if p.color.RED? then Focus(p.rest.rest, Rotated(p, f))
    else Focus(p, if AtHeader(p) then Blacken(f) else f)
  }

  /** A flip at s would keep all black heights, and the uncle would not be red if a rotation is needed. */
  predicate Flippable<N>(p: Path<N>, s: Shape<N>) {
    s.Branch? && Fits(Flip(s), BlackHeight(Flip(s))) && PathFits(p, BlackHeight(Flip(s))) &&
    (p.color.RED? ==> p.rest.Down? && !Red(p.rest.side))
  }

  lemma TwoRedFlips<N>(p: Path<N>, s: Shape<N>)
    requires Placed(p, s) && TwoRed(s)
    requires p.color.RED? ==> !Red(p.rest.side)
    ensures Flippable(p, s)
  {
    var h := BlackHeight(s);
    assert s.color.BLACK? && Fits(s.left, h - 1) && Fits(s.right, h - 1);
    assert Fits(Blacken(s.left), h) && Fits(Blacken(s.right), h);
    FitsHeight(Flip(s), h);
  }

  lemma RotatedFits<N>(p: Path<N>, f: Shape<N>, h: int)
    requires Fits(f, h) && Red(f) && PathFits(p, h) && p.color.RED? && p.rest.Down? && !Red(p.rest.side)
    ensures Fits(Rotated(p, f), h + 1) && p.rest.rest.Down? && PathFits(p.rest.rest, h + 1)
  {}

  /** The repair leaves no red node below a red one, a black root, and all black heights as they were. */
  lemma ReorientPlaced<N>(p: Path<N>, s: Shape<N>)
    requires Flippable(p, s)
    ensures var r := Reorient(p, s); Placed(r.path, r.tree)
  {
    var f := Flip(s);
    var h := BlackHeight(f);
    if p.color.RED? {
      RotatedFits(p, f, h);
      FitsHeight(Rotated(p, f), h + 1);
    } else if AtHeader(p) {
      assert Fits(Blacken(f), h + 1);
      FitsHeight(Blacken(f), h + 1);
    } else {
      assert PathFits(p.rest, h + 1);
    }
  }

  lemma RotateKeys<N>(goLeft: bool, s: Shape<N>)
    requires s.Branch? && (if goLeft then s.left.Branch? else s.right.Branch?)
    ensures InOrder(Rotate(goLeft, s)) == InOrder(s)
  {}

  lemma RotatedKeys<N>(p: Path<N>, s: Shape<N>)
    requires p.Down? && p.rest.Down? && s.Branch?
    ensures KeysAround(p.rest.rest, Rotated(p, s)) == KeysAround(p, s)
  {
    var a := Attach(p, s);
    AttachKeys(p, s);
    var child := if p.goLeft != p.rest.goLeft then Rotate(p.goLeft, a) else a;
    RotateKeys(p.goLeft, a);
    assert InOrder(child) == InOrder(a);
    AttachKeys(p.rest, a);
    assert InOrder(Attach(p.rest, child)) == InOrder(Attach(p.rest, a));
    RotateKeys(p.rest.goLeft, Attach(p.rest, child));
    assert InOrder(Rotated(p, s)) == InOrder(Attach(p.rest, a));
  }

  lemma ReorientSeeking<N>(item: int, p: Path<N>, s: Shape<N>)
    requires s.Branch? && p.Down? && (p.color.RED? ==> p.rest.Down?) && Seeking(item, p, s)
    ensures var r := Reorient(p, s); Seeking(item, r.path, r.tree) && KeysAround(r.path, r.tree) == KeysAround(p, s)
  {
    assert InOrder(Flip(s)) == InOrder(s);
    if p.color.RED? {
      RotatedKeys(p, Flip(s));
      OuterKeys(p);
      OuterKeys(p.rest);
    }
  }

  lemma RotatedNodes<N>(p: Path<N>, s: Shape<N>)
    requires p.Down? && p.rest.Down? && s.Branch?
    ensures AllNodes(p.rest.rest, Rotated(p, s)) == AllNodes(p, s)
  {
    var a := Attach(p, s);
    var child := if p.goLeft != p.rest.goLeft then Rotate(p.goLeft, a) else a;
    RotateNodes(p.goLeft, a);
    var g := Attach(p.rest.(color := RED), child);
    RotateNodes(p.rest.goLeft, g);
    assert Nodes(Rotated(p, s)) == Nodes(g) == Nodes(a) + {p.rest.node} + Nodes(p.rest.side);
    assert PathNodes(p) == PathNodes(p.rest.rest) + {p.rest.node} + Nodes(p.rest.side) + {p.node} + Nodes(p.side);
    assert Nodes(a) == Nodes(s) + {p.node} + Nodes(p.side);
  }

  lemma RotateNodes<N>(goLeft: bool, s: Shape<N>)
    requires s.Branch? && (if goLeft then s.left.Branch? else s.right.Branch?)
    ensures Nodes(Rotate(goLeft, s)) == Nodes(s)
  {}

  lemma ReorientNodes<N>(p: Path<N>, s: Shape<N>)
    requires s.Branch? && p.Down? && (p.color.RED? ==> p.rest.Down?)
    ensures var r := Reorient(p, s); AllNodes(r.path, r.tree) == AllNodes(p, s)
  {
    assert Nodes(Flip(s)) == Nodes(s);
    if p.color.RED? {
      RotatedNodes(p, Flip(s));
    }
  }

  // ---------- Why stale ancestors do no harm ----------

  /** The search can pass below s without a repair there. */
  predicate Cool<N>(s: Shape<N>) {
    s.Branch? && s.color.BLACK? && !TwoRed(s)
  }

  /** Whenever the next place may need a rotation, parent and grand, which will serve as grand and great there,
      are true ancestors, and the uncle is not red. */
  predicate Ready<N(==)>(item: int, p: Path<N>, s: Shape<N>, parent: N, grand: N) {
    s.Branch? ==>
      var c := Child(item, s);
      if s.color.RED? then
        Cool(c) || (p.Down? && p.rest.Down? && parent == p.node && grand == p.rest.node && !Red(p.side))
      else
        Red(c) ==> Cool(Child(item, c)) || ((p.Down? ==> parent == p.node) && !Red(Sibling(item, s)))
  }

  /** The place at the start, where the header is the current node, and all later ones. */
  predicate InOrderAt<N>(p: Path<N>, s: Shape<N>) {
    if p.Above? then s.Branch? && s.color.BLACK? && s.left.Leaf? && RedBlack(s.right) else Placed(p, s)
  }

  lemma DescendInOrder<N>(item: int, p: Path<N>, s: Shape<N>)
    requires InOrderAt(p, s) && s.Branch? && (p.Above? ==> item >= s.key)
    ensures Placed(Descend(item, p, s), Child(item, s))
  {
    if p.Down? {
      DescendPlaced(item, p, s);
    }
  }

  /** One step down without a repair. */
  lemma ReadyBelow<N>(item: int, p: Path<N>, s: Shape<N>, parent: N, grand: N)
    requires InOrderAt(p, s) && s.Branch? && (p.Above? ==> item >= s.key) && Ready(item, p, s, parent, grand)
    requires Child(item, s).Branch? && !TwoRed(Child(item, s))
    ensures Ready(item, Descend(item, p, s), Child(item, s), s.node, parent)
  {}

  /** If a repair is due one step down, and has to rotate, the ancestors it uses are the true ones. */
  lemma ReadyForRepair<N>(item: int, p: Path<N>, s: Shape<N>, parent: N, grand: N)
    requires InOrderAt(p, s) && s.Branch? && Ready(item, p, s, parent, grand)
    requires Child(item, s).Leaf? || TwoRed(Child(item, s))
    ensures s.color.RED? ==>
              p.Down? && p.rest.Down? && parent == p.node && grand == p.rest.node && !Red(p.side)
  {}

  /** After a repair nothing is wrong with the next two steps, whatever the ancestors now say. */
  lemma ReadyAfterRepair<N>(item: int, p: Path<N>, s: Shape<N>, parent: N, grand: N)
    requires Placed(p, s) && TwoRed(s) && Seeking(item, p, s)
    requires p.color.RED? ==> !Red(p.rest.side)
    ensures p.color.RED? ==> p.rest.Down?
    ensures var r := Reorient(p, s); Ready(item, r.path, r.tree, parent, grand)
  {
    FrameDirection(item, p);
    var f := Flip(s);
    var h := BlackHeight(s);
    assert s.color.BLACK? && Fits(s.left, h - 1) && Fits(s.right, h - 1);
    assert Cool(f.left) && Cool(f.right);
    if p.color.RED? {
      FrameDirection(item, p.rest);
    }
  }

  /** One step down: either nothing is to be repaired, or all is ready for the repair. */
  lemma StepDown<N>(item: int, p: Path<N>, s: Shape<N>, parent: N, grand: N)
    requires InOrderAt(p, s) && Seeking(item, p, s) && Ready(item, p, s, parent, grand)
    requires s.Branch? && item != s.key && (p.Above? ==> item >= s.key)
    ensures var p', c := Descend(item, p, s), Child(item, s);
            Placed(p', c) && Seeking(item, p', c) && KeysAround(p', c) == KeysAround(p, s) &&
            AllNodes(p', c) == AllNodes(p, s) &&
            (c.Leaf? || TwoRed(c) ==>
              (s.color.RED? ==> p.Down? && p.rest.Down? && parent == p.node && grand == p.rest.node && !Red(p.side))) &&
            (c.Branch? && !TwoRed(c) ==> Ready(item, p', c, s.node, parent))
  {
    DescendInOrder(item, p, s);
    DescendSeeking(item, p, s);
    DescendAttach(item, p, s);
    if Child(item, s).Leaf? || TwoRed(Child(item, s)) {
      ReadyForRepair(item, p, s, parent, grand);
    } else {
      ReadyBelow(item, p, s, parent, grand);
    }
  }

  // ---------- Termination ----------

  /** The number of nodes the search for item still has to pass. */
  function Depth<N>(item: int, s: Shape<N>): nat {
    if s.Leaf? || item == s.key then 0
    else if item < s.key then 1 + Depth(item, s.left) else 1 + Depth(item, s.right)
  }

  function Rank<N>(item: int, s: Shape<N>): nat {
    2 * Depth(item, s) + if Red(s) then 1 else 0
  }

  /** A rotation takes the search back up, but not to a red node. */
  lemma RankFalls<N>(item: int, p: Path<N>, s: Shape<N>)
    requires Placed(p, s) && TwoRed(s) && Seeking(item, p, s)
    requires p.color.RED? ==> p.rest.Down?
    ensures Rank(item, Reorient(p, s).tree) < Rank(item, Attach(p, s))
  {
    FrameDirection(item, p);
    assert Depth(item, Flip(s)) == Depth(item, s);
    if p.color.RED? {
      FrameDirection(item, p.rest);
      var r := Rotated(p, Flip(s));
      assert Depth(item, Attach(p, s)) == 1 + Depth(item, s);
      if p.goLeft == p.rest.goLeft {
        assert Child(item, r) == Flip(s);
      } else if item != s.key {
        var c := Child(item, r);
        assert Depth(item, c) == 1 + Depth(item, Child(item, c));
        assert Child(item, c) == Blacken(Child(item, s));
        assert Depth(item, Child(item, c)) == Depth(item, Child(item, s));
      }
    }
  }

  /** A repair at a node with two red children keeps all that the search relies on, and gets it closer to its end. */
  lemma Repaired<N>(item: int, p: Path<N>, s: Shape<N>)
    requires Placed(p, s) && TwoRed(s) && Seeking(item, p, s)
    requires p.color.RED? ==> p.rest.Down? && !Red(p.rest.side)
    ensures Flippable(p, s)
    ensures var r := Reorient(p, s);
            Placed(r.path, r.tree) && Seeking(item, r.path, r.tree) && KeysAround(r.path, r.tree) == KeysAround(p, s) &&
            AllNodes(r.path, r.tree) == AllNodes(p, s) && Rank(item, r.tree) < Rank(item, Attach(p, s))
  {
    TwoRedFlips(p, s);
    ReorientPlaced(p, s);
    ReorientSeeking(item, p, s);
    ReorientNodes(p, s);
    RankFalls(item, p, s);
  }

  // ---------- Size ----------

  function Size<N>(s: Shape<N>): nat {
    if s.Leaf? then 0 else Size(s.left) + 1 + Size(s.right)
  }

  function Height<N>(s: Shape<N>): nat {
    if s.Leaf? then 0 else 1 + if Height(s.left) > Height(s.right) then Height(s.left) else Height(s.right)
  }

  /** The height is at most twice the black height, and the black height logarithmic in the size. */
  lemma {:induction false} HeightBound<N>(s: Shape<N>, h: nat)
    requires Fits(s, h)
    ensures Size(s) + 1 >= Pow2(h)
    ensures Height(s) <= 2 * h + if Red(s) then 1 else 0
  {
    if s.Branch? {
      var k := if s.color.RED? then h else h - 1;
      FitsHeight(s.left, k);
      HeightBound(s.left, k);
      HeightBound(s.right, k);
    }
  }

  /** A new node in the place of a leaf, and the repair there, add the item and keep all in order. */
  lemma Grown<N>(item: int, p: Path<N>, n: N)
    requires Placed(p, Leaf) && Seeking(item, p, Leaf)
    requires p.color.RED? ==> p.rest.Down? && !Red(p.rest.side)
    ensures var s := Branch(Leaf, n, item, BLACK, Leaf);
            Flippable(p, s) && Seeking(item, p, s) &&
            var r := Reorient(p, s);
            Placed(r.path, r.tree) && Seeking(item, r.path, r.tree) && AllNodes(r.path, r.tree) == PathNodes(p) + {n} &&
            Elements(KeysAround(r.path, r.tree)) == Elements(KeysAround(p, Leaf)) + {item}
  {
    var s := Branch(Leaf, n, item, BLACK, Leaf);
    KeyAdded(item, p, n);
    ReorientPlaced(p, s);
    ReorientSeeking(item, p, s);
    ReorientNodes(p, s);
    assert Nodes(s) == {n};
  }
}
