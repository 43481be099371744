/** Treaps as values: which node sits where, with its key and priority, and what rotations and removal keep. */
module Treaps {
  import opened OrderedSets

  datatype Shape<N> = Leaf | Branch(left: Shape<N>, node: N, key: int, priority: int, right: Shape<N>)

  ghost function Nodes<N>(s: Shape<N>): set<N> {
    match s
    case Leaf => {}
    case Branch(l, n, _, _, r) => Nodes(l) + {n} + Nodes(r)
  }

  function Size<N>(s: Shape<N>): nat {
    match s
    case Leaf => 0
    case Branch(l, _, _, _, r) => Size(l) + 1 + Size(r)
  }

  function InOrder<N>(s: Shape<N>): seq<int> {
    match s
    case Leaf => []
    case Branch(l, _, key, _, r) => InOrder(l) + [key] + InOrder(r)
  }

  /** The keys are in order. */
  ghost predicate Search<N>(s: Shape<N>) {
    Sorted(InOrder(s))
  }

  ghost function Keys<N>(s: Shape<N>): set<int> {
    Elements(InOrder(s))
  }

  /** Priorities are at least b, below limit, and in heap order; the sentinel counts as limit. */
  predicate Heap<N>(s: Shape<N>, b: int, limit: int) {
    s.Leaf? || (b <= s.priority < limit && Heap(s.left, s.priority, limit) && Heap(s.right, s.priority, limit))
  }

  function Priority<N>(s: Shape<N>, limit: int): int {
    if s.Leaf? then limit else s.priority
  }

  /** A heap but for the node with key x, which may be too far down. */
  predicate HeapBut<N>(s: Shape<N>, x: int, b: int, limit: int) {
    s.Leaf? ||
    (s.priority < limit &&
     if s.key == x then HeapBut(s.left, x, b, limit) && HeapBut(s.right, x, b, limit)
     else b <= s.priority && HeapBut(s.left, x, s.priority, limit) && HeapBut(s.right, x, s.priority, limit))
  }

  lemma HeapRaise<N>(s: Shape<N>, b: int, c: int, limit: int)
    requires Heap(s, b, limit) && c <= Priority(s, limit)
    ensures Heap(s, c, limit)
  {}

  lemma {:induction false} HeapIsHeapBut<N>(s: Shape<N>, x: int, b: int, limit: int)
    requires Heap(s, b, limit)
    ensures HeapBut(s, x, b, limit)
  {
    if s.Branch? {
      var c := if s.key == x then b else s.priority;
      HeapIsHeapBut(s.left, x, c, limit);
      HeapIsHeapBut(s.right, x, c, limit);
    }
  }

  /** Off the path to x, a heap but for x is a heap. */
  lemma {:induction false} HeapWithout<N>(s: Shape<N>, x: int, b: int, limit: int)
    requires HeapBut(s, x, b, limit) && x !in InOrder(s)
    ensures Heap(s, b, limit)
  {
    if s.Branch? {
      assert s.key in InOrder(s);
      assert forall y :: y in InOrder(s.left) || y in InOrder(s.right) ==> y in InOrder(s);
      HeapWithout(s.left, x, s.priority, limit);
      HeapWithout(s.right, x, s.priority, limit);
    }
  }

  function RotateLeft<N>(s: Shape<N>): Shape<N>
    requires s.Branch? && s.left.Branch?
  {
    Branch(s.left.left, s.left.node, s.left.key, s.left.priority,
      Branch(s.left.right, s.node, s.key, s.priority, s.right))
  }

  function RotateRight<N>(s: Shape<N>): Shape<N>
    requires s.Branch? && s.right.Branch?
  {
    Branch(Branch(s.left, s.node, s.key, s.priority, s.right.left), s.right.node, s.right.key, s.right.priority,
      s.right.right)
  }

  lemma Regroup(a: seq<int>, x: int, b: seq<int>, y: int, c: seq<int>)
    ensures a + [x] + (b + [y] + c) == (a + [x] + b) + [y] + c
  {}

  lemma RotateLeftKeeps<N>(s: Shape<N>)
    requires s.Branch? && s.left.Branch?
    ensures InOrder(RotateLeft(s)) == InOrder(s) && Size(RotateLeft(s)) == Size(s)
  {}

  lemma RotateRightKeeps<N>(s: Shape<N>)
    requires s.Branch? && s.right.Branch?
    ensures InOrder(RotateRight(s)) == InOrder(s) && Size(RotateRight(s)) == Size(s)
  {}

  lemma RotateNodes<N>(s: Shape<N>)
    ensures s.Branch? && s.left.Branch? ==> Nodes(RotateLeft(s)) == Nodes(s)
    ensures s.Branch? && s.right.Branch? ==> Nodes(RotateRight(s)) == Nodes(s)
  {}

  // ---------- Keys and their priorities ----------

  /** Every key with its priority. */
  ghost function Entries<N>(s: Shape<N>): set<(int, int)> {
    match s
    case Leaf => {}
    case Branch(l, _, key, priority, r) => Entries(l) + {(key, priority)} + Entries(r)
  }

  lemma RotateEntries<N>(s: Shape<N>)
    ensures s.Branch? && s.left.Branch? ==> Entries(RotateLeft(s)) == Entries(s)
    ensures s.Branch? && s.right.Branch? ==> Entries(RotateRight(s)) == Entries(s)
  {}

  lemma {:induction false} EntriesAreKeys<N>(s: Shape<N>)
    ensures forall e :: e in Entries(s) ==> e.0 in Keys(s)
  {
    if s.Branch? {
      EntriesAreKeys(s.left);
      EntriesAreKeys(s.right);
      ElementsOf(InOrder(s.left), s.key, InOrder(s.right));
    }
  }

  /** In heap order the root has a least priority, and none reaches the sentinel's. */
  lemma {:induction false} RootIsFirst<N>(s: Shape<N>, b: int, limit: int)
    requires Heap(s, b, limit)
    ensures forall e :: e in Entries(s) ==> b <= Priority(s, limit) <= e.1 < limit
  {
    if s.Branch? {
      RootIsFirst(s.left, s.priority, limit);
      RootIsFirst(s.right, s.priority, limit);
    }
  }

  /** Inserting x keeps every entry, and gives x, if it is new, the next priority. */
  ghost predicate Entered<N>(x: int, s: Shape<N>, u: Shape<N>, priority: int) {
    Entries(u) == Entries(s) + if x in Keys(s) then {} else {(x, priority)}
  }

  /** Removing x keeps every other entry. */
  ghost predicate Spared<N>(x: int, s: Shape<N>, u: Shape<N>) {
    forall e :: e in Entries(u) <==> e in Entries(s) && e.0 != x
  }

  lemma EnteredLeft<N>(x: int, s: Shape<N>, l: Shape<N>, priority: int)
    requires s.Branch? && x < s.key && Search(s) && Entered(x, s.left, l, priority)
    ensures Entered(x, s, s.(left := l), priority) && (x in Keys(s) <==> x in Keys(s.left))
  {
    Parts(s);
  }

  lemma EnteredRight<N>(x: int, s: Shape<N>, r: Shape<N>, priority: int)
    requires s.Branch? && x > s.key && Search(s) && Entered(x, s.right, r, priority)
    ensures Entered(x, s, s.(right := r), priority) && (x in Keys(s) <==> x in Keys(s.right))
  {
    Parts(s);
  }

  lemma SparedLeft<N>(x: int, s: Shape<N>, l: Shape<N>)
    requires s.Branch? && x < s.key && Search(s) && Spared(x, s.left, l)
    ensures Spared(x, s, s.(left := l))
  {
    Parts(s);
    EntriesAreKeys(s.right);
  }

  lemma SparedRight<N>(x: int, s: Shape<N>, r: Shape<N>)
    requires s.Branch? && x > s.key && Search(s) && Spared(x, s.right, r)
    ensures Spared(x, s, s.(right := r))
  {
    Parts(s);
    EntriesAreKeys(s.left);
  }

  // ---------- Keys below a node ----------

  lemma Parts<N>(s: Shape<N>)
    requires s.Branch? && Search(s)
    ensures Search(s.left) && Search(s.right) && Keys(s) == Keys(s.left) + {s.key} + Keys(s.right)
    ensures (forall y :: y in Keys(s.left) ==> y < s.key) && (forall y :: y in Keys(s.right) ==> s.key < y)
  {
    SortedParts(InOrder(s.left), s.key, InOrder(s.right));
    ElementsOf(InOrder(s.left), s.key, InOrder(s.right));
  }

  lemma Whole<N>(s: Shape<N>)
    requires s.Branch? && Search(s.left) && Search(s.right)
    requires (forall y :: y in Keys(s.left) ==> y < s.key) && (forall y :: y in Keys(s.right) ==> s.key < y)
    ensures Search(s) && Keys(s) == Keys(s.left) + {s.key} + Keys(s.right)
  {
    assert forall y :: y in InOrder(s.left) ==> y in Keys(s.left);
    assert forall y :: y in InOrder(s.right) ==> y in Keys(s.right);
    SortedWhole(InOrder(s.left), s.key, InOrder(s.right));
    ElementsOf(InOrder(s.left), s.key, InOrder(s.right));
  }

  // ---------- Insertion ----------

  /** u is the outcome of inserting x into s: only at its root can it have a priority below that of s. */
  ghost predicate Inserted<N>(x: int, s: Shape<N>, u: Shape<N>, limit: int) {
    u.Branch? && Search(u) && Keys(u) == Keys(s) + {x} && Heap(u, u.priority, limit) &&
    u.priority <= Priority(s, limit) <= Priority(u.left, limit) && Priority(s, limit) <= Priority(u.right, limit)
  }

  lemma InsertedHere<N>(x: int, n: N, priority: int, limit: int)
    requires priority < limit
    ensures Inserted(x, Leaf, Branch(Leaf, n, x, priority, Leaf), limit)
  {}

  lemma AlreadyThere<N>(s: Shape<N>, limit: int)
    requires s.Branch? && Search(s) && Heap(s, s.priority, limit)
    ensures Inserted(s.key, s, s, limit)
  {}

  lemma InsertedLeft<N>(x: int, s: Shape<N>, l: Shape<N>, limit: int, u: Shape<N>)
    requires s.Branch? && x < s.key && Search(s) && Heap(s, s.priority, limit) && Inserted(x, s.left, l, limit)
    requires u == var t := s.(left := l); if l.priority < s.priority then RotateLeft(t) else t
    ensures Inserted(x, s, u, limit)
  {
    LeftReplaced(x, s, l);
    if l.priority < s.priority {
      RotateLeftKeeps(s.(left := l));
      HeapRaise(l.right, l.priority, s.priority, limit);
      assert u.left == l.left && u.right == s.(left := l.right) && Heap(u.right, s.priority, limit);
    } else {
      HeapRaise(l, l.priority, s.priority, limit);
    }
  }

  /** The keys with l in the place of the left subtree. */
  lemma LeftReplaced<N>(x: int, s: Shape<N>, l: Shape<N>)
    requires s.Branch? && x < s.key && Search(s) && Search(l) && Keys(l) == Keys(s.left) + {x}
    ensures Search(s.(left := l)) && Keys(s.(left := l)) == Keys(s) + {x}
  {
    Parts(s);
    Whole(s.(left := l));
  }

  lemma InsertedRight<N>(x: int, s: Shape<N>, r: Shape<N>, limit: int, u: Shape<N>)
    requires s.Branch? && x > s.key && Search(s) && Heap(s, s.priority, limit) && Inserted(x, s.right, r, limit)
    requires u == var t := s.(right := r); if r.priority < s.priority then RotateRight(t) else t
    ensures Inserted(x, s, u, limit)
  {
    RightReplaced(x, s, r);
    if r.priority < s.priority {
      RotateRightKeeps(s.(right := r));
      HeapRaise(r.left, r.priority, s.priority, limit);
      assert u.right == r.right && u.left == s.(right := r.left) && Heap(u.left, s.priority, limit);
    } else {
      HeapRaise(r, r.priority, s.priority, limit);
    }
  }

  lemma RightReplaced<N>(x: int, s: Shape<N>, r: Shape<N>)
    requires s.Branch? && x > s.key && Search(s) && Search(r) && Keys(r) == Keys(s.right) + {x}
    ensures Search(s.(right := r)) && Keys(s.(right := r)) == Keys(s) + {x}
  {
    Parts(s);
    Whole(s.(right := r));
  }

  // ---------- Removal ----------

  /** u is the outcome of removing x from s, which was a heap but for x. */
  ghost predicate Removed<N>(x: int, s: Shape<N>, u: Shape<N>, b: int, limit: int) {
    Search(u) && Keys(u) == Keys(s) - {x} && Heap(u, b, limit)
  }

  lemma LeftShrunk<N>(x: int, s: Shape<N>, l: Shape<N>)
    requires s.Branch? && x < s.key && Search(s) && Search(l) && Keys(l) == Keys(s.left) - {x}
    ensures Search(s.(left := l)) && Keys(s.(left := l)) == Keys(s) - {x}
  {
    Parts(s);
    Whole(s.(left := l));
  }

  lemma RemovedLeft<N>(x: int, s: Shape<N>, l: Shape<N>, b: int, limit: int)
    requires s.Branch? && x < s.key && Search(s) && HeapBut(s, x, b, limit) && Removed(x, s.left, l, s.priority, limit)
    ensures Removed(x, s, s.(left := l), b, limit)
  {
    LeftShrunk(x, s, l);
    HeapWithout(s.right, x, s.priority, limit);
  }

  lemma RightShrunk<N>(x: int, s: Shape<N>, r: Shape<N>)
    requires s.Branch? && x > s.key && Search(s) && Search(r) && Keys(r) == Keys(s.right) - {x}
    ensures Search(s.(right := r)) && Keys(s.(right := r)) == Keys(s) - {x}
  {
    Parts(s);
    Whole(s.(right := r));
  }

  lemma RemovedRight<N>(x: int, s: Shape<N>, r: Shape<N>, b: int, limit: int)
    requires s.Branch? && x > s.key && Search(s) && HeapBut(s, x, b, limit) && Removed(x, s.right, r, s.priority, limit)
    ensures Removed(x, s, s.(right := r), b, limit)
  {
    RightShrunk(x, s, r);
    HeapWithout(s.left, x, s.priority, limit);
  }

  /** The sentinel's priority is above all others, so that the child rotated up is a real one unless both are
      missing. */
  lemma RealChild<N>(s: Shape<N>, x: int, b: int, limit: int)
    requires s.Branch? && s.key == x && HeapBut(s, x, b, limit)
    ensures Priority(s.left, limit) < Priority(s.right, limit) ==> s.left.Branch?
    ensures Priority(s.left, limit) >= Priority(s.right, limit) ==> s.right.Branch? || s.left.Leaf?
  {}

  lemma {:induction false} HeapButRaise<N>(s: Shape<N>, x: int, b: int, c: int, limit: int)
    requires HeapBut(s, x, b, limit) && x !in InOrder(s) && c <= Priority(s, limit)
    ensures HeapBut(s, x, c, limit)
  {}

  /** Rotating the smaller child up keeps a heap but for x, which has moved down. */
  lemma SinkLeft<N>(x: int, s: Shape<N>, b: int, limit: int)
    requires s.Branch? && s.key == x && Search(s) && HeapBut(s, x, b, limit) && s.left.Branch?
    requires Priority(s.left, limit) < Priority(s.right, limit)
    ensures HeapBut(RotateLeft(s), x, b, limit) && Search(RotateLeft(s)) && Keys(RotateLeft(s)) == Keys(s)
    ensures RotateLeft(s).key != x
  {
    Parts(s);
    RotateLeftKeeps(s);
    assert s.left.key in InOrder(s.left) && s.left.key in Keys(s.left);
    HeapButRaise(s.right, x, b, s.left.priority, limit);
  }

  lemma SinkRight<N>(x: int, s: Shape<N>, b: int, limit: int)
    requires s.Branch? && s.key == x && Search(s) && HeapBut(s, x, b, limit) && s.right.Branch?
    requires Priority(s.left, limit) >= Priority(s.right, limit)
    ensures HeapBut(RotateRight(s), x, b, limit) && Search(RotateRight(s)) && Keys(RotateRight(s)) == Keys(s)
    ensures RotateRight(s).key != x
  {
    Parts(s);
    RotateRightKeeps(s);
    assert s.right.key in InOrder(s.right) && s.right.key in Keys(s.right);
    HeapButRaise(s.left, x, b, s.right.priority, limit);
  }
}
