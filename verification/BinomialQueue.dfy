/** The binomial queue over an array of linked trees. */
module BinomialQueue {
  import opened Basics
  import opened BinomialQueues
  import opened Forests

  const MAX_TREES := 14

  class BinomialNode {
    var element: int
    var leftChild: BinomialNode?
    var nextSibling: BinomialNode?

    constructor (theElement: int)
      ensures element == theElement && leftChild == null && nextSibling == null
    {
      element := theElement;
      leftChild := null;
      nextSibling := null;
    }
  }

  type Trees = Forest<BinomialNode>

  lemma NodesAllocated(f: Trees)
    ensures forall o :: o in Nodes(f) ==> allocated(o)
  {
    if f.Cons? {
      NodesAllocated(f.child);
      NodesAllocated(f.next);
    }
  }

  /** The links from n on draw f. */
  ghost predicate Rep(f: Trees, n: BinomialNode?)
    reads Nodes(f)
  {
    match f
    case Nil => n == null
    case Cons(node, key, child, next) =>
      n == node && node.element == key &&
      node !in Nodes(child) && node !in Nodes(next) && Nodes(child) !! Nodes(next) &&
      Rep(child, node.leftChild) && Rep(next, node.nextSibling)
  }

  /** The entries of a are the trees ts, no two of which share a node. */
  ghost predicate Held(a: seq<BinomialNode?>, ts: seq<Trees>, ns: set<BinomialNode>)
    reads ns
  {
    |ts| == |a| && Apart(ts) && Within(ts, ns) && forall k :: 0 <= k < |ts| ==> Rep(ts[k], a[k])
  }

  /** In mid-merge: the entries of both arrays and the carry. */
  ghost predicate AllHeld(a: seq<BinomialNode?>, b: seq<BinomialNode?>, carry: BinomialNode?, ts: seq<Trees>,
                          ns: set<BinomialNode>)
    reads ns
  {
    |ts| == |a| + |b| + 1 && Within(ts, ns) &&
    (forall k :: 0 <= k < |a| ==> Rep(ts[k], a[k])) &&
    (forall k :: |a| <= k < |a| + |b| ==> Rep(ts[k], b[k - |a|])) &&
    Rep(ts[|a| + |b|], carry)
  }

  /** The entries outside skip, over the nodes of rest. */
  ghost predicate HeldBut(a: seq<BinomialNode?>, ts: seq<Trees>, skip: set<int>, rest: set<BinomialNode>)
    reads rest
  {
    |ts| == |a| && forall k :: 0 <= k < |ts| && k !in skip ==> Nodes(ts[k]) <= rest && Rep(ts[k], a[k])
  }

  /** What a column leaves alone. */
  lemma ColumnOthers(ts: seq<Trees>, m: nat, i: nat, ns: set<BinomialNode>, a: seq<BinomialNode?>,
                     b: seq<BinomialNode?>,
                     carry: BinomialNode?)
    requires |a| == |b| == m && i < m && AllHeld(a, b, carry, ts, ns) && Apart(ts)
    ensures Rep(ts[i], a[i]) && Rep(ts[m + i], b[i]) && Rep(ts[2 * m], carry)
    ensures HeldBut(a + b + [carry], ts, {i, m + i, 2 * m}, ns - Nodes(ts[i]) - Nodes(ts[m + i]) - Nodes(ts[2 * m]))
  {
    assert Rep(ts[m + i], b[m + i - m]);
  }

  lemma ColumnHeld(ts: seq<Trees>, m: nat, i: nat, ns: set<BinomialNode>, a: seq<BinomialNode?>, b: seq<BinomialNode?>,
                   carry: BinomialNode?, rest: set<BinomialNode>, a': seq<BinomialNode?>, b': seq<BinomialNode?>,
                   newCarry: BinomialNode?)
    requires |ts| == 2 * m + 1 && i < m && |a| == |b| == |a'| == |b'| == m && a' == a[i := a'[i]] && b' == b[i := null]
    requires Within(Column(ts, m, i), ns) && HeldBut(a + b + [carry], ts, {i, m + i, 2 * m}, rest)
    requires var s := Add(ts[i], ts[m + i], ts[2 * m]); Rep(s.slot, a'[i]) && Rep(s.carry, newCarry)
    ensures AllHeld(a', b', newCarry, Column(ts, m, i), ns)
  {
    forall k | m <= k < 2 * m ensures Rep(Column(ts, m, i)[k], b'[k - m]) {
      assert k != m + i ==> (a + b + [carry])[k] == b[k - m];
    }
    forall k | 0 <= k < m ensures Rep(Column(ts, m, i)[k], a'[k]) {
      assert k != i ==> (a + b + [carry])[k] == a[k];
    }
  }

  method CombineTwo(t1: BinomialNode, t2: BinomialNode, ghost f: Trees, ghost g: Trees) returns (r: BinomialNode)
    requires Rep(f, t1) && Rep(g, t2) && Tree(f) && Tree(g) && Nodes(f) !! Nodes(g)
    modifies t1, t2
    ensures Rep(CombineTrees(f, g), r)
    decreases t1.element > t2.element
  {
    if t1.element > t2.element {
      r := CombineTwo(t2, t1, g, f);
    } else {
      assert Rep(f.child, t1.leftChild) && Rep(g.child, t2.leftChild);
      t2.nextSibling := t1.leftChild;
      t1.leftChild := t2;
      assert Rep(f.child, t2.nextSibling) && Rep(g.child, t2.leftChild);
      r := t1;
    }
  }

  /** Another tree stays as it is. */
  method CombineBeside(t1: BinomialNode, t2: BinomialNode, ghost f: Trees, ghost g: Trees,
                       ghost n: BinomialNode?, ghost h: Trees) returns (r: BinomialNode)
    requires Rep(f, t1) && Rep(g, t2) && Tree(f) && Tree(g) && Nodes(f) !! Nodes(g)
    requires Rep(h, n) && Nodes(h) !! Nodes(f) && Nodes(h) !! Nodes(g)
    modifies t1, t2
    ensures Rep(CombineTrees(f, g), r) && Rep(h, n)
  {
    NodesAllocated(h);
    r := CombineTwo(t1, t2, f, g);
  }

  class BinomialQueue {
    var currentSize: int
    const theTrees: array<BinomialNode?>
    ghost var slots: seq<Trees>
    ghost var nodes: set<BinomialNode>
    ghost var Repr: set<object>

    constructor ()
      ensures Valid() && fresh(Repr) && Contents() == multiset{} && Capacity() == 16383
      ensures forall k :: 0 <= k < theTrees.Length ==> theTrees[k] == null
    {
      currentSize := 0;
      theTrees := new BinomialNode?[MAX_TREES](i => null);
      slots := Zeros(MAX_TREES);
      nodes := {};
      Repr := {this, theTrees};
      new;
      ZerosEmpty(slots);
    }

    /** Place k holds a heap-ordered binomial tree of order k or none; the taken places spell the size. */
    ghost predicate Valid()
      reads this, Repr
    {
      this in Repr && theTrees in Repr && nodes <= Repr && theTrees.Length == MAX_TREES && Filled(theTrees.Length)
    }

    /** What Valid says, for an array of any length. */
    ghost predicate Filled(m: nat)
      reads `slots, `nodes, `currentSize, theTrees, nodes
    {
      theTrees.Length == |slots| == m && Held(theTrees[..], slots, nodes) && Slots(slots) && currentSize == Value(slots)
    }

    ghost function Contents(): multiset<int>
      reads `slots
    {
      AllKeys(slots)
    }

    /** Which of the three trees meet in a column: 1 for this queue's, 2 for the other's, 4 for the carry. */
    static function WhichCase(t1: BinomialNode?, t2: BinomialNode?, carry: BinomialNode?): int {
      (if t1 == null then 0 else 1) + (if t2 == null then 0 else 2) + (if carry == null then 0 else 4)
    }

    /** The body of the loop of a merge: adds up column i. */
    method AddColumn(rhs: BinomialQueue, i: nat, carry: BinomialNode?, ghost t: Trees, ghost u: Trees, ghost c: Trees)
      returns (newCarry: BinomialNode?)
      requires i < theTrees.Length == rhs.theTrees.Length && theTrees != rhs.theTrees
      requires Rep(t, theTrees[i]) && Rep(u, rhs.theTrees[i]) && Rep(c, carry)
      requires Slot(t, i) && Slot(u, i) && Slot(c, i)
      requires Nodes(t) !! Nodes(u) && Nodes(t) !! Nodes(c) && Nodes(u) !! Nodes(c)
      modifies theTrees, rhs.theTrees, Nodes(t), Nodes(u), Nodes(c)
      ensures Rep(Add(t, u, c).slot, theTrees[i]) && Rep(Add(t, u, c).carry, newCarry) && rhs.theTrees[i] == null
      ensures forall k :: 0 <= k < theTrees.Length && k != i ==>
                theTrees[k] == old(theTrees[k]) && rhs.theTrees[k] == old(rhs.theTrees[k])
    {
      var whichCase := WhichCase(theTrees[i], rhs.theTrees[i], carry);
      newCarry := carry;
      match whichCase {
        case 2 =>
          theTrees[i] := rhs.theTrees[i];
          rhs.theTrees[i] := null;
        case 4 =>
          theTrees[i] := carry;
          newCarry := null;
        case 0 =>
        case 1 =>
        case _ =>
          newCarry := CombineColumn(whichCase, rhs, i, carry, t, u, c);
      }
    }

    /** The cases in which two trees, or all three, meet. */
    method CombineColumn(whichCase: int, rhs: BinomialQueue, i: nat, carry: BinomialNode?,
                         ghost t: Trees, ghost u: Trees, ghost c: Trees) returns (newCarry: BinomialNode?)
      requires i < theTrees.Length == rhs.theTrees.Length && theTrees != rhs.theTrees
      requires Rep(t, theTrees[i]) && Rep(u, rhs.theTrees[i]) && Rep(c, carry)
      requires Slot(t, i) && Slot(u, i) && Slot(c, i)
      requires Nodes(t) !! Nodes(u) && Nodes(t) !! Nodes(c) && Nodes(u) !! Nodes(c)
      requires whichCase == Bit(t) + 2 * Bit(u) + 4 * Bit(c) && whichCase in {3, 5, 6, 7}
      modifies theTrees, rhs.theTrees, Nodes(t), Nodes(u), Nodes(c)
      ensures Rep(Add(t, u, c).slot, theTrees[i]) && Rep(Add(t, u, c).carry, newCarry) && rhs.theTrees[i] == null
      ensures forall k :: 0 <= k < theTrees.Length && k != i ==>
                theTrees[k] == old(theTrees[k]) && rhs.theTrees[k] == old(rhs.theTrees[k])
    {
      var t1 := theTrees[i];
      var t2 := rhs.theTrees[i];
      match whichCase {
        case 3 =>
          newCarry := CombineBeside(t1, t2, t, u, null, Nil);
          theTrees[i] := null;
          rhs.theTrees[i] := null;
        case 5 =>
          newCarry := CombineBeside(t1, carry, t, c, null, Nil);
          theTrees[i] := null;
        case 6 =>
          newCarry := CombineBeside(t2, carry, u, c, null, Nil);
          rhs.theTrees[i] := null;
        case _ =>
          newCarry := CombineBeside(t1, t2, t, u, carry, c);
          theTrees[i] := carry;
          rhs.theTrees[i] := null;
      }
    }

    /** One column, seen as a step of the whole merge. */
    method MergeAt(rhs: BinomialQueue, i: nat, carry: BinomialNode?, ghost ts: seq<Trees>, ghost m: nat,
                   ghost total: nat, ghost keys: multiset<int>, ghost ns: set<BinomialNode>)
      returns (newCarry: BinomialNode?)
      requires i < theTrees.Length == rhs.theTrees.Length == m && theTrees != rhs.theTrees
      requires UpTo(ts, m, i, total, keys, ns) && AllHeld(theTrees[..], rhs.theTrees[..], carry, ts, ns)
      modifies theTrees, rhs.theTrees, ns
      ensures AllHeld(theTrees[..], rhs.theTrees[..], newCarry, Column(ts, m, i), ns)
    {
      ColumnApart(ts, m, i, total, ns);
      ghost var a, b := theTrees[..], rhs.theTrees[..];
      ColumnOthers(ts, m, i, ns, a, b, carry);
      ghost var rest := ns - Nodes(ts[i]) - Nodes(ts[m + i]) - Nodes(ts[2 * m]);
      newCarry := AddColumn(rhs, i, carry, ts[i], ts[m + i], ts[2 * m]);
      ColumnHeld(ts, m, i, ns, a, b, carry, rest, theTrees[..], rhs.theTrees[..], newCarry);
    }

    method NextAt(rhs: BinomialQueue, i: nat, carry: BinomialNode?, ghost ts: seq<Trees>, ghost m: nat,
                  ghost total: nat, ghost keys: multiset<int>, ghost ns: set<BinomialNode>)
      returns (newCarry: BinomialNode?, ghost us: seq<Trees>)
      requires i < theTrees.Length == rhs.theTrees.Length == m && theTrees != rhs.theTrees
      requires UpTo(ts, m, i, total, keys, ns) && AllHeld(theTrees[..], rhs.theTrees[..], carry, ts, ns)
      modifies theTrees, rhs.theTrees, ns
      ensures UpTo(us, m, i + 1, total, keys, ns) && AllHeld(theTrees[..], rhs.theTrees[..], newCarry, us, ns)
    {
      NextColumn(ts, m, i, total, keys, ns);
      newCarry := MergeAt(rhs, i, carry, ts, m, total, keys, ns);
      us := Column(ts, m, i);
    }

    /** The state of a merge before column i, whose weight is j. */
    ghost predicate AtColumn(rhs: BinomialQueue, m: nat, ts: seq<Trees>, carry: BinomialNode?, i: nat, j: int,
                             total: nat, keys: multiset<int>, ns: set<BinomialNode>)
      reads theTrees, rhs.theTrees, ns
    {
      theTrees.Length == rhs.theTrees.Length == m && theTrees != rhs.theTrees && i <= m && j == Pow2(i) &&
      UpTo(ts, m, i, total, keys, ns) && AllHeld(theTrees[..], rhs.theTrees[..], carry, ts, ns)
    }

    /** The body of the loop of a merge. */
    method OneColumn(rhs: BinomialQueue, i: nat, j: int, carry: BinomialNode?, ghost ts: seq<Trees>, ghost m: nat,
                     ghost total: nat, ghost keys: multiset<int>, ghost ns: set<BinomialNode>)
      returns (newCarry: BinomialNode?, ghost us: seq<Trees>)
      requires AtColumn(rhs, m, ts, carry, i, j, total, keys, ns) && j <= total < Pow2(m)
      modifies theTrees, rhs.theTrees, ns
      ensures i < m && AtColumn(rhs, m, us, newCarry, i + 1, j * 2, total, keys, ns)
    {
      newCarry, us := NextAt(rhs, i, carry, ts, m, total, keys, ns);
    }

    /** The loop of a merge. */
    method AddAll(rhs: BinomialQueue, ghost m: nat, ghost ts0: seq<Trees>, ghost first: nat, ghost keys: multiset<int>,
                  ghost ns: set<BinomialNode>)
      returns (carry: BinomialNode?, ghost ts: seq<Trees>, ghost last: nat)
      requires first == 0 <= currentSize && AtColumn(rhs, m, ts0, null, first, 1, currentSize, keys, ns) &&
               currentSize < Pow2(m)
      modifies theTrees, rhs.theTrees, ns
      ensures AtColumn(rhs, m, ts, carry, last, Pow2(last), currentSize, keys, ns) && currentSize < Pow2(last)
    {
      ts := ts0;
      carry := null;
      var i, j := 0, 1;
      while j <= currentSize
        invariant AtColumn(rhs, m, ts, carry, i, j, currentSize, keys, ns)
        decreases m - i
      {
        carry, ts := OneColumn(rhs, i, j, carry, ts, m, currentSize, keys, ns);
        i, j := i + 1, j * 2;
      }
      last := i;
    }

    function Capacity(): int {
      Pow2(theTrees.Length) - 1
    }

    ghost method TakeOver(ts: seq<Trees>, ns: set<BinomialNode>, m: nat)
      requires theTrees.Length == m <= |ts| && Apart(ts) && Within(ts, ns) &&
               (forall k :: 0 <= k < m ==> Rep(ts[k], theTrees[k]))
      requires Slots(ts[..m]) && currentSize == Value(ts[..m])
      modifies `slots, `nodes
      ensures Filled(m) && slots == ts[..m] && nodes == ns
    {
      slots, nodes := ts[..m], ns;
    }

    lemma HeldTogether(rhs: BinomialQueue, m: nat, ts: seq<Trees>)
      requires theTrees.Length == |slots| == m && Held(theTrees[..], slots, nodes)
      requires rhs.theTrees.Length == |rhs.slots| == m && Held(rhs.theTrees[..], rhs.slots, rhs.nodes)
      requires nodes !! rhs.nodes && ts == slots + rhs.slots + [Nil]
      ensures AllHeld(theTrees[..], rhs.theTrees[..], null, ts, nodes + rhs.nodes) && Apart(ts)
    {}

    /** The columns of a merge, and what they leave. */
    method MergeTrees(rhs: BinomialQueue, ghost m: nat, ghost ts0: seq<Trees>, ghost first: nat)
      requires this != rhs && theTrees != rhs.theTrees && ts0 == slots + rhs.slots + [Nil] && first == 0
      requires theTrees.Length == |slots| == m && Held(theTrees[..], slots, nodes) && Slots(slots)
      requires rhs.theTrees.Length == |rhs.slots| == m && Held(rhs.theTrees[..], rhs.slots, rhs.nodes) &&
               Slots(rhs.slots)
      requires nodes !! rhs.nodes && currentSize == Value(slots) + Value(rhs.slots) < Pow2(m)
      modifies `slots, `nodes, theTrees, rhs.theTrees, nodes, rhs.nodes
      ensures Filled(m) && nodes == old(nodes) + rhs.nodes && AllKeys(slots) == old(AllKeys(slots)) + AllKeys(rhs.slots)
    {
      ghost var ns := nodes + rhs.nodes;
      ghost var keys := AllKeys(slots) + AllKeys(rhs.slots);
      HeldTogether(rhs, m, ts0);
      FirstColumn(slots, rhs.slots, first, ns);
      var carry; ghost var ts, last;
      carry, ts, last := AddAll(rhs, m, ts0, first, keys, ns);
      MergeEnd(ts, m, last, currentSize);
      TakeOver(ts, ns, m);
    }

    /** Makes all places empty. */
    method Clear(ghost m: nat)
      requires theTrees.Length == m
      modifies theTrees, `slots, `nodes, `currentSize
      ensures Filled(m) && Contents() == multiset{} && nodes == {}
    {
      for k := 0 to theTrees.Length
        invariant forall i :: 0 <= i < k ==> theTrees[i] == null
      {
        theTrees[k] := null;
      }
      currentSize := 0;
      slots, nodes := Zeros(m), {};
      ZerosEmpty(slots);
    }

    ghost method Own(objects: set<object>)
      requires this in objects && theTrees in objects && nodes <= objects && theTrees.Length == MAX_TREES
      requires Filled(theTrees.Length)
      modifies `Repr
      ensures Valid() && Repr == objects
    {
      Repr := objects;
    }

    /** A merge without overflow. */
    method TakeAll(rhs: BinomialQueue, ghost m: nat)
      requires this != rhs && theTrees != rhs.theTrees && Filled(m) && rhs.Filled(m) && nodes !! rhs.nodes
      requires currentSize + rhs.currentSize < Pow2(m)
      modifies theTrees, rhs.theTrees, nodes, rhs.nodes
      modifies `currentSize, `slots, `nodes, rhs`currentSize, rhs`slots, rhs`nodes
      ensures Filled(m) && rhs.Filled(m) && nodes == old(nodes) + old(rhs.nodes) && rhs.nodes == {}
      ensures Contents() == old(Contents()) + old(rhs.Contents()) && rhs.Contents() == multiset{}
    {
      currentSize := currentSize + rhs.currentSize;
      MergeTrees(rhs, m, slots + rhs.slots + [Nil], 0);
      rhs.Clear(m);
    }

    method Absorb(rhs: BinomialQueue)
      requires Valid() && rhs.Valid() && Repr !! rhs.Repr && currentSize + rhs.currentSize <= Capacity()
      modifies Repr, rhs.Repr
      ensures Valid() && rhs.Valid() && Repr !! rhs.Repr
      ensures Repr <= old(Repr) + old(rhs.Repr) && rhs.Repr <= old(rhs.Repr)
      ensures Contents() == old(Contents()) + old(rhs.Contents()) && rhs.Contents() == multiset{}
    {
      ghost var mine := Repr;
      TakeAll(rhs, theTrees.Length);
      OwnBoth(rhs, mine + nodes);
    }

    ghost method OwnBoth(rhs: BinomialQueue, objects: set<object>)
      requires this != rhs && this in objects && theTrees in objects && nodes <= objects && rhs.nodes == {}
      requires rhs !in objects && rhs.theTrees !in objects
      requires theTrees.Length == rhs.theTrees.Length == MAX_TREES && Filled(MAX_TREES) && rhs.Filled(MAX_TREES)
      modifies `Repr, rhs`Repr
      ensures Valid() && rhs.Valid() && Repr == objects && rhs.Repr == {rhs, rhs.theTrees}
    {
      Own(objects);
      rhs.Own({rhs, rhs.theTrees});
    }

    /** Takes over all of rhs, unless that would be too much; merging a queue with itself does nothing. */
    method Merge(rhs: BinomialQueue) returns (overflow: bool)
      requires Valid() && rhs.Valid() && (this != rhs ==> Repr !! rhs.Repr)
      modifies Repr, rhs.Repr
      ensures Valid() && rhs.Valid() && (this != rhs ==> Repr !! rhs.Repr)
      ensures Repr <= old(Repr) + old(rhs.Repr) && rhs.Repr <= old(rhs.Repr)
      ensures overflow <==> this != rhs && old(currentSize) + old(rhs.currentSize) > Capacity()
      ensures overflow <==> this != rhs && |old(Contents())| + |old(rhs.Contents())| > Capacity()
      ensures if this == rhs || overflow
              then Contents() == old(Contents()) && rhs.Contents() == old(rhs.Contents())
              else Contents() == old(Contents()) + old(rhs.Contents()) && rhs.Contents() == multiset{}
    {
      if this == rhs {
        return false;
      }
      SizeIsValue(slots);
      SizeIsValue(rhs.slots);
      if currentSize + rhs.currentSize > Capacity() {
        return true;
      }
      overflow := false;
      Absorb(rhs);
    }

    /** The index of a tree whose root holds a least key. */
    method FindMinIndex() returns (minIndex: nat)
      requires Valid() && Contents() != multiset{}
      ensures minIndex < theTrees.Length && slots[minIndex].Cons? && theTrees[minIndex] != null
      ensures IsMin(slots[minIndex].key, Contents())
    {
      var i := 0;
      while theTrees[i] == null
        invariant 0 <= i < theTrees.Length && forall k :: 0 <= k < i ==> slots[k].Nil?
        decreases theTrees.Length - i
      {
        assert Rep(slots[i], theTrees[..][i]);
        if i == theTrees.Length - 1 {
          ZerosEmpty(slots);
        }
        i := i + 1;
      }
      assert Rep(slots[i], theTrees[..][i]);
      minIndex := i;
      while i < theTrees.Length
        invariant 0 <= minIndex <= i <= theTrees.Length && minIndex < theTrees.Length && slots[minIndex].Cons?
        invariant forall k :: 0 <= k < i && slots[k].Cons? ==> slots[minIndex].key <= slots[k].key
      {
        assert Rep(slots[i], theTrees[..][i]) && Rep(slots[minIndex], theTrees[..][minIndex]);
        if theTrees[i] != null && theTrees[i].element < theTrees[minIndex].element {
          minIndex := i;
        }
        i := i + 1;
      }
      assert Rep(slots[minIndex], theTrees[..][minIndex]);
      LeastRoot(slots, minIndex);
    }

    method FindMin() returns (answer: Option<int>)
      requires Valid()
      ensures answer.None? <==> Contents() == multiset{}
      ensures answer.Some? ==> answer.value in Contents() && forall e :: e in Contents() ==> answer.value <= e
    {
      SizeIsValue(slots);
      if currentSize == 0 {
        return None;
      }
      var m := FindMinIndex();
      assert Rep(slots[m], theTrees[..][m]);
      return Some(theTrees[m].element);
    }

    /** Puts the first tree of the list g, cut off from the rest, into place j. */
    method SpreadOne(deletedTree: BinomialNode, j: nat, k: nat, ghost g: Trees, ghost us: seq<Trees>,
                     ghost ns: set<BinomialNode>)
      returns (rest: BinomialNode?)
      requires j < k <= theTrees.Length && g.Cons? && Rep(g, deletedTree) && Nodes(g) <= ns
      requires Held(theTrees[j + 1..k], us, ns) && forall i :: 0 <= i < |us| ==> Nodes(us[i]) !! Nodes(g)
      modifies theTrees, deletedTree`nextSibling
      ensures Rep(g.next, rest) && Held(theTrees[j..k], [g.(next := Nil)] + us, ns) &&
              theTrees[k..] == old(theTrees[k..])
    {
      ghost var a := theTrees[j + 1..k];
      assert Rep(g.child, deletedTree.leftChild) && Rep(g.next, deletedTree.nextSibling);
      theTrees[j] := deletedTree;
      rest := deletedTree.nextSibling;
      theTrees[j].nextSibling := null;
      assert theTrees[j..k] == [theTrees[j]] + a;
      forall i | 0 <= i < |us|
        ensures Rep(us[i], a[i])
      {
        assert old(Rep(us[i], a[i]));
      }
    }

    /** The places from j to k hold the trees us, and the list g, which starts at deletedTree, the others of f. */
    ghost predicate Spreading(f: Trees, k: nat, j: nat, deletedTree: BinomialNode?, g: Trees, us: seq<Trees>)
      requires Children(f, k)
      reads theTrees, Nodes(f)
    {
      j <= k <= theTrees.Length && Children(g, j) && Nodes(g) <= Nodes(f) && Rep(g, deletedTree) &&
      Unlinked(f, k) == Unlinked(g, j) + us && Held(theTrees[j..k], us, Nodes(f)) &&
      forall i :: 0 <= i < |us| ==> Nodes(us[i]) !! Nodes(g)
    }

    method SpreadNext(deletedTree: BinomialNode?, j: nat, k: nat, ghost f: Trees, ghost g: Trees, ghost us: seq<Trees>)
      returns (rest: BinomialNode?)
      requires Children(f, k) && j < k && Spreading(f, k, j + 1, deletedTree, g, us)
      modifies theTrees, Nodes(f)
      ensures Spreading(f, k, j, rest, g.next, [g.(next := Nil)] + us) && theTrees[k..] == old(theTrees[k..])
    {
      assert Unlinked(g, j + 1) + us == Unlinked(g.next, j) + ([g.(next := Nil)] + us);
      rest := SpreadOne(deletedTree, j, k, g, us, Nodes(f));
    }

    /** Spreads the list f of children over the places below k. */
    method Spread(deletedTree0: BinomialNode?, k: nat, ghost f: Trees)
      requires k <= theTrees.Length && Children(f, k) && Rep(f, deletedTree0)
      modifies theTrees, Nodes(f)
      ensures Held(theTrees[..k], Unlinked(f, k), Nodes(f)) && theTrees[k..] == old(theTrees[k..])
    {
      var deletedTree, j := deletedTree0, k;
      ghost var g, us: seq<Trees> := f, [];
      while j > 0
        invariant Spreading(f, k, j, deletedTree, g, us) && theTrees[k..] == old(theTrees[k..])
      {
        j := j - 1;
        deletedTree := SpreadNext(deletedTree, j, k, f, g, us);
        g, us := g.next, [g.(next := Nil)] + us;
      }
    }

    /** Makes an empty queue one of the single item x. */
    method SetSingle(x: int)
      requires Valid() && Contents() == multiset{}
      modifies theTrees, `currentSize, `slots, `nodes, `Repr
      ensures Valid() && fresh(Repr - old(Repr)) && Contents() == multiset{x} && currentSize == 1
    {
      SizeIsValue(slots);
      currentSize := 1;
      theTrees[0] := new BinomialNode(x);
      ghost var first := 0;
      SingleSlot(slots, first, theTrees[0], x);
      slots, nodes := slots[first := Cons(theTrees[0], x, Nil, Nil)], {theTrees[0]};
      Own(Repr + nodes);
    }

    lemma SizeBounds()
      requires Valid()
      ensures |Contents()| == currentSize <= Capacity()
    {
      SizeIsValue(slots);
      ValueBelow(slots);
    }

    method Insert(x: int) returns (overflow: bool)
      requires Valid()
      modifies Repr
      ensures Valid() && fresh(Repr - old(Repr))
      ensures overflow <==> |old(Contents())| == Capacity()
      ensures Contents() == old(Contents()) + if overflow then multiset{} else multiset{x}
    {
      SizeBounds();
      var oneItem := NewSingle(x);
      overflow := Merge(oneItem);
    }

    /** Fills an empty queue with the children f of a tree of order k. */
    method SetChildren(deletedTree: BinomialNode?, k: nat, ghost f: Trees, ghost us: seq<Trees>)
      requires Valid() && k <= theTrees.Length && Children(f, k) && Ordered(f) && Rep(f, deletedTree)
      requires us == Unlinked(f, k) + Zeros(theTrees.Length - k) && Slots(us) && Value(us) == Pow2(k) - 1
      requires forall i :: 0 <= i < theTrees.Length ==> theTrees[i] == null
      modifies Nodes(f), theTrees, `currentSize, `slots, `nodes, `Repr
      ensures Valid() && slots == us && Repr == {this, theTrees} + Nodes(f)
    {
      currentSize := Pow2(k) - 1;
      Spread(deletedTree, k, f);
      slots, nodes := us, Nodes(f);
      forall i | 0 <= i < |us|
        ensures Rep(us[i], theTrees[..][i])
      {
        if i < k {
          assert Rep(Unlinked(f, k)[i], theTrees[..k][i]);
        } else {
          assert theTrees[k..][i - k] == null;
        }
      }
      Own({this, theTrees} + Nodes(f));
    }

    /** Makes the place of a tree of the given size, which is being taken apart, empty. */
    method DropTree(minIndex: nat, size: int)
      requires minIndex < theTrees.Length == |slots| && slots[minIndex].Cons? && size == Pow2(minIndex) - 1
      requires this in Repr && theTrees in Repr && nodes <= Repr && theTrees.Length == MAX_TREES
      requires Apart(slots) && Within(slots, nodes)
      requires HeldBut(theTrees[..], slots, {minIndex}, nodes - Nodes(slots[minIndex]))
      requires var ts := slots[minIndex := Nil]; Slots(ts) && Value(ts) == currentSize - Pow2(minIndex)
      modifies theTrees, `currentSize, `slots, `nodes, `Repr
      ensures Valid() && slots == old(slots)[minIndex := Nil] && Repr == old(Repr) - Nodes(old(slots)[minIndex])
      ensures currentSize == old(currentSize) - size - 1
    {
      ghost var t, m := slots[minIndex], theTrees.Length;
      ghost var a := theTrees[..];
      theTrees[minIndex] := null;
      assert theTrees[..] == a[minIndex := null];
      currentSize := currentSize - (size + 1);
      slots, nodes := slots[minIndex := Nil], nodes - Nodes(t);
      assert Held(theTrees[..], slots, nodes);
      Own(Repr - Nodes(t));
    }

    /** A new queue of the children of the tree in place minIndex. */
    method QueueOfChildren(minIndex: nat) returns (deletedQueue: BinomialQueue)
      requires Valid() && minIndex < theTrees.Length && slots[minIndex].Cons?
      modifies Nodes(slots[minIndex].child)
      ensures deletedQueue.Valid() && deletedQueue.Contents() == Keys(slots[minIndex].child)
      ensures deletedQueue.currentSize == Pow2(minIndex) - 1
      ensures fresh(deletedQueue.Repr - Nodes(slots[minIndex].child))
      ensures HeldBut(theTrees[..], slots, {minIndex}, nodes - Nodes(slots[minIndex]))
    {
      ghost var t, m := slots[minIndex], theTrees.Length;
      SlotsApart(minIndex);
      ghost var us := Unlinked(t.child, minIndex) + Zeros(m - minIndex);
      SpreadOut(t.child, minIndex, m, us);
      NodesAllocated(t.child);
      deletedQueue := NewWithChildren(theTrees[minIndex].leftChild, minIndex, t.child, us);
    }

    /** The tree in place minIndex, and the others, over the other nodes. */
    lemma SlotsApart(minIndex: nat)
      requires Valid() && minIndex < theTrees.Length && slots[minIndex].Cons?
      ensures var t := slots[minIndex];
              theTrees[minIndex] == t.node && Rep(t.child, t.node.leftChild) && Children(t.child, minIndex) &&
              Ordered(t.child) && HeldBut(theTrees[..], slots, {minIndex}, nodes - Nodes(t))
    {
      assert Rep(slots[minIndex], theTrees[..][minIndex]) && Slot(slots[minIndex], minIndex);
    }

    /** Takes the tree in place minIndex out, and makes a queue of its children. */
    method TakeApart(minIndex: nat) returns (deletedQueue: BinomialQueue)
      requires Valid() && minIndex < theTrees.Length && slots[minIndex].Cons?
      modifies Repr
      ensures Valid() && deletedQueue.Valid() && Repr !! deletedQueue.Repr
      ensures Repr <= old(Repr) && fresh(deletedQueue.Repr - old(Repr))
      ensures currentSize + deletedQueue.currentSize + 1 == old(currentSize)
      ensures Contents() + deletedQueue.Contents() == old(Contents()) - multiset{old(slots[minIndex].key)}
    {
      ghost var t := slots[minIndex];
      TakenOut(slots, minIndex);
      assert Nodes(t.child) <= Nodes(t) <= Repr;
      deletedQueue := QueueOfChildren(minIndex);
      DropTree(minIndex, deletedQueue.currentSize);
      assert Repr !! deletedQueue.Repr;
    }

    /** Removes the root of the tree in place minIndex; the merge of what is left never overflows. */
    method RemoveRoot(minIndex: nat) returns (overflow: bool)
      requires Valid() && minIndex < theTrees.Length && slots[minIndex].Cons?
      modifies Repr
      ensures Valid() && fresh(Repr - old(Repr)) && !overflow
      ensures Contents() == old(Contents()) - multiset{old(slots[minIndex].key)}
    {
      ValueBelow(slots);
      var deletedQueue := TakeApart(minIndex);
      overflow := Merge(deletedQueue);
    }

    /** Takes out one least key. */
    method DeleteMin() returns (answer: Option<int>)
      requires Valid()
      modifies Repr
      ensures Valid() && fresh(Repr - old(Repr))
      ensures answer.None? <==> old(Contents()) == multiset{}
      ensures answer.None? ==> Contents() == multiset{}
      ensures answer.Some? ==>
                answer.value in old(Contents()) && (forall e :: e in old(Contents()) ==> answer.value <= e) &&
                Contents() == old(Contents()) - multiset{answer.value}
    {
      SizeIsValue(slots);
      if currentSize == 0 {
        return None;
      }
      var minIndex := FindMinIndex();
      assert Rep(slots[minIndex], theTrees[..][minIndex]);
      var minItem := theTrees[minIndex].element;
      var overflow := RemoveRoot(minIndex);
      return Some(minItem);
    }

    method MakeEmpty()
      requires Valid()
      modifies theTrees, `currentSize, `slots, `nodes, `Repr
      ensures Valid() && fresh(Repr - old(Repr)) && Contents() == multiset{}
    {
      Clear(theTrees.Length);
      Own(Repr);
    }

    method IsEmpty() returns (empty: bool)
      requires Valid()
      ensures empty <==> Contents() == multiset{}
    {
      SizeIsValue(slots);
      empty := currentSize == 0;
    }

    method IsFull() returns (full: bool)
      requires Valid()
      ensures full <==> |Contents()| == 16383
    {
      SizeIsValue(slots);
      full := currentSize == Capacity();
    }
  }

  method NewSingle(x: int) returns (queue: BinomialQueue)
    ensures queue.Valid() && fresh(queue) && fresh(queue.Repr)
    ensures queue.Contents() == multiset{x} && queue.currentSize == 1
  {
    queue := new BinomialQueue();
    queue.SetSingle(x);
  }

  /** A new queue of the children f of a tree of order k. */
  method NewWithChildren(deletedTree: BinomialNode?, k: nat, ghost f: Trees, ghost us: seq<Trees>)
    returns (queue: BinomialQueue)
    requires k <= MAX_TREES && Children(f, k) && Ordered(f) && Rep(f, deletedTree)
    requires us == Unlinked(f, k) + Zeros(MAX_TREES - k) && Slots(us) && Value(us) == Pow2(k) - 1
    modifies Nodes(f)
    ensures queue.Valid() && queue.slots == us && queue.currentSize == Pow2(k) - 1
    ensures fresh(queue) && fresh(queue.Repr - Nodes(f))
  {
    NodesAllocated(f);
    queue := new BinomialQueue();
    queue.SetChildren(deletedTree, k, f, us);
  }

  datatype Op = InsertOp(x: int) | DeleteMinOp | FindMinOp | MakeEmptyOp

  /** What an operation answers: whether there was an overflow, and a key. */
  datatype Reply = Reply(overflow: bool, key: Option<int>)

  /** How a plain bag of keys of bounded size goes from s to s' under op. */
  ghost predicate Step(s: multiset<int>, op: Op, reply: Reply, s': multiset<int>, capacity: int) {
    match op
    case InsertOp(x) =>
      reply == Reply(|s| == capacity, None) && s' == s + if |s| == capacity then multiset{} else multiset{x}
    case DeleteMinOp =>
      !reply.overflow &&
      if s == multiset{} then reply.key.None? && s' == s
      else reply.key.Some? && IsMin(reply.key.value, s) && s' == s - multiset{reply.key.value}
    case FindMinOp =>
      !reply.overflow && s' == s &&
      if s == multiset{} then reply.key.None? else reply.key.Some? && IsMin(reply.key.value, s)
    case MakeEmptyOp =>
      reply == Reply(false, None) && s' == multiset{}
  }

  method Perform(queue: BinomialQueue, op: Op) returns (reply: Reply)
    requires queue.Valid()
    modifies queue.Repr
    ensures queue.Valid() && fresh(queue.Repr - old(queue.Repr))
    ensures Step(old(queue.Contents()), op, reply, queue.Contents(), queue.Capacity())
  {
    var overflow, key := false, None;
    match op {
      case InsertOp(x) => overflow := queue.Insert(x);
      case DeleteMinOp => key := queue.DeleteMin();
      case FindMinOp => key := queue.FindMin();
      case MakeEmptyOp => queue.MakeEmpty();
    }
    reply := Reply(overflow, key);
  }

  /** Every run takes the steps that a plain bag would, through the states that are returned. */
  method Run(queue: BinomialQueue, ops: seq<Op>) returns (replies: seq<Reply>, ghost states: seq<multiset<int>>)
    requires queue.Valid()
    modifies queue.Repr
    ensures queue.Valid() && |replies| == |ops| && |states| == |ops| + 1
    ensures states[0] == old(queue.Contents()) && states[|ops|] == queue.Contents()
    ensures forall i :: 0 <= i < |ops| ==> Step(states[i], ops[i], replies[i], states[i + 1], queue.Capacity())
  {
    replies, states := [], [queue.Contents()];
    for i := 0 to |ops|
      invariant queue.Valid() && fresh(queue.Repr - old(queue.Repr))
      invariant |replies| == i && |states| == i + 1
      invariant states[0] == old(queue.Contents()) && states[i] == queue.Contents()
      invariant forall j :: 0 <= j < i ==> Step(states[j], ops[j], replies[j], states[j + 1], queue.Capacity())
    {
      var reply := Perform(queue, ops[i]);
      replies, states := replies + [reply], states + [queue.Contents()];
    }
  }

  // ---------- Several queues ----------

  /** A call on queue i, or the merge of queue j into queue i. */
  datatype Call = On(i: nat, op: Op) | MergeInto(i: nat, j: nat)

  predicate InRange(call: Call, n: nat) {
    call.i < n && (call.MergeInto? ==> call.j < n)
  }

  /** The most keys that a queue has room for. */
  const CAPACITY := Pow2(MAX_TREES) - 1

  /** How plain bags of bounded size, one for each queue, go from s to s'. */
  ghost predicate CallStep(s: seq<multiset<int>>, call: Call, reply: Reply, s': seq<multiset<int>>)
    requires InRange(call, |s|)
  {
    match call
    case On(i, op) => |s'| == |s| && Step(s[i], op, reply, s'[i], CAPACITY) && s' == s[i := s'[i]]
    case MergeInto(i, j) =>
      var overflow := i != j && |s[i]| + |s[j]| > CAPACITY;
      reply == Reply(overflow, None) && s' == if i == j || overflow then s else s[i := s[i] + s[j]][j := multiset{}]
  }

  ghost predicate Holds(queue: BinomialQueue, bag: multiset<int>, objects: set<object>)
    reads queue, objects
  {
    queue.Repr <= objects && queue.Valid() && queue.Contents() == bag
  }

  /** What each queue owns. */
  ghost function Owned(queues: seq<BinomialQueue>): (rs: seq<set<object>>)
    reads queues
    ensures |rs| == |queues| && forall k :: 0 <= k < |queues| ==> rs[k] == queues[k].Repr
  {
    seq(|queues|, k requires 0 <= k < |queues| reads queues => queues[k].Repr)
  }

  ghost predicate AllApart(rs: seq<set<object>>) {
    forall k, l :: 0 <= k < |rs| && 0 <= l < |rs| && k != l ==> rs[k] !! rs[l]
  }

  /** Owner i may have taken over from owner j; the others have what they had. */
  ghost predicate TakenOver(rs: seq<set<object>>, rs': seq<set<object>>, i: nat, j: nat) {
    i < |rs| && j < |rs| && i != j && |rs'| == |rs| &&
    (forall k :: 0 <= k < |rs| && k != i && k != j ==> rs'[k] == rs[k]) &&
    rs'[i] <= rs[i] + rs[j] && rs'[j] <= rs[j] && rs'[i] !! rs'[j]
  }

  lemma ApartAfter(rs: seq<set<object>>, rs': seq<set<object>>, i: nat, j: nat)
    requires AllApart(rs) && TakenOver(rs, rs', i, j)
    ensures AllApart(rs')
  {}

  /** The queues, which own some of the objects, share nothing, and hold the bags s. */
  ghost predicate Hold(queues: seq<BinomialQueue>, s: seq<multiset<int>>, objects: set<object>)
    reads queues, objects
  {
    |s| == |queues| && (forall k :: 0 <= k < |queues| ==> Holds(queues[k], s[k], objects)) &&
    AllApart(Owned(queues))
  }

  method PerformOn(queues: seq<BinomialQueue>, i: nat, op: Op, ghost s: seq<multiset<int>>, ghost objects: set<object>)
    returns (reply: Reply, ghost s': seq<multiset<int>>, ghost objects': set<object>)
    requires Hold(queues, s, objects) && i < |queues|
    modifies objects
    ensures Hold(queues, s', objects') && objects <= objects' && fresh(objects' - objects)
    ensures CallStep(s, On(i, op), reply, s')
  {
    assert Holds(queues[i], s[i], objects);
    reply := Perform(queues[i], op);
    s', objects' := s[i := queues[i].Contents()], objects + queues[i].Repr;
    forall k | 0 <= k < |queues| && k != i
      ensures Holds(queues[k], s[k], objects) && queues[k].Repr == old(queues[k].Repr)
    {
      assert old(Holds(queues[k], s[k], objects)) && queues[k].Repr !! old(queues[i].Repr);
    }
  }

  method MergeQueues(queues: seq<BinomialQueue>, i: nat, j: nat, ghost s: seq<multiset<int>>,
                     ghost objects: set<object>)
    returns (reply: Reply, ghost s': seq<multiset<int>>)
    requires Hold(queues, s, objects) && i < |queues| && j < |queues|
    modifies objects
    ensures Hold(queues, s', objects) && CallStep(s, MergeInto(i, j), reply, s')
  {
    var overflow := false;
    s' := s;
    if i == j {
      overflow := MergeSelf(queues, i, s, objects);
    } else {
      overflow, s' := MergeTwo(queues, i, j, s, objects);
    }
    reply := Reply(overflow, None);
  }

  method MergeSelf(queues: seq<BinomialQueue>, i: nat, ghost s: seq<multiset<int>>, ghost objects: set<object>)
    returns (overflow: bool)
    requires Hold(queues, s, objects) && i < |queues|
    modifies objects
    ensures Hold(queues, s, objects) && !overflow
  {
    assert Holds(queues[i], s[i], objects);
    ghost var rs := Owned(queues);
    overflow := queues[i].Merge(queues[i]);
    forall k | 0 <= k < |queues| && k != i
      ensures Holds(queues[k], s[k], objects) && queues[k].Repr == rs[k]
    {
      assert old(Holds(queues[k], s[k], objects)) && rs[k] !! rs[i];
    }
  }

  method MergeTwo(queues: seq<BinomialQueue>, i: nat, j: nat, ghost s: seq<multiset<int>>, ghost objects: set<object>)
    returns (overflow: bool, ghost s': seq<multiset<int>>)
    requires Hold(queues, s, objects) && i < |queues| && j < |queues| && i != j
    modifies objects
    ensures Hold(queues, s', objects) && (overflow <==> |s[i]| + |s[j]| > CAPACITY)
    ensures s' == if overflow then s else s[i := s[i] + s[j]][j := multiset{}]
  {
    ghost var rs := Owned(queues);
    overflow := MergePair(queues, i, j, s, objects);
    s' := if overflow then s else s[i := s[i] + s[j]][j := multiset{}];
    ApartAfter(rs, Owned(queues), i, j);
    forall k | 0 <= k < |queues|
      ensures Holds(queues[k], s'[k], objects)
    {
      assert k == i || k == j || s'[k] == s[k];
    }
  }

  /** The merge itself, and all other queues as before. */
  method MergePair(queues: seq<BinomialQueue>, i: nat, j: nat, ghost s: seq<multiset<int>>, ghost objects: set<object>)
    returns (overflow: bool)
    requires Hold(queues, s, objects) && i < |queues| && j < |queues| && i != j
    modifies objects
    ensures overflow <==> |s[i]| + |s[j]| > CAPACITY
    ensures Holds(queues[i], if overflow then s[i] else s[i] + s[j], objects)
    ensures Holds(queues[j], if overflow then s[j] else multiset{}, objects)
    ensures forall k :: 0 <= k < |queues| && k != i && k != j ==> Holds(queues[k], s[k], objects)
    ensures TakenOver(old(Owned(queues)), Owned(queues), i, j)
  {
    assert Holds(queues[i], s[i], objects) && Holds(queues[j], s[j], objects);
    ghost var rs := Owned(queues);
    assert rs[i] !! rs[j];
    overflow := queues[i].Merge(queues[j]);
    forall k | 0 <= k < |queues| && k != i && k != j
      ensures Holds(queues[k], s[k], objects) && queues[k].Repr == rs[k]
    {
      assert old(Holds(queues[k], s[k], objects)) && rs[k] !! rs[i] && rs[k] !! rs[j];
    }
  }

  method PerformCall(queues: seq<BinomialQueue>, call: Call, ghost s: seq<multiset<int>>, ghost objects: set<object>)
    returns (reply: Reply, ghost s': seq<multiset<int>>, ghost objects': set<object>)
    requires Hold(queues, s, objects) && InRange(call, |queues|)
    modifies objects
    ensures Hold(queues, s', objects') && objects <= objects' && fresh(objects' - objects)
    ensures CallStep(s, call, reply, s')
  {
    objects' := objects;
    match call {
      case On(i, op) => reply, s', objects' := PerformOn(queues, i, op, s, objects);
      case MergeInto(i, j) => reply, s' := MergeQueues(queues, i, j, s, objects);
    }
  }

  ghost predicate AllStepped(states: seq<seq<multiset<int>>>, calls: seq<Call>, replies: seq<Reply>) {
    |replies| <= |calls| && |states| == |replies| + 1 &&
    forall k :: 0 <= k < |replies| ==>
      InRange(calls[k], |states[k]|) && CallStep(states[k], calls[k], replies[k], states[k + 1])
  }

  lemma StepAdded(states: seq<seq<multiset<int>>>, calls: seq<Call>, replies: seq<Reply>, reply: Reply,
                  s: seq<multiset<int>>)
    requires AllStepped(states, calls, replies) && |replies| < |calls|
    requires InRange(calls[|replies|], |states[|replies|]|)
    requires CallStep(states[|replies|], calls[|replies|], reply, s)
    ensures AllStepped(states + [s], calls, replies + [reply])
  {
    var after := states + [s];
    assert after[..|states|] == states;
  }

  /** The queues and the replies after the first calls of a run. */
  ghost predicate Underway(queues: seq<BinomialQueue>, calls: seq<Call>, replies: seq<Reply>,
                           states: seq<seq<multiset<int>>>, objects: set<object>)
    reads queues, objects
  {
    AllStepped(states, calls, replies) && Hold(queues, states[|replies|], objects) &&
    forall k :: 0 <= k < |calls| ==> InRange(calls[k], |queues|)
  }

  method NextCall(queues: seq<BinomialQueue>, calls: seq<Call>, replies: seq<Reply>,
                  ghost states: seq<seq<multiset<int>>>, ghost objects: set<object>)
    returns (replies': seq<Reply>, ghost states': seq<seq<multiset<int>>>, ghost objects': set<object>)
    requires Underway(queues, calls, replies, states, objects) && |replies| < |calls|
    modifies objects
    ensures Underway(queues, calls, replies', states', objects') && fresh(objects' - objects)
    ensures |replies'| == |replies| + 1 && states'[0] == states[0]
  {
    var k, reply := |replies|, Reply(false, None);
    ghost var s;
    reply, s, objects' := PerformCall(queues, calls[k], states[k], objects);
    StepAdded(states, calls, replies, reply, s);
    replies', states' := replies + [reply], states + [s];
  }

  /** Every run of calls on queues that share nothing takes the steps that plain bags would; merging moves the nodes
      of one queue to another, and the queues go on sharing nothing. */
  method RunAll(queues: seq<BinomialQueue>, calls: seq<Call>, ghost s0: seq<multiset<int>>,
                ghost objects: set<object>)
    returns (replies: seq<Reply>, ghost states: seq<seq<multiset<int>>>, ghost objects': set<object>)
    requires Hold(queues, s0, objects) && forall k :: 0 <= k < |calls| ==> InRange(calls[k], |queues|)
    modifies objects
    ensures |replies| == |calls| && AllStepped(states, calls, replies)
    ensures states[0] == s0 && Hold(queues, states[|calls|], objects') && fresh(objects' - objects)
  {
    replies, states, objects' := [], [s0], objects;
    for k := 0 to |calls|
      invariant |replies| == k && Underway(queues, calls, replies, states, objects')
      invariant states[0] == s0 && fresh(objects' - objects)
    {
      replies, states, objects' := NextCall(queues, calls, replies, states, objects');
    }
  }
}
