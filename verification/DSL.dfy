/** The 1-2-3 deterministic skip list over linked nodes. */
module DSL {
  import opened Basics
  import opened OrderedSets
  import opened SkipLists

  class SkipNode {
    var element: int
    var right: SkipNode
    var down: SkipNode

    constructor (theElement: int, rt: SkipNode, dt: SkipNode)
      ensures element == theElement && right == rt && down == dt
    {
      element := theElement;
      right := rt;
      down := dt;
    }

    constructor Sentinel(theElement: int)
      ensures element == theElement && right == this && down == this
    {
      element := theElement;
      right := this;
      down := this;
    }
  }

  /** The nodes of all levels, from the top down and from left to right. */
  type Grid = seq<seq<SkipNode>>

  /** The list in mid-insertion, and where in it the search is: node i of level l, in the group of node p above;
      ready while level l has not been split. */
  datatype Search = Search(levels: seq<Level>, nodes: Grid, all: set<SkipNode>, l: nat, i: nat, p: nat, ready: bool)

  ghost predicate SameShape(levels: seq<Level>, nodes: Grid) {
    |nodes| == |levels| && forall l :: 0 <= l < |levels| ==> |nodes[l]| == |levels[l].keys|
  }

  ghost predicate AllDiffer(nodes: Grid) {
    forall l, i, k, j ::
      0 <= l < |nodes| && 0 <= i < |nodes[l]| && 0 <= k < |nodes| && 0 <= j < |nodes[k]| &&
      nodes[l][i] == nodes[k][j] ==>
        l == k && i == j
  }

  function RightOf(nodes: Grid, l: nat, i: nat, tail: SkipNode): SkipNode
    requires l < |nodes|
  {
    if i + 1 < |nodes[l]| then nodes[l][i + 1] else tail
  }

  /** The first node of the group that node i of level l stands for. */
  function DownOf(levels: seq<Level>, nodes: Grid, l: nat, i: nat, bottom: SkipNode): SkipNode
    requires l < |levels|
  {
    if l + 1 < |nodes| && i < |levels[l].starts| && levels[l].starts[i] < |nodes[l + 1]|
    then nodes[l + 1][levels[l].starts[i]] else bottom
  }

  function WithNew(nodes: Grid, l: nat, i: nat, n: SkipNode): (ns: Grid)
    requires l < |nodes| && i < |nodes[l]|
    ensures |ns| == |nodes|
  {
    nodes[l := InsertAt(nodes[l], i + 1, n)]
  }

  /** Where node j of level k was before a new node came in after node i of level l. */
  function OldIndex(l: nat, i: nat, k: nat, j: nat): nat {
    if k == l && j > i then j - 1 else j
  }

  /** What a split does to the nodes and to the group boundaries. */
  ghost predicate SplitTo(vs: seq<Level>, ns: Grid, l: nat, i: nat, p: nat, n: SkipNode, us: seq<Level>, ms: Grid) {
    |us| == |vs| == |ns| && l < |vs| && i < |ns[l]| && ms == WithNew(ns, l, i, n) &&
    (l + 1 < |vs| ==>
       |vs[l].starts| == |ns[l]| + 1 &&
       us[l].starts == InsertAt(vs[l].starts, i + 1, vs[l].starts[i] + 2)) &&
    (l > 0 ==> p < |vs[l - 1].starts| && us[l - 1].starts == Shifted(vs[l - 1].starts, p)) &&
    (forall k :: 0 <= k < |us| && k != l && k != l - 1 ==> us[k] == vs[k])
  }

  lemma SameNode(ns: Grid, l: nat, i: nat, n: SkipNode, ms: Grid, k: nat, j: nat)
    requires l < |ns| && i < |ns[l]| && ms == WithNew(ns, l, i, n)
    requires k < |ms| && j < |ms[k]| && !(k == l && j == i + 1)
    ensures OldIndex(l, i, k, j) < |ns[k]| && ms[k][j] == ns[k][OldIndex(l, i, k, j)]
  {}

  /** No node but the new one gets another down link. */
  lemma DownOfSplit(vs: seq<Level>, ns: Grid, l: nat, i: nat, p: nat, n: SkipNode, bottom: SkipNode, us: seq<Level>,
                    ms: Grid, j: nat)
    requires SplitTo(vs, ns, l, i, p, n, us, ms) && j < |ms[l]| && j != i + 1
    ensures DownOf(us, ms, l, j, bottom) == DownOf(vs, ns, l, OldIndex(l, i, l, j), bottom)
  {}

  lemma DownOfParent(vs: seq<Level>, ns: Grid, l: nat, i: nat, p: nat, n: SkipNode, bottom: SkipNode, us: seq<Level>,
                     ms: Grid, j: nat)
    requires SplitTo(vs, ns, l, i, p, n, us, ms) && l > 0 && j < |vs[l - 1].keys|
    requires SameShape(vs, ns) && Grouped(vs[l - 1], vs[l].keys) && p + 1 < |vs[l - 1].starts|
    requires vs[l - 1].starts[p] <= i < vs[l - 1].starts[p + 1]
    ensures DownOf(us, ms, l - 1, j, bottom) == DownOf(vs, ns, l - 1, j, bottom)
  {
    var v := vs[l - 1];
    assert Group(v, vs[l].keys, j);
    if j <= p {
      StartsGrow(v, vs[l].keys, j, p);
      SameNode(ns, l, i, n, ms, l, v.starts[j]);
    } else {
      StartsGrow(v, vs[l].keys, p + 1, j);
      SameNode(ns, l, i, n, ms, l, v.starts[j] + 1);
    }
  }

  lemma DownAfterSplit(vs: seq<Level>, ns: Grid, infinity: int, l: nat, i: nat, p: nat, x: int, n: SkipNode,
                       bottom: SkipNode, us: seq<Level>, ms: Grid, k: nat, j: nat)
    requires SameShape(vs, ns) && WellFormed(vs, infinity) && At(vs, l, i, p, x) && SplitTo(vs, ns, l, i, p, n, us, ms)
    requires k < |ms| && j < |ms[k]| && !(k == l && j == i + 1)
    ensures DownOf(us, ms, k, j, bottom) == DownOf(vs, ns, k, OldIndex(l, i, k, j), bottom)
  {
    if k == l {
      DownOfSplit(vs, ns, l, i, p, n, bottom, us, ms, j);
    } else if k + 1 == l {
      assert Grouped(vs[k], vs[l].keys);
      DownOfParent(vs, ns, l, i, p, n, bottom, us, ms, j);
    }
  }

  lemma StillDiffer(ns: Grid, these: set<SkipNode>, l: nat, i: nat, n: SkipNode, ms: Grid)
    requires l < |ns| && i < |ns[l]| && ms == WithNew(ns, l, i, n) && AllDiffer(ns) && n !in these
    requires forall k, j :: 0 <= k < |ns| && 0 <= j < |ns[k]| ==> ns[k][j] in these
    ensures AllDiffer(ms) && forall k, j :: 0 <= k < |ms| && 0 <= j < |ms[k]| ==> ms[k][j] in these + {n}
  {
    forall k, j | 0 <= k < |ms| && 0 <= j < |ms[k]|
      ensures ms[k][j] in these + {n}
    {
      if !(k == l && j == i + 1) {
        SameNode(ns, l, i, n, ms, k, j);
      }
    }
    forall k, j, k', j' | 0 <= k < |ms| && 0 <= j < |ms[k]| && 0 <= k' < |ms| && 0 <= j' < |ms[k']| &&
                           ms[k][j] == ms[k'][j']
      ensures k == k' && j == j'
    {
      if !(k == l && j == i + 1) {
        SameNode(ns, l, i, n, ms, k, j);
      }
      if !(k' == l && j' == i + 1) {
        SameNode(ns, l, i, n, ms, k', j');
      }
    }
  }

  class DSL {
    const bottom: SkipNode
    const tail: SkipNode
    const infinity: int
    var header: SkipNode
    ghost var levels: seq<Level>
    ghost var nodes: Grid
    ghost var all: set<SkipNode>
    ghost var Repr: set<object>

    constructor (inf: int)
      ensures Valid() && fresh(Repr) && infinity == inf && KeySet() == {}
    {
      var b := new SkipNode.Sentinel(0);
      var t := new SkipNode.Sentinel(inf);
      var h := new SkipNode(inf, t, b);
      infinity, bottom, tail, header := inf, b, t, h;
      levels, nodes := [Level([inf], [])], [[h]];
      all := {h};
      Repr := {this, b, t, h};
    }

    ghost predicate Sentinels()
      reads bottom, tail
    {
      bottom.right == bottom && bottom.down == bottom && tail.right == tail && tail.element == infinity &&
      bottom != tail
    }

    /** Node i of level l holds its key and is linked to its neighbours. */
    ghost predicate NodeAt(vs: seq<Level>, ns: Grid, l: nat, i: nat)
      requires l < |vs| && l < |ns| && i < |ns[l]| && i < |vs[l].keys|
      reads ns[l][i]
    {
      var n := ns[l][i];
      n.element == vs[l].keys[i] && n.right == RightOf(ns, l, i, tail) && n.down == DownOf(vs, ns, l, i, bottom)
    }

    ghost predicate Linked(vs: seq<Level>, ns: Grid, these: set<SkipNode>)
      reads these
    {
      SameShape(vs, ns) && AllDiffer(ns) && bottom !in these && tail !in these &&
      (forall l, i :: 0 <= l < |ns| && 0 <= i < |ns[l]| ==> ns[l][i] in these) &&
      (forall l, i :: 0 <= l < |ns| && 0 <= i < |ns[l]| ==> NodeAt(vs, ns, l, i))
    }

    ghost predicate Valid()
      reads this, Repr
    {
      this in Repr && bottom in Repr && tail in Repr && all <= Repr && Sentinels() &&
      Linked(levels, nodes, all) && WellFormed(levels, infinity) && |levels[0].keys| == 1 && header == nodes[0][0]
    }

    /** The items in the list, infinity excluded. */
    ghost function KeySet(): set<int>
      reads this
    {
      if |levels| == 0 then {} else Elements(Bottom(levels)) - {infinity}
    }

    /** What the test for a full group sees: at the bottom, where everything below holds x, it asks whether x is
        less. */
    lemma FullTest(vs: seq<Level>, ns: Grid, these: set<SkipNode>, l: nat, i: nat, p: nat, x: int)
      requires Linked(vs, ns, these) && Sentinels() && WellFormed(vs, infinity) && bottom.element == x
      requires At(vs, l, i, p, x) && x <= vs[l].keys[i]
      ensures var current := ns[l][i];
              current.down.right.right.element < current.element <==> Full(vs, l, i, x)
      ensures l + 1 < |vs| ==> |vs[l].starts| == |vs[l].keys| + 1 && vs[l].starts[i] + 1 < |ns[l + 1]|
      ensures l + 1 < |vs| ==>
                ns[l][i].down == ns[l + 1][vs[l].starts[i]] && ns[l][i].down.right == ns[l + 1][vs[l].starts[i] + 1]
    {
      assert NodeAt(vs, ns, l, i);
      assert Ascending(vs[l].keys, infinity);
      if l + 1 < |vs| {
        FullTestInside(vs, ns, these, l, i);
      }
    }

    /** Above the bottom the test reaches the third node of the group below, or what follows the group. */
    lemma FullTestInside(vs: seq<Level>, ns: Grid, these: set<SkipNode>, l: nat, i: nat)
      requires Linked(vs, ns, these) && Sentinels() && WellFormed(vs, infinity)
      requires l + 1 < |vs| && i < |ns[l]|
      ensures |vs[l].starts| == |vs[l].keys| + 1 && vs[l].starts[i] + 1 < |ns[l + 1]|
      ensures ns[l][i].element == vs[l].keys[i] && ns[l][i].down == ns[l + 1][vs[l].starts[i]]
      ensures ns[l][i].down.right == ns[l + 1][vs[l].starts[i] + 1]
      ensures ns[l][i].down.right.right.element < vs[l].keys[i] <==> vs[l].starts[i + 1] == vs[l].starts[i] + 4
    {
      var v, below := vs[l], vs[l + 1].keys;
      assert Grouped(v, below) && Group(v, below, i) && Ascending(below, infinity);
      assert NodeAt(vs, ns, l, i);
      var s := v.starts[i];
      assert NodeAt(vs, ns, l + 1, s) && NodeAt(vs, ns, l + 1, s + 1);
      if s + 2 < |below| {
        assert NodeAt(vs, ns, l + 1, s + 2);
      }
    }

    /** Moves right to the first node whose element is not below x. */
    method GoRight(current0: SkipNode, x: int, ghost vs: seq<Level>, ghost ns: Grid, ghost these: set<SkipNode>,
                   ghost l: nat, ghost i0: nat, ghost p: nat)
      returns (current: SkipNode, ghost i: nat)
      requires Linked(vs, ns, these) && WellFormed(vs, infinity) && x <= infinity && At(vs, l, i0, p, x) &&
               current0 == ns[l][i0]
      ensures At(vs, l, i, p, x) && current == ns[l][i] && x <= vs[l].keys[i]
      ensures x <= vs[l].keys[i0] ==> i == i0
      ensures i0 + 1 < |vs[l].keys| && vs[l].keys[i0] < x <= vs[l].keys[i0 + 1] ==> i == i0 + 1
    {
      current, i := current0, i0;
      assert NodeAt(vs, ns, l, i);
      while current.element < x
        invariant At(vs, l, i, p, x) && current == ns[l][i] && current.element == vs[l].keys[i] && i0 <= i
        invariant i > i0 ==> vs[l].keys[i - 1] < x
        decreases |ns[l]| - i
      {
        assert NodeAt(vs, ns, l, i);
        MoveRight(vs, infinity, l, i, p, x);
        current, i := current.right, i + 1;
        assert NodeAt(vs, ns, l, i);
      }
      assert Ascending(vs[l].keys, infinity);
    }

    /** The nodes around a split, just after it. */
    ghost predicate JustSplit(vs: seq<Level>, ns: Grid, l: nat, i: nat, n: SkipNode, key: int)
      requires l < |vs| && l < |ns| && i < |ns[l]| && i < |vs[l].keys| &&
               (l + 1 < |vs| ==> |vs[l].starts| == |vs[l].keys| + 1)
      reads ns[l][i], n
    {
      var current := ns[l][i];
      current.element == key && current.right == n && current.down == DownOf(vs, ns, l, i, bottom) &&
      n.element == vs[l].keys[i] && n.right == RightOf(ns, l, i, tail) &&
      (if l + 1 < |vs| && l + 1 < |ns| && vs[l].starts[i] + 2 < |ns[l + 1]|
       then n.down == ns[l + 1][vs[l].starts[i] + 2] else n.down == bottom)
    }

    /** The node that was split and the new one. */
    lemma HalvesAfterSplit(vs: seq<Level>, ns: Grid, l: nat, i: nat, p: nat, x: int, n: SkipNode,
                           us: seq<Level>, ms: Grid, j: nat)
      requires SameShape(vs, ns) && SameShape(us, ms) && WellFormed(vs, infinity) && At(vs, l, i, p, x)
      requires SplitTo(vs, ns, l, i, p, n, us, ms) && JustSplit(vs, ns, l, i, n, us[l].keys[i])
      requires us[l].keys == InsertAt(vs[l].keys, i, us[l].keys[i]) && i <= j <= i + 1 && j < |ms[l]|
      ensures NodeAt(us, ms, l, j)
    {
      if j == i {
        SameNode(ns, l, i, n, ms, l, i);
        DownOfSplit(vs, ns, l, i, p, n, bottom, us, ms, i);
      }
    }

    /** A node that was not split. */
    lemma OtherAfterSplit(vs: seq<Level>, ns: Grid, l: nat, i: nat, p: nat, x: int, n: SkipNode,
                          us: seq<Level>, ms: Grid, k: nat, j: nat)
      requires SameShape(vs, ns) && SameShape(us, ms) && WellFormed(vs, infinity) && At(vs, l, i, p, x)
      requires SplitTo(vs, ns, l, i, p, n, us, ms) && us[l].keys == InsertAt(vs[l].keys, i, us[l].keys[i])
      requires k < |ms| && j < |ms[k]| && !(k == l && (j == i || j == i + 1))
      requires k != l ==> us[k].keys == vs[k].keys
      requires OldIndex(l, i, k, j) < |ns[k]| && NodeAt(vs, ns, k, OldIndex(l, i, k, j))
      ensures NodeAt(us, ms, k, j)
    {
      SameNode(ns, l, i, n, ms, k, j);
      DownAfterSplit(vs, ns, infinity, l, i, p, x, n, bottom, us, ms, k, j);
      assert RightOf(ms, k, j, tail) == RightOf(ns, k, OldIndex(l, i, k, j), tail) by {
        if j + 1 < |ms[k]| {
          SameNode(ns, l, i, n, ms, k, j + 1);
        }
      }
      assert us[k].keys[j] == vs[k].keys[OldIndex(l, i, k, j)];
    }

    /** Splits node i of level l, whose group is full or before which x is to go. */
    method Split(current: SkipNode, x: int, ghost vs: seq<Level>, ghost ns: Grid, ghost these: set<SkipNode>,
                 ghost l: nat, ghost i: nat, ghost p: nat)
      returns (n: SkipNode)
      requires Linked(vs, ns, these) && Sentinels() && WellFormed(vs, infinity) && bottom.element == x
      requires At(vs, l, i, p, x) && x <= vs[l].keys[i] && current == ns[l][i] && Full(vs, l, i, x)
      requires l + 1 < |vs| ==> |vs[l].starts| == |vs[l].keys| + 1
      modifies current
      ensures fresh(n) && JustSplit(vs, ns, l, i, n, MiddleKey(vs, l, i, x))
    {
      FullTest(vs, ns, these, l, i, p, x);
      assert NodeAt(vs, ns, l, i);
      if l + 1 < |vs| {
        assert Grouped(vs[l], vs[l + 1].keys) && Group(vs[l], vs[l + 1].keys, i);
        assert NodeAt(vs, ns, l + 1, vs[l].starts[i]) && NodeAt(vs, ns, l + 1, vs[l].starts[i] + 1);
      }
      n := new SkipNode(current.element, current.right, current.down.right.right);
      current.right := n;
      current.element := current.down.right.element;
    }

    lemma LinkedAfterSplit(vs: seq<Level>, ns: Grid, these: set<SkipNode>, l: nat, i: nat, p: nat, x: int, n: SkipNode,
                           us: seq<Level>, ms: Grid)
      requires SameShape(vs, ns) && AllDiffer(ns) && bottom !in these && tail !in these && n !in these &&
               n != bottom && n != tail
      requires forall k, j :: 0 <= k < |ns| && 0 <= j < |ns[k]| ==> ns[k][j] in these
      requires forall k, j :: 0 <= k < |ns| && 0 <= j < |ns[k]| && !(k == l && j == i) ==> NodeAt(vs, ns, k, j)
      requires WellFormed(vs, infinity) && At(vs, l, i, p, x) && (l + 1 < |vs| ==> |vs[l].starts| == |vs[l].keys| + 1)
      requires us == SplitNode(vs, l, i, p, x) && ms == WithNew(ns, l, i, n) &&
               JustSplit(vs, ns, l, i, n, MiddleKey(vs, l, i, x))
      ensures Linked(us, ms, these + {n})
    {
      SplitLevels(vs, l, i, p, x, us);
      StillDiffer(ns, these, l, i, n, ms);
      assert SameShape(us, ms);
      assert SplitTo(vs, ns, l, i, p, n, us, ms);
      forall k, j | 0 <= k < |ms| && 0 <= j < |ms[k]|
        ensures NodeAt(us, ms, k, j)
      {
        NodeAfterSplit(vs, ns, l, i, p, x, n, us, ms, k, j);
      }
    }

    lemma NodeAfterSplit(vs: seq<Level>, ns: Grid, l: nat, i: nat, p: nat, x: int, n: SkipNode,
                            us: seq<Level>, ms: Grid, k: nat, j: nat)
      requires SameShape(vs, ns) && SameShape(us, ms) && SplitTo(vs, ns, l, i, p, n, us, ms)
      requires WellFormed(vs, infinity) && At(vs, l, i, p, x) && (l + 1 < |vs| ==> |vs[l].starts| == |vs[l].keys| + 1)
      requires us == SplitNode(vs, l, i, p, x) && ms == WithNew(ns, l, i, n)
      requires JustSplit(vs, ns, l, i, n, MiddleKey(vs, l, i, x))
      requires k < |ms| && j < |ms[k]|
      requires forall k, j :: 0 <= k < |ns| && 0 <= j < |ns[k]| && !(k == l && j == i) ==> NodeAt(vs, ns, k, j)
      ensures NodeAt(us, ms, k, j)
    {
      SplitLevels(vs, l, i, p, x, us);
      if k == l && (j == i || j == i + 1) {
        HalvesAfterSplit(vs, ns, l, i, p, x, n, us, ms, j);
      } else {
        SameNode(ns, l, i, n, ms, k, j);
        OtherAfterSplit(vs, ns, l, i, p, x, n, us, ms, k, j);
      }
    }

    /** A split, and the list it leaves. */
    method SplitLinked(current: SkipNode, x: int, ghost vs: seq<Level>, ghost ns: Grid, ghost these: set<SkipNode>,
                       ghost l: nat, ghost i: nat, ghost p: nat, ghost us: seq<Level>)
      returns (ghost ms: Grid, ghost those: set<SkipNode>)
      requires Linked(vs, ns, these) && Sentinels() && WellFormed(vs, infinity) && bottom.element == x
      requires At(vs, l, i, p, x) && x <= vs[l].keys[i] && current == ns[l][i] && Full(vs, l, i, x)
      requires l + 1 < |vs| ==> |vs[l].starts| == |vs[l].keys| + 1
      requires us == SplitNode(vs, l, i, p, x)
      modifies current
      ensures Linked(us, ms, those) && these <= those && fresh(those - these) && l < |ms| && i < |ms[l]| &&
              ms[l][i] == current && ms[0][0] == ns[0][0]
    {
      var n := Split(current, x, vs, ns, these, l, i, p);
      ms, those := WithNew(ns, l, i, n), these + {n};
      forall k, j | 0 <= k < |ns| && 0 <= j < |ns[k]| && !(k == l && j == i)
        ensures NodeAt(vs, ns, k, j)
      {
        assert old(NodeAt(vs, ns, k, j));
      }
      LinkedAfterSplit(vs, ns, these, l, i, p, x, n, us, ms);
    }

    /** How far an insertion has got. */
    ghost predicate Inserting(st: Search, x: int, current: SkipNode, height: nat, before: set<int>, top: SkipNode)
      reads st.all, bottom, tail
    {
      Linked(st.levels, st.nodes, st.all) && Sentinels() && bottom.element == x <= infinity &&
      Growing(st.levels, infinity, height, before, x) && |st.nodes[0]| > 0 && st.nodes[0][0] == top &&
      if current == bottom then x in Bottom(st.levels)
      else Poised(st.levels, st.l, st.i, st.p, x, st.ready) && current == st.nodes[st.l][st.i]
    }

    function Remaining(st: Search, height: nat, current: SkipNode): int {
      if current == bottom then 0 else 2 * (height - st.l) + if st.ready then 1 else 0
    }

    /** The node just reached, from which no step to the right is needed any more. */
    ghost predicate Reached(st: Search, x: int, current: SkipNode)
      requires SameShape(st.levels, st.nodes)
    {
      Poised(st.levels, st.l, st.i, st.p, x, st.ready) && current == st.nodes[st.l][st.i] &&
      x <= st.levels[st.l].keys[st.i]
    }

    method SplitStep(current: SkipNode, x: int, ghost st0: Search, ghost height: nat, ghost before: set<int>,
                     ghost top: SkipNode)
      returns (ghost st: Search)
      requires current != bottom && Inserting(st0, x, current, height, before, top) && Reached(st0, x, current)
      requires Full(st0.levels, st0.l, st0.i, x)
      modifies st0.all
      ensures Inserting(st, x, current, height, before, top) && st0.all <= st.all && fresh(st.all - st0.all)
      ensures st0.ready && st.l == st0.l && !st.ready
    {
      ghost var vs, ns, l, i, p := st0.levels, st0.nodes, st0.l, st0.i, st0.p;
      SplitGrows(vs, infinity, height, before, l, i, p, x);
      ghost var us := SplitNode(vs, l, i, p, x);
      ghost var ms, those := SplitLinked(current, x, vs, ns, st0.all, l, i, p, us);
      st := Search(us, ms, those, l, i, p, false);
    }

    method DownStep(current0: SkipNode, x: int, ghost st0: Search, ghost height: nat, ghost before: set<int>,
                    ghost top: SkipNode)
      returns (current: SkipNode, ghost st: Search)
      requires current0 != bottom && Inserting(st0, x, current0, height, before, top) && Reached(st0, x, current0)
      requires !Full(st0.levels, st0.l, st0.i, x)
      ensures Inserting(st, x, current, height, before, top) && st.all == st0.all
      ensures current != bottom ==> st.l > st0.l
    {
      ghost var vs, ns, l, i, p := st0.levels, st0.nodes, st0.l, st0.i, st0.p;
      assert NodeAt(vs, ns, l, i);
      current := current0.down;
      st := st0;
      if l + 1 < |vs| {
        MoveDown(vs, infinity, l, i, p, x);
        st := Search(vs, ns, st0.all, l + 1, vs[l].starts[i], i, true);
      } else {
        FoundAtBottom(vs, l, i, p, x);
      }
    }

    /** The body of the loop of an insertion. */
    method Advance(current0: SkipNode, x: int, ghost st0: Search, ghost height: nat, ghost before: set<int>,
                   ghost top: SkipNode)
      returns (current: SkipNode, ghost st: Search)
      requires Inserting(st0, x, current0, height, before, top) && current0 != bottom
      modifies st0.all
      ensures Inserting(st, x, current, height, before, top) && st0.all <= st.all && fresh(st.all - st0.all)
      ensures Remaining(st, height, current) < Remaining(st0, height, current0)
    {
      ghost var i;
      current, i := GoRight(current0, x, st0.levels, st0.nodes, st0.all, st0.l, st0.i, st0.p);
      st := st0.(i := i);
      FullTest(st.levels, st.nodes, st.all, st.l, st.i, st.p, x);
      assert Reached(st, x, current);
      if current.down.right.right.element < current.element {
        st := SplitStep(current, x, st, height, before, top);
      } else {
        current, st := DownStep(current, x, st, height, before, top);
      }
    }

    /** A new header over a top level of two nodes. */
    lemma RaisedLinked(vs: seq<Level>, ns: Grid, these: set<SkipNode>, h: SkipNode)
      requires Linked(vs, ns, these) && |vs| > 0 && |vs[0].keys| == 2 && h !in these && h != bottom && h != tail
      requires h.element == infinity && h.right == tail && h.down == ns[0][0]
      ensures Linked(Raised(vs, infinity), [[h]] + ns, these + {h})
    {
      var us, ms := Raised(vs, infinity), [[h]] + ns;
      forall l, i | 0 <= l < |ms| && 0 <= i < |ms[l]|
        ensures NodeAt(us, ms, l, i) && ms[l][i] in these + {h}
      {
        if l > 0 {
          assert ms[l] == ns[l - 1] && NodeAt(vs, ns, l - 1, i);
        }
      }
      forall l, i, k, j | 0 <= l < |ms| && 0 <= i < |ms[l]| && 0 <= k < |ms| && 0 <= j < |ms[k]| && ms[l][i] == ms[k][j]
        ensures l == k && i == j
      {
        if l > 0 && k > 0 {
          assert ns[l - 1][i] == ns[k - 1][j];
        }
      }
    }

    /** The search of an insertion, with its splits. */
    method SearchAndSplit(x: int) returns (ghost st: Search)
      requires Valid() && x <= infinity
      modifies all, bottom`element
      ensures Linked(st.levels, st.nodes, st.all) && Sentinels() && all <= st.all && fresh(st.all - all)
      ensures WellFormed(st.levels, infinity) && |st.levels[0].keys| <= 2 && |st.nodes[0]| > 0 &&
              st.nodes[0][0] == header
      ensures Elements(Bottom(st.levels)) == Elements(Bottom(levels)) + {x}
    {
      var current := header;
      bottom.element := x;
      ghost var height, before := |levels|, Elements(Bottom(levels));
      AtTop(levels, infinity, x);
      st := Search(levels, nodes, all, 0, 0, 0, true);
      assert Inserting(st, x, current, height, before, header);
      while current != bottom
        invariant Inserting(st, x, current, height, before, header) && all <= st.all && fresh(st.all - all)
        decreases Remaining(st, height, current)
      {
        current, st := Advance(current, x, st, height, before, header);
      }
    }

    /** Raises the height if the top level has been split. */
    method Raise(ghost st: Search) returns (ghost st': Search)
      requires Linked(st.levels, st.nodes, st.all) && Sentinels() && WellFormed(st.levels, infinity)
      requires |st.levels[0].keys| <= 2 && |st.nodes[0]| > 0 && st.nodes[0][0] == header
      modifies `header
      ensures Linked(st'.levels, st'.nodes, st'.all) && WellFormed(st'.levels, infinity) && |st'.levels[0].keys| == 1
      ensures |st'.nodes[0]| > 0 && st'.nodes[0][0] == header && Bottom(st'.levels) == Bottom(st.levels)
      ensures st.all <= st'.all && fresh(st'.all - st.all)
      ensures |st.levels[0].keys| == 1 ==> st' == st && header == old(header)
      ensures |st.levels[0].keys| == 2 ==> st'.levels == Raised(st.levels, infinity) && fresh(header)
    {
      assert NodeAt(st.levels, st.nodes, 0, 0) && Ascending(st.levels[0].keys, infinity);
      st' := st;
      if header.right != tail {
        var h := new SkipNode(infinity, tail, header);
        RaisedWellFormed(st.levels, infinity);
        RaisedLinked(st.levels, st.nodes, st.all, h);
        header := h;
        st' := st.(levels := Raised(st.levels, infinity), nodes := [[h]] + st.nodes, all := st.all + {h});
      }
    }

    method Insert(x: int)
      requires Valid() && x <= infinity
      modifies Repr
      ensures Valid() && fresh(Repr - old(Repr))
      ensures KeySet() == if x == infinity then old(KeySet()) else old(KeySet()) + {x}
    {
      ghost var st := SearchAndSplit(x);
      ghost var st' := Raise(st);
      Adopt(st');
    }

    ghost method Adopt(st: Search)
      requires this in Repr && bottom in Repr && tail in Repr && Sentinels()
      requires Linked(st.levels, st.nodes, st.all) && WellFormed(st.levels, infinity)
      requires |st.levels[0].keys| == 1 && |st.nodes[0]| > 0 && st.nodes[0][0] == header
      modifies `levels, `nodes, `all, `Repr
      ensures Valid() && Repr == old(Repr) + st.all && levels == st.levels
    {
      levels, nodes, all, Repr := st.levels, st.nodes, st.all, Repr + st.all;
    }

    method MakeEmpty()
      requires Valid()
      modifies header, `levels, `nodes, `all
      ensures Valid() && KeySet() == {}
    {
      assert Ascending(levels[0].keys, infinity) && NodeAt(levels, nodes, 0, 0);
      header.right := tail;
      header.down := bottom;
      levels, nodes, all := [Level([infinity], [])], [[header]], {header};
    }

    lemma InfinityListed()
      requires Valid()
      ensures infinity in Elements(Bottom(levels))
    {}

    method IsEmpty() returns (empty: bool)
      requires Valid()
      ensures empty <==> KeySet() == {}
      ensures empty <==> |levels| == 1
    {
      assert NodeAt(levels, nodes, 0, 0) && Ascending(levels[0].keys, infinity) && Ascending(Bottom(levels), infinity);
      empty := header.right == tail && header.down == bottom;
      HeightBound(levels, infinity);
      if |levels| > 1 {
        assert Grouped(levels[0], levels[1].keys) && Group(levels[0], levels[1].keys, 0);
        var keys := Bottom(levels);
        assert Pow2(|levels| - 1) >= 2;
        assert keys[0] in KeySet();
      }
    }

    /** infinity, which no item may equal, is found in any list. */
    method Find(x: int) returns (answer: Option<int>)
      requires Valid() && x <= infinity
      modifies bottom`element
      ensures Valid() && Repr == old(Repr) && KeySet() == old(KeySet())
      ensures answer == if x in KeySet() || x == infinity then Some(x) else None
      ensures Answers(KeySet(), FindOp(x), answer) <==> x != infinity
    {
      InfinityListed();
      var current := header;
      bottom.element := x;
      ghost var l: nat, i: nat, p: nat := 0, 0, 0;
      AtTop(levels, infinity, x);
      while true
        invariant Valid() && bottom.element == x && levels == old(levels) && nodes == old(nodes)
        invariant if current == bottom then l == |levels| && i == 0 && x !in Bottom(levels)
                  else At(levels, l, i, p, x) && current == nodes[l][i]
        decreases |levels| - l, if l < |levels| then |levels[l].keys| - i else 0
      {
        if current != bottom {
          SearchStep(l, i, p, x);
        }
        if x < current.element {
          current := current.down;
          l, i, p := l + 1, if l + 1 < |levels| then levels[l].starts[i] else 0, i;
        } else if x > current.element {
          current, i := current.right, i + 1;
        } else {
          return if current == bottom then None else Some(current.element);
        }
      }
    }

    /** What the search for x learns at node i of level l. */
    lemma SearchStep(l: nat, i: nat, p: nat, x: int)
      requires Valid() && x <= infinity && At(levels, l, i, p, x)
      ensures nodes[l][i] != bottom && nodes[l][i].element == levels[l].keys[i]
      ensures x == levels[l].keys[i] ==> x in Bottom(levels)
      ensures x > levels[l].keys[i] ==> At(levels, l, i + 1, p, x) && nodes[l][i].right == nodes[l][i + 1]
      ensures x < levels[l].keys[i] && l + 1 < |levels| ==>
                i < |levels[l].starts| && At(levels, l + 1, levels[l].starts[i], i, x) &&
                nodes[l][i].down == nodes[l + 1][levels[l].starts[i]] && nodes[l][i].down != bottom
      ensures x < levels[l].keys[i] && l + 1 == |levels| ==> nodes[l][i].down == bottom && x !in Bottom(levels)
    {
      assert NodeAt(levels, nodes, l, i);
      if x > levels[l].keys[i] {
        MoveRight(levels, infinity, l, i, p, x);
      } else if x == levels[l].keys[i] {
        ListedAtBottom(levels, infinity, l);
      } else if l + 1 < |levels| {
        MoveDown(levels, infinity, l, i, p, x);
        assert Grouped(levels[l], levels[l + 1].keys) && Group(levels[l], levels[l + 1].keys, i);
      } else {
        assert Ascending(Bottom(levels), infinity);
      }
    }

    /** Where the down link of node i of level l leads. */
    lemma DownIs(l: nat, i: nat)
      requires Valid() && l < |levels| && i < |nodes[l]|
      ensures nodes[l][i].element == levels[l].keys[i] && nodes[l][i].right == RightOf(nodes, l, i, tail)
      ensures if l + 1 == |levels| then nodes[l][i].down == bottom
              else |levels[l].starts| == |levels[l].keys| + 1 &&
                   levels[l].starts[i] + 2 <= levels[l].starts[i + 1] <= |nodes[l + 1]| &&
                   nodes[l][i].down == nodes[l + 1][levels[l].starts[i]] && nodes[l][i].down != bottom &&
                   (i == 0 ==> levels[l].starts[i] == 0) &&
                   (i == |nodes[l]| - 1 ==> levels[l].starts[i + 1] == |nodes[l + 1]|)
    {
      assert NodeAt(levels, nodes, l, i);
      if l + 1 < |levels| {
        assert Grouped(levels[l], levels[l + 1].keys) && Group(levels[l], levels[l + 1].keys, i);
      }
    }

    /** The ends of the bottom level, infinity left out. */
    lemma EndsOfBottom()
      requires Valid() && KeySet() != {}
      ensures var keys := Bottom(levels);
              |keys| >= 2 && IsLeast(KeySet(), keys[0]) &&
              IsGreatest(KeySet(), keys[|keys| - 2])
    {}

    method FindMin() returns (answer: Option<int>)
      requires Valid()
      ensures Answers(KeySet(), FindMinOp, answer)
    {
      var empty := IsEmpty();
      if empty {
        return None;
      }
      var current := header;
      ghost var l := 0;
      DownIs(l, 0);
      while current.down != bottom
        invariant 0 <= l < |levels| && |nodes[l]| > 0 && current == nodes[l][0] && current.element == levels[l].keys[0]
        invariant current.down == bottom <==> l + 1 == |levels|
        decreases |levels| - l
      {
        DownIs(l, 0);
        current, l := current.down, l + 1;
        DownIs(l, 0);
      }
      EndsOfBottom();
      return Some(current.element);
    }

    /** Moves along the nodes before the last of each level, or along the only one. */
    method FindMax() returns (answer: Option<int>)
      requires Valid()
      ensures Answers(KeySet(), FindMaxOp, answer)
    {
      var empty := IsEmpty();
      if empty {
        return None;
      }
      EndsOfBottom();
      var current := header;
      ghost var l, i := 0, 0;
      while true
        invariant 0 <= l < |levels| && 0 <= i < |nodes[l]| && current == nodes[l][i] &&
                  (i + 1 < |nodes[l]| || |nodes[l]| == 1)
        decreases |levels| - l, |nodes[l]| - i
      {
        DownIs(l, i);
        if i + 1 < |nodes[l]| {
          DownIs(l, i + 1);
        }
        if current.right.right != tail {
          current, i := current.right, i + 1;
        } else if current.down != bottom {
          current, l, i := current.down, l + 1, levels[l].starts[i];
        } else {
          return if current == bottom then None else Some(current.element);
        }
      }
    }
  }

  /** The answer of a plain set, save that infinity is always found. */
  ghost predicate Replies(s: set<int>, op: Op, infinity: int, answer: Option<int>) {
    if op == FindOp(infinity) then answer == Some(infinity) else Answers(s, op, answer)
  }

  /** The demand of the constructor: infinity is the largest of all. */
  ghost predicate NotAbove(op: Op, infinity: int) {
    op.InsertOp? || op.FindOp? ==> op.x <= infinity
  }

  method Perform(list: DSL, op: Op) returns (answer: Option<int>)
    requires list.Valid() && NotAbove(op, list.infinity)
    modifies list.Repr
    ensures list.Valid() && fresh(list.Repr - old(list.Repr))
    ensures list.KeySet() == Effect(old(list.KeySet()), op, list.infinity)
    ensures Replies(old(list.KeySet()), op, list.infinity, answer)
  {
    answer := None;
    match op {
      case InsertOp(x) => list.Insert(x);
      case RemoveOp(_) =>
      case FindOp(x) => answer := list.Find(x);
      case FindMinOp => answer := list.FindMin();
      case FindMaxOp => answer := list.FindMax();
      case MakeEmptyOp => list.MakeEmpty();
    }
  }

  /** Over any run the list stays a 1-2-3 skip list of the items a plain set would hold. */
  method Run(list: DSL, ops: seq<Op>) returns (answers: seq<Option<int>>)
    requires list.Valid() && forall i :: 0 <= i < |ops| ==> NotAbove(ops[i], list.infinity)
    modifies list.Repr
    ensures list.Valid() && list.KeySet() == Effects(old(list.KeySet()), ops, list.infinity)
    ensures |answers| == |ops|
    ensures forall i :: 0 <= i < |ops| ==>
              Replies(Effects(old(list.KeySet()), ops[..i], list.infinity), ops[i], list.infinity, answers[i])
  {
    answers := [];
    ghost var s0 := list.KeySet();
    for i := 0 to |ops|
      invariant list.Valid() && fresh(list.Repr - old(list.Repr))
      invariant |answers| == i
      invariant list.KeySet() == Effects(s0, ops[..i], list.infinity)
      invariant forall j :: 0 <= j < i ==>
                Replies(Effects(s0, ops[..j], list.infinity), ops[j], list.infinity, answers[j])
    {
      EffectsPrefix(s0, ops, list.infinity, i);
      var answer := Perform(list, ops[i]);
      answers := answers + [answer];
    }
    assert ops[..|ops|] == ops;
  }
}
