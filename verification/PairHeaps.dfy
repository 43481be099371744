/** Pairing heaps as values: forests of siblings, linking, the two-pass merge, and cutting a subtree loose. */
module PairHeaps {
  import opened Forests

  // ---------- Linking ----------

  /** The tree with the larger root becomes the leftmost child of the other; siblings of the second stay siblings. */
  function Link<N>(first: Forest<N>, second: Forest<N>): (t: Forest<N>)
    requires Tree(first)
    ensures t.Cons? && t.next == if second.Nil? then Nil else second.next
  {
    if second.Nil? then first
    else if second.key < first.key then
      Cons(second.node, second.key, first.(next := second.child), second.next)
    else
      Cons(first.node, first.key, second.(next := first.child), second.next)
  }

  lemma LinkKeeps<N>(first: Forest<N>, second: Forest<N>)
    requires Tree(first)
    ensures Items(Link(first, second)) == Items(first) + Items(second)
    ensures Nodes(Link(first, second)) == Nodes(first) + Nodes(second)
    ensures Ordered(first) && Ordered(second) ==> Ordered(Link(first, second))
  {}

  // ---------- The two passes ----------

  /** The sibling trees one by one. */
  function Siblings<N>(f: Forest<N>): (ts: seq<Forest<N>>)
    ensures forall i :: 0 <= i < |ts| ==> Tree(ts[i])
  {
    if f.Nil? then [] else [f.(next := Nil)] + Siblings(f.next)
  }

  /** Pairs are linked from left to right, an odd one is linked to the last pair,
      and then each pair takes up all that comes to its right. */
  function Combined<N>(ts: seq<Forest<N>>): (t: Forest<N>)
    requires |ts| >= 2 && forall i :: 0 <= i < |ts| ==> Tree(ts[i])
    ensures Tree(t)
  {
    assert Tree(ts[1]);
    var pair := Link(ts[0], ts[1]);
    if |ts| == 2 then pair
    else if |ts| == 3 then assert Tree(ts[2]); Link(pair, ts[2])
    else Link(pair, Combined(ts[2..]))
  }

  ghost function AllItems<N>(ts: seq<Forest<N>>): set<(N, int)> {
    if ts == [] then {} else Items(ts[0]) + AllItems(ts[1..])
  }

  ghost function AllNodes<N>(ts: seq<Forest<N>>): set<N> {
    if ts == [] then {} else Nodes(ts[0]) + AllNodes(ts[1..])
  }

  ghost predicate AllOrdered<N>(ts: seq<Forest<N>>) {
    forall i :: 0 <= i < |ts| ==> Ordered(ts[i])
  }

  lemma {:induction false} SiblingsKeep<N>(f: Forest<N>)
    ensures AllItems(Siblings(f)) == Items(f) && AllNodes(Siblings(f)) == Nodes(f)
    ensures Ordered(f) ==> AllOrdered(Siblings(f))
  {
    if f.Cons? {
      SiblingsKeep(f.next);
      assert Siblings(f)[1..] == Siblings(f.next);
    }
  }

  /** The two passes lose no subtree and keep heap order. */
  lemma {:induction false} CombinedKeeps<N>(ts: seq<Forest<N>>)
    requires |ts| >= 2 && (forall i :: 0 <= i < |ts| ==> Tree(ts[i]))
    ensures Items(Combined(ts)) == AllItems(ts) && Nodes(Combined(ts)) == AllNodes(ts)
    ensures AllOrdered(ts) ==> Ordered(Combined(ts))
  {
    var pair, rest := Link(ts[0], ts[1]), ts[2..];
    LinkKeeps(ts[0], ts[1]);
    assert ts[1..][1..] == rest;
    assert AllItems(ts) == Items(pair) + AllItems(rest) && AllNodes(ts) == Nodes(pair) + AllNodes(rest);
    if |ts| == 3 {
      LinkKeeps(pair, ts[2]);
      assert rest[0] == ts[2] && rest[1..] == [];
      assert AllItems(rest) == Items(ts[2]) && AllNodes(rest) == Nodes(ts[2]);
    } else if |ts| > 3 {
      CombinedKeeps(rest);
      LinkKeeps(pair, Combined(rest));
    }
  }

  /** What becomes of the children of a deleted root. */
  function Merged<N>(f: Forest<N>): (t: Forest<N>)
    requires f.Cons?
    ensures Tree(t)
  {
    if f.next.Nil? then f
    else
      assert |Siblings(f.next)| >= 1;
      Combined(Siblings(f))
  }

  lemma MergedKeeps<N>(f: Forest<N>)
    requires f.Cons?
    ensures Items(Merged(f)) == Items(f) && Nodes(Merged(f)) == Nodes(f) && (Ordered(f) ==> Ordered(Merged(f)))
  {
    if f.next.Cons? {
      assert |Siblings(f.next)| >= 1;
      SiblingsKeep(f);
      CombinedKeeps(Siblings(f));
    }
  }

  // ---------- Cutting ----------

  /** The way from the root to a place: whether it went on to the children or to the siblings of each node passed. */
  datatype Path<N> =
    | Top
    | ToChild(rest: Path<N>, node: N, key: int, next: Forest<N>)
    | ToNext(rest: Path<N>, node: N, key: int, child: Forest<N>)

  function Attach<N>(p: Path<N>, f: Forest<N>): Forest<N>
    requires !p.Top?
  {
    if p.ToChild? then Cons(p.node, p.key, f, p.next) else Cons(p.node, p.key, p.child, f)
  }

  function Close<N>(p: Path<N>, f: Forest<N>): Forest<N> {
    if p.Top? then f else Close(p.rest, Attach(p, f))
  }

  ghost function PathNodes<N>(p: Path<N>): set<N> {
    match p
    case Top => {}
    case ToChild(rest, n, _, next) => PathNodes(rest) + {n} + Nodes(next)
    case ToNext(rest, n, _, child) => PathNodes(rest) + {n} + Nodes(child)
  }

  ghost function PathItems<N>(p: Path<N>): set<(N, int)> {
    match p
    case Top => {}
    case ToChild(rest, n, key, next) => PathItems(rest) + {(n, key)} + Items(next)
    case ToNext(rest, n, key, child) => PathItems(rest) + {(n, key)} + Items(child)
  }

  lemma {:induction false} CloseKeeps<N>(p: Path<N>, f: Forest<N>)
    ensures Items(Close(p, f)) == PathItems(p) + Items(f) && Nodes(Close(p, f)) == PathNodes(p) + Nodes(f)
  {
    if !p.Top? {
      CloseKeeps(p.rest, Attach(p, f));
      assert Items(Attach(p, f)) + PathItems(p.rest) == PathItems(p) + Items(f);
      assert Nodes(Attach(p, f)) + PathNodes(p.rest) == PathNodes(p) + Nodes(f);
    }
  }

  lemma {:induction false} PathItemsAreNodes<N>(p: Path<N>)
    ensures forall e :: e in PathItems(p) ==> e.0 in PathNodes(p)
  {
    if p.ToChild? {
      PathItemsAreNodes(p.rest);
      ItemsAreNodes(p.next);
    } else if p.ToNext? {
      PathItemsAreNodes(p.rest);
      ItemsAreNodes(p.child);
    }
  }

  /** f with its first tree taken out. */
  ghost predicate Shortened<N>(f: Forest<N>, g: Forest<N>) {
    (Ordered(f) ==> Ordered(g)) && forall k :: AtLeast(k, f) ==> AtLeast(k, g)
  }

  /** Taking the first tree out of a list of siblings anywhere in a heap leaves a heap. */
  lemma {:induction false} CutOrdered<N>(p: Path<N>, f: Forest<N>, g: Forest<N>)
    requires Ordered(Close(p, f)) && Shortened(f, g)
    ensures Ordered(Close(p, g)) && Ordered(f)
  {
    if !p.Top? {
      CutOrdered(p.rest, Attach(p, f), Attach(p, g));
    }
  }

  /** The heap after the tree f, at the place p, has been cut loose, given a smaller key, and linked to the root. */
  function Decreased<N>(p: Path<N>, f: Forest<N>, key: int): (t: Forest<N>)
    requires f.Cons? && !p.Top? && Tree(Close(p, f.next))
  {
    Link(Close(p, f.next), Cons(f.node, key, f.child, Nil))
  }

  lemma {:induction false} CloseIsTree<N>(p: Path<N>, f: Forest<N>, g: Forest<N>)
    requires !p.Top? && f.Cons? && Tree(Close(p, f))
    ensures Tree(Close(p, g))
  {
    if p.rest.Top? {
      assert Close(p, f) == Attach(p, f) && Close(p, g) == Attach(p, g);
    } else {
      CloseIsTree(p.rest, Attach(p, f), Attach(p, g));
    }
  }

  /** The same at the root, where there is nothing to cut. */
  lemma RekeyedKeeps<N>(f: Forest<N>, g: Forest<N>)
    requires Tree(f) && Ordered(f) && f.node !in Nodes(f.child)
    requires g.Cons? && g == f.(key := g.key) && g.key <= f.key
    ensures Tree(g) && Ordered(g) && Nodes(g) == Nodes(f)
    ensures Items(g) == Items(f) - {(f.node, f.key)} + {(f.node, g.key)}
  {
    AtLeastLower(f.key, g.key, f.child);
    ItemsAreNodes(f.child);
    assert Items(f) == {(f.node, f.key)} + Items(f.child);
  }

  lemma DecreasedApart<N>(p: Path<N>, f: Forest<N>, key: int)
    requires f.Cons? && f.node !in PathNodes(p) && f.node !in Nodes(f.child) && f.node !in Nodes(f.next)
    requires PathNodes(p) !! Nodes(f) && Nodes(f.child) !! Nodes(f.next)
    ensures Nodes(Close(p, f.next)) !! Nodes(Cons(f.node, key, f.child, Nil))
    ensures PathNodes(p) + Nodes(f) == Nodes(Close(p, f))
  {
    CloseKeeps(p, f);
    CloseKeeps(p, f.next);
  }

  /** Decreasing a key changes that one entry and nothing else, and keeps heap order. */
  lemma DecreasedKeeps<N>(p: Path<N>, f: Forest<N>, key: int)
    requires f.Cons? && !p.Top? && Tree(Close(p, f)) && Ordered(Close(p, f)) && key <= f.key
    requires f.node !in PathNodes(p) && f.node !in Nodes(f.child) && f.node !in Nodes(f.next)
    ensures Tree(Close(p, f.next)) && Tree(Decreased(p, f, key)) && Ordered(Decreased(p, f, key))
    ensures Items(Decreased(p, f, key)) == Items(Close(p, f)) - {(f.node, f.key)} + {(f.node, key)}
    ensures Nodes(Decreased(p, f, key)) == Nodes(Close(p, f))
  {
    CloseIsTree(p, f, f.next);
    CutOrdered(p, f, f.next);
    AtLeastLower(f.key, key, f.child);
    var loose := Cons(f.node, key, f.child, Nil);
    LinkKeeps(Close(p, f.next), loose);
    CloseKeeps(p, f);
    CloseKeeps(p, f.next);
    PathItemsAreNodes(p);
    ItemsAreNodes(f.child);
    ItemsAreNodes(f.next);
  }

  ghost predicate AllTrees<N>(ts: seq<Forest<N>>) {
    forall k :: 0 <= k < |ts| ==> Tree(ts[k])
  }

  /** The trees during the first pass: those before i linked pairwise. */
  ghost predicate Paired<N>(ts: seq<Forest<N>>, us: seq<Forest<N>>, i: nat) {
    AllTrees(ts) && |us| == |ts| && i % 2 == 0 && i <= |ts| &&
    (forall k :: i <= k < |ts| ==> us[k] == ts[k]) &&
    (forall k {:trigger us[k]} :: 0 <= k < i && k % 2 == 0 && k + 1 < |ts| ==> us[k] == Link(ts[k], ts[k + 1]))
  }

  lemma LinkedApart<N>(ts: seq<Forest<N>>, i: nat, k: nat, nodes: set<N>, us: seq<Forest<N>>)
    requires i < k < |ts| && Tree(ts[i]) && Apart(ts) && Within(ts, nodes)
    requires us == ts[i := Link(ts[i], ts[k])][k := Nil]
    ensures Apart(us) && Within(us, nodes)
  {
    LinkKeeps(ts[i], ts[k]);
  }

  lemma PairedStep<N>(ts: seq<Forest<N>>, us: seq<Forest<N>>, i: nat)
    requires Paired(ts, us, i) && i + 1 < |ts|
    ensures Tree(us[i]) && Tree(us[i + 1])
    ensures Paired(ts, us[i := Link(us[i], us[i + 1])][i + 1 := Nil], i + 2)
  {}

  lemma CombinedFrom<N>(ts: seq<Forest<N>>, j: nat)
    requires AllTrees(ts) && j + 4 <= |ts|
    ensures Combined(ts[j..]) == Link(Link(ts[j], ts[j + 1]), Combined(ts[j + 2..]))
  {}

  /** The second pass has come back to j: entry j combines the trees from there on, and the pairs before it wait. */
  ghost predicate CombinedAt<N>(ts: seq<Forest<N>>, us: seq<Forest<N>>, j: int) {
    AllTrees(ts) && |us| == |ts| && 0 <= j <= |ts| - 2 && j % 2 == 0 && us[j] == Combined(ts[j..]) &&
    forall k {:trigger us[k]} :: 0 <= k < j && k % 2 == 0 ==> us[k] == Link(ts[k], ts[k + 1])
  }

  lemma CombinedBack<N>(ts: seq<Forest<N>>, us: seq<Forest<N>>, j: int)
    requires CombinedAt(ts, us, j) && j >= 2
    ensures Tree(us[j - 2]) && Tree(us[j])
    ensures CombinedAt(ts, us[j - 2 := Link(us[j - 2], us[j])][j := Nil], j - 2)
  {
    CombinedFrom(ts, j - 2);
    assert Tree(ts[j - 2]) && Tree(ts[j - 1]);
    assert us[j - 2] == Link(ts[j - 2], ts[j - 1]);
  }
}
