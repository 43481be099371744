/** Forests in the leftmost-child, next-sibling form that heaps are linked in. */
module Forests {

  /** A list of sibling trees: the first one's node, key and children, and its further siblings. */
  datatype Forest<N> = Nil | Cons(node: N, key: int, child: Forest<N>, next: Forest<N>)

  ghost function Nodes<N>(f: Forest<N>): set<N> {
    if f.Nil? then {} else {f.node} + Nodes(f.child) + Nodes(f.next)
  }

  ghost function Keys<N>(f: Forest<N>): multiset<int> {
    if f.Nil? then multiset{} else multiset{f.key} + Keys(f.child) + Keys(f.next)
  }

  /** Every node with its key. */
  ghost function Items<N>(f: Forest<N>): set<(N, int)> {
    if f.Nil? then {} else {(f.node, f.key)} + Items(f.child) + Items(f.next)
  }

  /** No sibling in f has a key below k. */
  predicate AtLeast<N>(k: int, f: Forest<N>) {
    f.Nil? || (k <= f.key && AtLeast(k, f.next))
  }

  /** Heap order: no child has a smaller key than its parent. */
  predicate Ordered<N>(f: Forest<N>) {
    f.Nil? || (AtLeast(f.key, f.child) && Ordered(f.child) && Ordered(f.next))
  }

  /** e has a least key. */
  ghost predicate Least<N>(e: (N, int), items: set<(N, int)>) {
    e in items && forall d :: d in items ==> e.1 <= d.1
  }

  predicate Tree<N>(f: Forest<N>) {
    f.Cons? && f.next.Nil?
  }

  lemma {:induction false} ItemsAreNodes<N>(f: Forest<N>)
    ensures forall e :: e in Items(f) ==> e.0 in Nodes(f)
  {
    if f.Cons? {
      ItemsAreNodes(f.child);
      ItemsAreNodes(f.next);
    }
  }

  lemma {:induction false} OrderedAtLeast<N>(k: int, f: Forest<N>)
    requires Ordered(f) && AtLeast(k, f)
    ensures forall e :: e in Items(f) ==> k <= e.1
  {
    if f.Cons? {
      AtLeastLower(f.key, k, f.child);
      OrderedAtLeast(k, f.child);
      OrderedAtLeast(k, f.next);
    }
  }

  lemma {:induction false} AtLeastLower<N>(k: int, low: int, f: Forest<N>)
    requires AtLeast(k, f) && low <= k
    ensures AtLeast(low, f)
  {
    if f.Cons? {
      AtLeastLower(k, low, f.next);
    }
  }

  /** In heap order the root of a tree holds a least key. */
  lemma RootIsLeast<N>(t: Forest<N>)
    requires Tree(t) && Ordered(t)
    ensures Least((t.node, t.key), Items(t))
  {
    OrderedAtLeast(t.key, t);
  }

  lemma {:induction false} KeysAtLeast<N>(k: int, f: Forest<N>)
    requires Ordered(f) && AtLeast(k, f)
    ensures forall e :: e in Keys(f) ==> k <= e
  {
    if f.Cons? {
      AtLeastLower(f.key, k, f.child);
      KeysAtLeast(k, f.child);
      KeysAtLeast(k, f.next);
    }
  }

  // ---------- Sequences of trees ----------

  ghost predicate Apart<N>(ts: seq<Forest<N>>) {
    forall i, j :: 0 <= i < j < |ts| ==> Nodes(ts[i]) !! Nodes(ts[j])
  }

  /** Every tree's nodes are among the given ones. */
  ghost predicate Within<N>(ts: seq<Forest<N>>, nodes: set<N>) {
    forall k :: 0 <= k < |ts| ==> Nodes(ts[k]) <= nodes
  }
}
