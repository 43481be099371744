/** Breadth-first search over a graph given as a map of adjacency lists: what it keeps, and why it ends with shortest
    walks. */
module BreadthFirst {
  import opened Basics

  type Adjacency<V> = map<V, seq<V>>

  ghost predicate Closed<V(!new)>(g: Adjacency<V>) {
    forall u, w :: u in g && w in g[u] ==> w in g
  }

  /** p follows edges of g. */
  ghost predicate Walk<V(!new)>(g: Adjacency<V>, p: seq<V>) {
    |p| > 0 && p[0] in g && forall i :: 0 <= i < |p| - 1 ==> p[i] in g && p[i + 1] in g[p[i]]
  }

  ghost predicate WalkTo<V(!new)>(g: Adjacency<V>, p: seq<V>, s: V, t: V) {
    Walk(g, p) && p[0] == s && p[|p| - 1] == t
  }

  // ---------- The state of the search ----------

  /** What has been reached: its distance, and the vertex it was reached from. */
  datatype Reached<V> = Reached(dist: map<V, nat>, path: map<V, V>)

  /** w was reached along an edge, from a vertex nearer by one. */
  ghost predicate BackLink<V(!new)>(g: Adjacency<V>, r: Reached<V>, w: V) {
    w in r.path && w in r.dist && r.path[w] in r.dist && r.path[w] in g && w in g[r.path[w]] &&
    r.dist[w] == r.dist[r.path[w]] + 1
  }

  /** Every reached vertex but s was reached along an edge from one that is nearer by one. */
  ghost predicate Rooted<V(!new)>(g: Adjacency<V>, s: V, r: Reached<V>) {
    s in g && s in r.dist && r.dist[s] == 0 && r.dist.Keys <= g.Keys && r.path.Keys <= r.dist.Keys && s !in r.path &&
    (forall w {:trigger BackLink(g, r, w)} :: w in r.dist && w != s ==> BackLink(g, r, w))
  }

  /** All neighbours of u are reached, at most one further away. */
  ghost predicate Spread<V(!new)>(g: Adjacency<V>, r: Reached<V>, u: V, k: nat)
    requires u in g && u in r.dist && k <= |g[u]|
  {
    forall i :: 0 <= i < k ==> g[u][i] in r.dist && r.dist[g[u][i]] <= r.dist[u] + 1
  }

  /** The queue holds what is reached but not done with, once each and nearest first, all within one step of its
      head. */
  ghost predicate Queued<V(!new)>(g: Adjacency<V>, r: Reached<V>, q: seq<V>, done: set<V>, head: nat) {
    (forall u :: u in r.dist <==> u in done || u in q) &&
    (forall i :: 0 <= i < |q| ==> q[i] !in done && q[i] in r.dist && r.dist[q[i]] >= head) &&
    (forall i, j :: 0 <= i < j < |q| ==> q[i] != q[j]) &&
    (forall i, j :: 0 <= i < j < |q| && q[i] in r.dist && q[j] in r.dist ==> r.dist[q[i]] <= r.dist[q[j]]) &&
    (forall u :: u in r.dist ==> r.dist[u] <= head + 1) &&
    (forall u :: u in r.dist ==> r.dist[u] < |r.dist|)
  }

  ghost predicate AllSpread<V(!new)>(g: Adjacency<V>, r: Reached<V>, done: set<V>) {
    forall u :: u in done ==> u in g && u in r.dist && Spread(g, r, u, |g[u]|)
  }

  /** Between two rounds of the outer loop. */
  ghost predicate Searching<V(!new)>(g: Adjacency<V>, s: V, r: Reached<V>, q: seq<V>, done: set<V>) {
    Closed(g) && Rooted(g, s, r) && AllSpread(g, r, done) &&
    exists head: nat :: (q != [] && q[0] in r.dist ==> head == r.dist[q[0]]) && Queued(g, r, q, done, head)
  }

  /** In the middle of v's adjacency list: v is being dealt with, and its first k neighbours are done. */
  ghost predicate Visiting<V(!new)>(g: Adjacency<V>, s: V, r: Reached<V>, q: seq<V>, done: set<V>, v: V, k: nat) {
    Closed(g) && Rooted(g, s, r) && v in g && v in r.dist && k <= |g[v]| && v in done &&
    AllSpread(g, r, done - {v}) && Spread(g, r, v, k) && Queued(g, r, q, done, r.dist[v])
  }

  lemma Start<V(!new)>(g: Adjacency<V>, s: V)
    requires Closed(g) && s in g
    ensures Searching(g, s, Reached(map[s := 0], map[]), [s], {})
  {
    var r: Reached<V> := Reached(map[s := 0], map[]);
    assert |r.dist| == 1;
    assert Queued(g, r, [s], {}, 0);
  }

  /** Taking the head off the queue. */
  lemma Dequeue<V(!new)>(g: Adjacency<V>, s: V, r: Reached<V>, q: seq<V>, done: set<V>)
    requires Searching(g, s, r, q, done) && q != []
    ensures q[0] !in done && Visiting(g, s, r, q[1..], done + {q[0]}, q[0], 0)
  {}

  /** The next neighbour of v had been reached before. */
  lemma Skip<V(!new)>(g: Adjacency<V>, s: V, r: Reached<V>, q: seq<V>, done: set<V>, v: V, k: nat)
    requires Visiting(g, s, r, q, done, v, k) && k < |g[v]| && g[v][k] in r.dist
    ensures Visiting(g, s, r, q, done, v, k + 1)
  {}

  function Reach<V>(r: Reached<V>, v: V, w: V): Reached<V>
    requires v in r.dist
  {
    Reached(r.dist[w := r.dist[v] + 1], r.path[w := v])
  }

  /** The next neighbour of v is new: it is reached from v, and goes to the end of the queue. */
  lemma Discover<V(!new)>(g: Adjacency<V>, s: V, r: Reached<V>, q: seq<V>, done: set<V>, v: V, k: nat)
    requires Visiting(g, s, r, q, done, v, k) && k < |g[v]| && g[v][k] !in r.dist
    ensures Visiting(g, s, Reach(r, v, g[v][k]), q + [g[v][k]], done, v, k + 1)
  {
    var w := g[v][k];
    var r' := Reach(r, v, w);
    assert r'.dist.Keys == r.dist.Keys + {w};
    assert |r'.dist| == |r'.dist.Keys| == |r.dist.Keys| + 1;
    assert AllSpread(g, r', done - {v}) by {
      forall u | u in done - {v}
        ensures u in g && u in r'.dist && Spread(g, r', u, |g[u]|)
      {
        assert Spread(g, r, u, |g[u]|);
      }
    }
    forall u | u in r'.dist && u != s
      ensures BackLink(g, r', u)
    {
      if u != w {
        assert BackLink(g, r, u);
      }
    }
    assert Spread(g, r', v, k + 1);
    assert Queued(g, r', q + [w], done, r'.dist[v]);
  }

  /** v's list is finished. */
  lemma Finish<V(!new)>(g: Adjacency<V>, s: V, r: Reached<V>, q: seq<V>, done: set<V>, v: V, k: nat)
    requires Visiting(g, s, r, q, done, v, k) && k == |g[v]|
    ensures Searching(g, s, r, q, done)
  {
    forall u | u in done
      ensures u in g && u in r.dist && Spread(g, r, u, |g[u]|)
    {
      assert u != v ==> u in done - {v};
    }
    var head := if q == [] then r.dist[v] else r.dist[q[0]];
    assert Queued(g, r, q, done, head);
  }

  /** Distances stay below the number of vertices. */
  lemma DistancesBounded<V(!new)>(g: Adjacency<V>, s: V, r: Reached<V>, q: seq<V>, done: set<V>, v: V, k: nat)
    requires Visiting(g, s, r, q, done, v, k)
    ensures forall u :: u in r.dist ==> r.dist[u] < |g|
  {
    SubsetCard(r.dist.Keys, g.Keys);
  }

  // ---------- The end of the search ----------

  ghost predicate StepBack<V(!new)>(r: Reached<V>, w: V)
    requires w in r.path
  {
    w in r.dist && r.path[w] in r.dist && r.dist[w] == r.dist[r.path[w]] + 1
  }

  /** The links back lead, step by step, to a vertex at distance 0. */
  ghost predicate Chained<V(!new)>(r: Reached<V>) {
    forall w {:trigger StepBack(r, w)} :: w in r.path ==> StepBack(r, w)
  }

  /** The chain of links back from t, turned round. */
  function Chain<V(!new)>(r: Reached<V>, t: V): seq<V>
    requires Chained(r) && t in r.dist
    decreases r.dist[t]
  {
    if t in r.path then
      assert StepBack(r, t);
      Chain(r, r.path[t]) + [t]
    else [t]
  }

  lemma RootedIsChained<V(!new)>(g: Adjacency<V>, s: V, r: Reached<V>)
    requires Rooted(g, s, r)
    ensures Chained(r)
  {
    forall w | w in r.path
      ensures StepBack(r, w)
    {
      assert BackLink(g, r, w);
    }
  }

  /** The chain of a reached vertex is a walk of its distance. */
  lemma {:induction false} ChainIsWalk<V(!new)>(g: Adjacency<V>, s: V, r: Reached<V>, t: V)
    requires Rooted(g, s, r) && Chained(r) && t in r.dist
    ensures WalkTo(g, Chain(r, t), s, t) && |Chain(r, t)| == r.dist[t] + 1
    decreases r.dist[t]
  {
    if t != s {
      assert BackLink(g, r, t) && StepBack(r, t);
      ChainIsWalk(g, s, r, r.path[t]);
    }
  }

  /** No walk is shorter than the distance found, and none leads to a vertex that was not reached. */
  lemma {:induction false} NoShorterWalk<V(!new)>(g: Adjacency<V>, s: V, r: Reached<V>, done: set<V>, p: seq<V>)
    requires Searching(g, s, r, [], done) && Walk(g, p) && p[0] == s
    ensures p[|p| - 1] in r.dist && r.dist[p[|p| - 1]] <= |p| - 1
  {
    if |p| > 1 {
      var q := p[..|p| - 1];
      NoShorterWalk(g, s, r, done, q);
      var u := q[|q| - 1];
      assert u == p[|p| - 2] && p[|p| - 1] in g[u];
      var head: nat :| Queued(g, r, [], done, head);
      assert u in done && Spread(g, r, u, |g[u]|);
    }
  }

  /** What the search has found about t is the truth about the walks from s to t. */
  ghost predicate Answered<V(!new)>(g: Adjacency<V>, s: V, r: Reached<V>, t: V) {
    if t in r.dist
    then (exists p :: WalkTo(g, p, s, t) && |p| == r.dist[t] + 1) &&
         forall p :: WalkTo(g, p, s, t) ==> |p| >= r.dist[t] + 1
    else forall p :: !WalkTo(g, p, s, t)
  }

  lemma AllAnswered<V(!new)>(g: Adjacency<V>, s: V, r: Reached<V>, done: set<V>)
    requires Searching(g, s, r, [], done) && Chained(r)
    ensures forall t :: Answered(g, s, r, t)
  {
    forall t
      ensures Answered(g, s, r, t)
    {
      forall p | WalkTo(g, p, s, t)
        ensures t in r.dist && |p| >= r.dist[t] + 1
      {
        NoShorterWalk(g, s, r, done, p);
      }
      if t in r.dist {
        ChainIsWalk(g, s, r, t);
      }
    }
  }

  /** All that is known when the queue has run empty. */
  lemma Finished<V(!new)>(g: Adjacency<V>, s: V, r: Reached<V>, done: set<V>)
    requires Searching(g, s, r, [], done)
    ensures Chained(r) && (forall t :: Answered(g, s, r, t)) && r.dist.Keys <= g.Keys
    ensures forall u :: u in r.dist ==> r.dist[u] < |g|
  {
    RootedIsChained(g, s, r);
    AllAnswered(g, s, r, done);
    var head: nat :| Queued(g, r, [], done, head);
    SubsetCard(r.dist.Keys, g.Keys);
  }

  /** After the search, the chain of links back from t is a walk from s, and there is none shorter. */
  lemma ChainIsShortest<V(!new)>(g: Adjacency<V>, s: V, r: Reached<V>, t: V)
    requires Rooted(g, s, r) && Chained(r) && Answered(g, s, r, t) && t in r.dist
    ensures WalkTo(g, Chain(r, t), s, t) && forall p :: WalkTo(g, p, s, t) ==> |p| >= |Chain(r, t)|
  {
    ChainIsWalk(g, s, r, t);
  }
}
