/** Unweighted shortest paths over vertices that carry their adjacency lists, distances and links back. */
module Graph {
  import opened BreadthFirst

  const INFINITY: int := 2147483647

  class Vertex {
    const name: string
    var adj: seq<Vertex>
    var dist: int
    var path: Vertex?

    constructor (nm: string)
      ensures name == nm && adj == [] && dist == INFINITY && path == null
    {
      name := nm;
      adj := [];
      dist := INFINITY;
      path := null;
    }

    method Reset()
      modifies `dist, `path
      ensures dist == INFINITY && path == null
    {
      dist := INFINITY;
      path := null;
    }
  }

  function Names(vs: seq<Vertex>): (ns: seq<string>)
    ensures |ns| == |vs| && forall i :: 0 <= i < |vs| ==> ns[i] == vs[i].name
  {
    if vs == [] then [] else [vs[0].name] + Names(vs[1..])
  }

  /** Adding two vertices, where they are missing, and an edge from v to w. */
  lemma EdgeAdded(g: Adjacency<string>, g1: Adjacency<string>, g2: Adjacency<string>, h: Adjacency<string>,
                  v: string, w: string)
    requires g1 == (if v in g then g else g[v := []]) && g2 == if w in g1 then g1 else g1[w := []]
    requires h == g2[v := g2[v] + [w]]
    ensures h.Keys == g.Keys + {v, w} && h[v] == (if v in g then g[v] else []) + [w]
    ensures w != v ==> h[w] == if w in g then g[w] else []
    ensures forall n :: n in g && n != v ==> h[n] == g[n]
  {}

  class Graph {
    var vertexMap: map<string, Vertex>
    ghost var reached: Reached<string>
    /** The graph by names. */
    ghost var edges: Adjacency<string>
    ghost var all: set<Vertex>

    constructor ()
      ensures Valid() && edges == map[]
    {
      vertexMap := map[];
      reached := Reached(map[], map[]);
      edges := map[];
      all := {};
    }

    /** Vertex n is filed under its name, and so are its neighbours. */
    ghost predicate Filed(n: string, v: Vertex)
      reads `vertexMap, `edges, v`adj
    {
      v.name == n && n in edges && edges[n] == Names(v.adj) &&
      forall i :: 0 <= i < |v.adj| ==> v.adj[i].name in vertexMap && vertexMap[v.adj[i].name] == v.adj[i]
    }

    /** Vertex n holds what the last search found out about it. */
    ghost predicate Mirrors(n: string, v: Vertex, r: Reached<string>)
      reads `vertexMap, v`dist, v`path
    {
      v.dist == (if n in r.dist then r.dist[n] else INFINITY) &&
      (if n in r.path then r.path[n] in vertexMap && v.path == vertexMap[r.path[n]] else v.path == null)
    }

    ghost predicate AllFiled()
      reads `vertexMap, `edges, `all, all`adj
    {
      edges.Keys == vertexMap.Keys && (forall n :: n in vertexMap ==> vertexMap[n] in all) &&
      (forall n {:trigger Filed(n, vertexMap[n])} :: n in vertexMap ==> Filed(n, vertexMap[n]))
    }

    ghost predicate AllMirror(r: Reached<string>)
      reads `vertexMap, `all, all`dist, all`path
    {
      (forall n :: n in vertexMap ==> vertexMap[n] in all) &&
      (forall n {:trigger Mirrors(n, vertexMap[n], r)} :: n in vertexMap ==> Mirrors(n, vertexMap[n], r))
    }

    ghost predicate Valid()
      reads this, all
    {
      AllFiled() && AllMirror(reached) && Chained(reached) && reached.dist.Keys <= vertexMap.Keys &&
      forall n :: n in reached.dist ==> reached.dist[n] < INFINITY
    }

    /** What the vertices hold: their neighbours in order, and, after a search, its findings. */
    lemma VertexHolds(n: string)
      requires Valid() && n in vertexMap
      ensures n in edges && vertexMap[n].name == n && |edges[n]| == |vertexMap[n].adj|
      ensures forall i :: 0 <= i < |edges[n]| ==> edges[n][i] == vertexMap[n].adj[i].name
      ensures vertexMap[n].dist == if n in reached.dist then reached.dist[n] else 2147483647
      ensures vertexMap[n].path != null <==> n in reached.path
      ensures n in reached.path ==> vertexMap[n].path.name == reached.path[n]
    {
      assert Filed(n, vertexMap[n]) && Mirrors(n, vertexMap[n], reached);
      assert n in reached.path ==> Filed(reached.path[n], vertexMap[reached.path[n]]);
    }

    /** Files a new vertex. */
    method PutVertex(v: Vertex)
      requires Valid() && v.name !in vertexMap && v !in all && v.adj == [] && v.dist == INFINITY && v.path == null
      modifies `vertexMap, `edges, `all
      ensures Valid() && vertexMap == old(vertexMap)[v.name := v] && all == old(all) + {v}
      ensures edges == old(edges)[v.name := []]
    {
      assert v.name in reached.path ==> StepBack(reached, v.name);
      vertexMap := vertexMap[v.name := v];
      edges := edges[v.name := []];
      all := all + {v};
      forall n | n in vertexMap
        ensures Filed(n, vertexMap[n]) && Mirrors(n, vertexMap[n], reached)
      {
        if n != v.name {
          assert old(Filed(n, vertexMap[n])) && old(Mirrors(n, vertexMap[n], reached));
        }
      }
    }

    /** The vertex of that name, which is added if need be. */
    method GetVertex(vertexName: string) returns (v: Vertex)
      requires Valid()
      modifies `vertexMap, `edges, `all
      ensures Valid() && vertexName in vertexMap && v == vertexMap[vertexName] && v.name == vertexName
      ensures edges == if vertexName in old(edges) then old(edges) else old(edges)[vertexName := []]
      ensures all == old(all) + {v} && (v in old(all) || fresh(v))
      ensures forall n :: n in old(vertexMap) ==> n in vertexMap && vertexMap[n] == old(vertexMap)[n]
    {
      if vertexName in vertexMap {
        v := vertexMap[vertexName];
        assert Filed(vertexName, v);
      } else {
        v := new Vertex(vertexName);
        PutVertex(v);
      }
    }

    method AddEdge(sourceName: string, destName: string)
      requires Valid()
      modifies `vertexMap, `edges, `all, all`adj
      ensures Valid() && fresh(all - old(all))
      ensures edges.Keys == old(edges).Keys + {sourceName, destName}
      ensures edges[sourceName] == (if sourceName in old(edges) then old(edges)[sourceName] else []) + [destName]
      ensures destName != sourceName ==>
                edges[destName] == if destName in old(edges) then old(edges)[destName] else []
      ensures forall n :: n in old(edges) && n != sourceName ==> edges[n] == old(edges)[n]
    {
      ghost var g := edges;
      var v := GetVertex(sourceName);
      ghost var g1 := edges;
      var w := GetVertex(destName);
      ghost var g2 := edges;
      AddNeighbour(v, w);
      EdgeAdded(g, g1, g2, edges, sourceName, destName);
    }

    /** v.adj.add(w). */
    method AddNeighbour(v: Vertex, w: Vertex)
      requires AllFiled() && v.name in vertexMap && vertexMap[v.name] == v && w.name in vertexMap &&
               vertexMap[w.name] == w
      modifies v`adj, `edges
      ensures AllFiled() && v.name in old(edges) && edges == old(edges)[v.name := old(edges)[v.name] + [w.name]]
    {
      assert Filed(v.name, v);
      v.adj := v.adj + [w];
      edges := edges[v.name := edges[v.name] + [w.name]];
      forall n | n in vertexMap
        ensures Filed(n, vertexMap[n])
      {
        assert old(Filed(n, vertexMap[n]));
        if n != v.name {
          assert vertexMap[n] != v;
        }
      }
    }

    lemma EdgesClosed()
      requires AllFiled()
      ensures Closed(edges)
    {
      forall u, w | u in edges && w in edges[u]
        ensures w in edges
      {
        assert Filed(u, vertexMap[u]);
        var i :| 0 <= i < |edges[u]| && edges[u][i] == w;
        assert vertexMap[u].adj[i].name == w;
      }
    }

    method ClearAll()
      requires Valid()
      modifies all`dist, all`path, `reached
      ensures Valid() && reached == Reached(map[], map[])
    {
      var rest := vertexMap.Keys;
      while rest != {}
        invariant rest <= vertexMap.Keys
        invariant forall n :: n in vertexMap && n !in rest ==>
                    vertexMap[n].dist == INFINITY && vertexMap[n].path == null
        decreases |rest|
      {
        var n :| n in rest;
        vertexMap[n].Reset();
        rest := rest - {n};
      }
      reached := Reached(map[], map[]);
      forall n | n in vertexMap
        ensures Mirrors(n, vertexMap[n], reached)
      {
      }
    }

    /** The queue as vertices and by names. */
    ghost predicate SameQueue(q: seq<Vertex>, names: seq<string>)
      reads `vertexMap
    {
      |q| == |names| && forall i :: 0 <= i < |q| ==> names[i] in vertexMap && vertexMap[names[i]] == q[i]
    }

    /** w is reached from v. */
    method Found(v: Vertex, w: Vertex)
      requires AllFiled() && AllMirror(reached) && Filed(v.name, v) && Filed(w.name, w) && v.name in reached.dist &&
               v.dist == reached.dist[v.name]
      requires v.name in vertexMap && vertexMap[v.name] == v && w.name in vertexMap && vertexMap[w.name] == w && v != w
      modifies w`dist, w`path, `reached
      ensures reached == Reach(old(reached), v.name, w.name) && AllMirror(reached)
    {
      ghost var r := reached;
      w.dist := v.dist + 1;
      w.path := v;
      reached := Reach(reached, v.name, w.name);
      forall n | n in vertexMap
        ensures Mirrors(n, vertexMap[n], reached)
      {
        assert old(Mirrors(n, vertexMap[n], r)) && Filed(n, vertexMap[n]);
      }
    }

    /** One neighbour of v. */
    method Visit(v: Vertex, k: nat, q: seq<Vertex>, ghost s: string, ghost names: seq<string>, ghost done: set<string>)
      returns (q': seq<Vertex>, ghost names': seq<string>)
      requires AllFiled() && AllMirror(reached) && SameQueue(q, names) && |edges| <= INFINITY
      requires v.name in vertexMap && vertexMap[v.name] == v && k < |v.adj| &&
               Visiting(edges, s, reached, names, done, v.name, k)
      modifies all`dist, all`path, `reached
      ensures AllMirror(reached) && SameQueue(q', names') && Visiting(edges, s, reached, names', done, v.name, k + 1)
    {
      assert Filed(v.name, v);
      var w := v.adj[k];
      assert edges[v.name][k] == w.name;
      assert Filed(w.name, w) && Mirrors(v.name, v, reached) && Mirrors(w.name, w, reached);
      DistancesBounded(edges, s, reached, names, done, v.name, k);
      q', names' := q, names;
      if w.dist == INFINITY {
        Discover(edges, s, reached, names, done, v.name, k);
        Found(v, w);
        q', names' := q + [w], names + [w.name];
      } else {
        Skip(edges, s, reached, names, done, v.name, k);
      }
    }

    /** All of v's neighbours. */
    method VisitAll(v: Vertex, q0: seq<Vertex>, ghost s: string, ghost names0: seq<string>, ghost done: set<string>)
      returns (q: seq<Vertex>, ghost names: seq<string>)
      requires AllFiled() && AllMirror(reached) && SameQueue(q0, names0) && |edges| <= INFINITY
      requires v.name in vertexMap && vertexMap[v.name] == v && Visiting(edges, s, reached, names0, done, v.name, 0)
      requires done <= edges.Keys
      modifies all`dist, all`path, `reached
      ensures Going(q, s, names, done)
    {
      assert Filed(v.name, v);
      q, names := q0, names0;
      for k := 0 to |v.adj|
        invariant AllMirror(reached) && SameQueue(q, names) && Visiting(edges, s, reached, names, done, v.name, k)
      {
        q, names := Visit(v, k, q, s, names, done);
      }
      Finish(edges, s, reached, names, done, v.name, |v.adj|);
    }

    /** Puts the start vertex, at distance 0, into the queue. */
    method Begin(start: Vertex) returns (q: seq<Vertex>)
      requires Valid() && |edges| <= INFINITY && reached == Reached(map[], map[])
      requires start.name in vertexMap && vertexMap[start.name] == start
      modifies start`dist, `reached
      ensures Going(q, start.name, [start.name], {})
    {
      EdgesClosed();
      Start(edges, start.name);
      q := [start];
      start.dist := 0;
      reached := Reached(map[start.name := 0], map[]);
      forall n | n in vertexMap
        ensures Mirrors(n, vertexMap[n], reached)
      {
        assert old(Mirrors(n, vertexMap[n], reached)) && Filed(n, vertexMap[n]);
      }
    }

    /** A search from s whose queue is q, with the names of the vertices in it, and the names of those dealt with. */
    ghost predicate Going(q: seq<Vertex>, s: string, names: seq<string>, done: set<string>)
      reads this, all
    {
      AllFiled() && AllMirror(reached) && SameQueue(q, names) && |edges| <= INFINITY &&
      Searching(edges, s, reached, names, done) && done <= edges.Keys
    }

    /** How many vertices have not been dealt with. */
    ghost function Left(done: set<string>): nat
      reads `edges
    {
      |edges.Keys - done|
    }

    /** One round of the outer loop: takes the head off the queue and visits its neighbours. */
    method Round(q0: seq<Vertex>, ghost s: string, ghost names0: seq<string>, ghost done0: set<string>)
      returns (q: seq<Vertex>, ghost names: seq<string>, ghost done: set<string>)
      requires Going(q0, s, names0, done0) && q0 != []
      modifies all`dist, all`path, `reached
      ensures Going(q, s, names, done) && Left(done) < Left(done0)
    {
      TakeHead(q0, s, names0, done0);
      var v, rest := q0[0], q0[1..];
      ghost var names1 := names0[1..];
      done := done0 + {names0[0]};
      assert Visiting(edges, s, reached, names1, done, v.name, 0) && SameQueue(rest, names1);
      q, names := VisitAll(v, rest, s, names1, done);
    }

    lemma TakeHead(q: seq<Vertex>, s: string, names: seq<string>, done: set<string>)
      requires Going(q, s, names, done) && q != []
      ensures names != [] && q[0].name == names[0] && names[0] in vertexMap && vertexMap[names[0]] == q[0]
      ensures SameQueue(q[1..], names[1..])
      ensures var d := done + {names[0]};
              Visiting(edges, s, reached, names[1..], d, q[0].name, 0) && d <= edges.Keys && Left(d) < Left(done)
    {
      assert Filed(names[0], q[0]);
      Dequeue(edges, s, reached, names, done);
      assert edges.Keys - (done + {names[0]}) == (edges.Keys - done) - {names[0]} && names[0] in edges.Keys - done;
    }

    /** Shortest paths from a start vertex; fails if there is none of that name. */
    method Unweighted(startName: string) returns (found: bool)
      requires Valid() && |edges| <= INFINITY
      modifies all`dist, all`path, `reached
      ensures Valid() && (found <==> startName in vertexMap)
      ensures found ==> Rooted(edges, startName, reached) && forall t :: Answered(edges, startName, reached, t)
      ensures !found ==> reached == Reached(map[], map[])
    {
      ClearAll();
      found := startName in vertexMap;
      if found {
        assert Filed(startName, vertexMap[startName]);
        var q := Begin(vertexMap[startName]);
        ghost var names, done := SearchFrom(q, startName, [startName]);
        SearchOver(startName, names, done);
      }
    }

    /** The outer loop, until the queue runs empty. */
    method SearchFrom(q0: seq<Vertex>, ghost s: string, ghost names0: seq<string>)
      returns (ghost names: seq<string>, ghost done: set<string>)
      requires Going(q0, s, names0, {})
      modifies all`dist, all`path, `reached
      ensures Going([], s, names, done)
    {
      var q := q0;
      names, done := names0, {};
      while q != []
        invariant Going(q, s, names, done)
        decreases Left(done)
      {
        q, names, done := Round(q, s, names, done);
      }
    }

    lemma SearchOver(s: string, names: seq<string>, done: set<string>)
      requires Going([], s, names, done)
      ensures Valid() && Rooted(edges, s, reached) && forall t :: Answered(edges, s, reached, t)
    {
      assert names == [];
      Finished(edges, s, reached, done);
    }

    /** The names from the start to dest, as printPath prints them. */
    method PrintChain(dest: Vertex) returns (names: seq<string>)
      requires Valid() && dest.name in reached.dist && dest.name in vertexMap && vertexMap[dest.name] == dest
      ensures names == Chain(reached, dest.name)
      decreases reached.dist[dest.name]
    {
      assert Mirrors(dest.name, dest, reached);
      names := [];
      if dest.path != null {
        assert StepBack(reached, dest.name) && Filed(reached.path[dest.name], dest.path);
        names := PrintChain(dest.path);
      }
      names := names + [dest.name];
    }

    method PrintPath(destName: string) returns (answer: Answer)
      requires Valid()
      ensures answer ==
              if destName !in vertexMap then NotFound
              else if destName !in reached.dist then Unreachable
              else Path(Chain(reached, destName))
    {
      if destName !in vertexMap {
        return NotFound;
      }
      var w := vertexMap[destName];
      assert Filed(destName, w) && Mirrors(destName, w, reached);
      if w.dist == INFINITY {
        return Unreachable;
      }
      var names := PrintChain(w);
      return Path(names);
    }
  }

  /** What a request prints. */
  datatype Answer = NotFound | Unreachable | Path(names: seq<string>)
}
