/** The depth-first traversal of graphs.cpp over a graph whose vertices
    are the indices `0 .. VertexCount()` and whose edges are adjacency
    lists: DepthFirstSearchHelper marks a vertex in `visited`, appends it
    to `path` and recurses into its neighbours in list order. */
module Graphs {
  import opened DynamicArrays

  /** Graph<V, E> specialised to `size_t` vertices and adjacency lists:
      `edges[v]` lists the neighbours of vertex `v`. */
  datatype Graph = Graph(vertices: seq<nat>, edges: seq<seq<nat>>) {
    /** Vertex(i): the `i`-th vertex. */
    function Vertex(i: nat): (v: nat)
      requires i < |vertices|
      ensures v in vertices
    {
      vertices[i]
    }

    /** Edge(i): the adjacency list of vertex `i`. */
    function Edge(i: nat): (e: seq<nat>)
      requires i < |edges|
      ensures e in edges
    {
      edges[i]
    }

    /** VertexCount(): the number of vertices. */
    function VertexCount(): (n: nat)
      ensures n == |vertices|
    {
      |vertices|
    }

    /** EdgeCount(): the number of adjacency lists. */
    function EdgeCount(): (n: nat)
      ensures n == |edges|
    {
      |edges|
    }
  }

  /** What the traversal needs of a graph: a vertex 0 that is used as the
      start, an adjacency list for every vertex, and neighbours that are
      vertices, since vertices index `visited` and `edges`. */
  ghost predicate WellFormed(g: Graph)
  {
    0 < |g.vertices| <= |g.edges| && g.vertices[0] < |g.vertices| &&
    forall v, m :: 0 <= v < |g.vertices| && 0 <= m < |g.edges[v]| ==> g.edges[v][m] < |g.vertices|
  }

  // ---------------------------------------------------------------------
  // Walks and reachability

  /** `w` follows edges: each vertex after the first is a neighbour of the
      one before it. */
  ghost predicate IsWalk(g: Graph, w: seq<nat>)
  {
    0 < |w| && forall k :: 0 <= k < |w| - 1 ==> w[k] < |g.edges| && w[k + 1] in g.edges[w[k]]
  }

  /** `v` can be reached from `u` along edges. */
  ghost predicate Reachable(g: Graph, u: nat, v: nat)
  {
    exists w :: IsWalk(g, w) && w[0] == u && w[|w| - 1] == v
  }

  /** Every vertex reaches itself. */
  lemma ReachSelf(g: Graph, v: nat)
    ensures Reachable(g, v, v)
  {
    assert IsWalk(g, [v]);
  }

  /** What a neighbour of `v` reaches, `v` reaches. */
  lemma ReachStep(g: Graph, v: nat, u: nat, x: nat)
    requires v < |g.edges| && u in g.edges[v] && Reachable(g, u, x)
    ensures Reachable(g, v, x)
  {
    var w :| IsWalk(g, w) && w[0] == u && w[|w| - 1] == x;
    var w' := [v] + w;
    forall k | 0 <= k < |w'| - 1
      ensures w'[k] < |g.edges| && w'[k + 1] in g.edges[w'[k]]
    {
      if k > 0 {
        assert w'[k] == w[k - 1] && w'[k + 1] == w[k];
      }
    }
    assert IsWalk(g, w') && w'[0] == v && w'[|w'| - 1] == x;
  }

  // ---------------------------------------------------------------------
  // The traversal as a value

  /** The number of unvisited vertices. */
  ghost function CountFalse(s: seq<bool>): (n: nat)
    ensures n <= |s|
  {
    if s == [] then 0 else (if s[0] then 0 else 1) + CountFalse(s[1..])
  }

  /** `t` has every mark `s` has, and possibly more. */
  ghost predicate Grows(s: seq<bool>, t: seq<bool>)
  {
    |s| == |t| && forall i :: 0 <= i < |s| && s[i] ==> t[i]
  }

  /** Marking more vertices leaves no more unvisited. */
  lemma {:induction false} GrowsCounts(s: seq<bool>, t: seq<bool>)
    requires Grows(s, t)
    ensures CountFalse(t) <= CountFalse(s)
    decreases |s|
  {
    if s != [] {
      assert Grows(s[1..], t[1..]) by {
        forall i | 0 <= i < |s| - 1 && s[1..][i]
          ensures t[1..][i]
        {
          assert s[1..][i] == s[i + 1] && t[1..][i] == t[i + 1];
        }
      }
      GrowsCounts(s[1..], t[1..]);
    }
  }

  /** Marking an unvisited vertex leaves one fewer unvisited. */
  lemma {:induction false} MarkCounts(s: seq<bool>, i: nat)
    requires i < |s| && !s[i]
    ensures CountFalse(s[i := true]) < CountFalse(s)
    decreases |s|
  {
    if i > 0 {
      assert s[i := true][1..] == s[1..][i - 1 := true];
      MarkCounts(s[1..], i - 1);
    }
  }

  /** DepthFirstSearchHelper(vertex) as a value: from the marks `visited`
      and the path so far, the marks and path it leaves. */
  ghost function Visit(g: Graph, v: nat, visited: seq<bool>, path: seq<nat>): (r: (seq<bool>, seq<nat>))
    requires WellFormed(g) && |visited| == |g.vertices| && v < |visited|
    ensures Grows(visited, r.0)
    decreases CountFalse(visited), 0
  {
    if visited[v] then (visited, path)
    else
      MarkCounts(visited, v);
      Neighbours(g, v, 0, visited[v := true], path + [v])
  }

  /** The loop of DepthFirstSearchHelper over the neighbours of `v` from
      the `j`-th on. */
  ghost function Neighbours(g: Graph, v: nat, j: nat, visited: seq<bool>, path: seq<nat>): (r: (seq<bool>, seq<nat>))
    requires WellFormed(g) && |visited| == |g.vertices| && v < |visited| && j <= |g.edges[v]|
    ensures Grows(visited, r.0)
    decreases CountFalse(visited), 1, |g.edges[v]| - j
  {
    if j == |g.edges[v]| then (visited, path)
    else
      var r1 := Visit(g, g.edges[v][j], visited, path);
      GrowsCounts(visited, r1.0);
      Neighbours(g, v, j + 1, r1.0, r1.1)
  }

  /** DepthFirstSearch as a value: the path of a traversal from vertex 0
      with nothing marked. The target plays no part. */
  ghost function DepthFirstOrder(g: Graph): (path: seq<nat>)
    requires WellFormed(g)
    ensures 0 < |path| && path[0] == g.vertices[0] && Distinct(path)
  {
    var V0 := seq(|g.vertices|, _ => false);
    VisitExplores(g, g.vertices[0], V0, []);
    assert Visit(g, g.vertices[0], V0, []).1[0..] == Visit(g, g.vertices[0], V0, []).1;
    Visit(g, g.vertices[0], V0, []).1
  }

  // ---------------------------------------------------------------------
  // What a traversal does

  /** No vertex occurs twice. */
  ghost predicate Distinct(s: seq<nat>)
  {
    forall i, j :: 0 <= i < j < |s| ==> s[i] != s[j]
  }

  /** Going from marks `V` and path `P` to `V2` and `P2`, a traversal
      rooted at `root` only appends to the path, appends each vertex at most
      once and only unmarked ones, marks exactly what it appends, and
      appends only vertices `root` reaches. */
  ghost predicate Explores(g: Graph, root: nat, V: seq<bool>, P: seq<nat>, V2: seq<bool>, P2: seq<nat>)
  {
    Grows(V, V2) && |P| <= |P2| && P2[..|P|] == P && Distinct(P2[|P|..]) &&
    (forall k :: |P| <= k < |P2| ==> P2[k] < |V| && !V[P2[k]] && Reachable(g, root, P2[k])) &&
    (forall x :: 0 <= x < |V| ==> (V2[x] <==> V[x] || x in P2[|P|..]))
  }

  /** Every neighbour of a vertex appended at index `from` or later is
      marked in `V`. */
  ghost predicate Closed(g: Graph, V: seq<bool>, P: seq<nat>, from: nat)
  {
    forall k, m :: from <= k < |P| && P[k] < |g.edges| && 0 <= m < |g.edges[P[k]]| ==>
      g.edges[P[k]][m] < |V| && V[g.edges[P[k]][m]]
  }

  /** The closure of a traversal survives a later one appended to it. */
  lemma ClosedCompose(g: Graph, V1: seq<bool>, P1: seq<nat>, V2: seq<bool>, P2: seq<nat>, from: nat)
    requires Closed(g, V1, P1, from) && Closed(g, V2, P2, |P1|) && Grows(V1, V2)
    requires |P1| <= |P2| && P2[..|P1|] == P1
    ensures Closed(g, V2, P2, from)
  {
    forall k, m | from <= k < |P2| && P2[k] < |g.edges| && 0 <= m < |g.edges[P2[k]]|
      ensures g.edges[P2[k]][m] < |V2| && V2[g.edges[P2[k]][m]]
    {
      if k < |P1| {
        assert P2[k] == P2[..|P1|][k] == P1[k];
      }
    }
  }

  /** Two traversals in turn, from the same root, are one traversal. */
  lemma ExploresCompose(g: Graph, root: nat, V0: seq<bool>, P0: seq<nat>, V1: seq<bool>, P1: seq<nat>, V2: seq<bool>, P2: seq<nat>)
    requires Explores(g, root, V0, P0, V1, P1) && Explores(g, root, V1, P1, V2, P2)
    ensures Explores(g, root, V0, P0, V2, P2)
  {
    assert P2[..|P1|] == P1;
    assert P2[..|P0|] == P1[..|P0|];
    var A1, A2 := P1[|P0|..], P2[|P1|..];
    assert P2[|P0|..] == A1 + A2;
    forall i, j | 0 <= i < j < |A1 + A2|
      ensures (A1 + A2)[i] != (A1 + A2)[j]
    {
      if i < |A1| <= j {
        assert (A1 + A2)[i] == P1[|P0| + i] && V1[P1[|P0| + i]];
        assert (A1 + A2)[j] == P2[|P1| + j - |A1|];
      }
    }
    forall k | |P0| <= k < |P2|
      ensures P2[k] < |V0| && !V0[P2[k]] && Reachable(g, root, P2[k])
    {
      if k < |P1| {
        assert P2[k] == P1[k];
      }
    }
    forall x | 0 <= x < |V0|
      ensures V2[x] <==> V0[x] || x in P2[|P0|..]
    {
      assert x in P2[|P0|..] <==> x in A1 || x in A2;
    }
  }

  /** A traversal rooted at a neighbour of `v` is one rooted at `v`. */
  lemma ExploresWiden(g: Graph, v: nat, u: nat, V: seq<bool>, P: seq<nat>, V2: seq<bool>, P2: seq<nat>)
    requires v < |g.edges| && u in g.edges[v] && Explores(g, u, V, P, V2, P2)
    ensures Explores(g, v, V, P, V2, P2)
  {
    forall k | |P| <= k < |P2|
      ensures Reachable(g, v, P2[k])
    {
      ReachStep(g, v, u, P2[k]);
    }
  }

  /** Marking and appending the root is a traversal from it. */
  lemma ExploresStart(g: Graph, v: nat, V: seq<bool>, P: seq<nat>)
    requires v < |V| && !V[v]
    ensures Explores(g, v, V, P, V[v := true], P + [v])
  {
    ReachSelf(g, v);
    assert (P + [v])[..|P|] == P && (P + [v])[|P|..] == [v];
  }

  /** A vertex already marked is a traversal that does nothing. */
  lemma ExploresNothing(g: Graph, v: nat, V: seq<bool>, P: seq<nat>)
    ensures Explores(g, v, V, P, V, P)
  {
    assert P[..|P|] == P && P[|P|..] == [];
  }

  /** A traversal rooted at the neighbour `u` of `v` followed by one
      rooted at `v` is one rooted at `v`, and both closures compose. */
  lemma ExploresThenNeighbours(g: Graph, v: nat, u: nat, V: seq<bool>, P: seq<nat>,
                               V1: seq<bool>, P1: seq<nat>, V2: seq<bool>, P2: seq<nat>)
    requires v < |g.edges| && u in g.edges[v]
    requires Explores(g, u, V, P, V1, P1) && Closed(g, V1, P1, |P|)
    requires Explores(g, v, V1, P1, V2, P2) && Closed(g, V2, P2, |P1|)
    ensures Explores(g, v, V, P, V2, P2) && Closed(g, V2, P2, |P|)
  {
    ExploresWiden(g, v, u, V, P, V1, P1);
    ExploresCompose(g, v, V, P, V1, P1, V2, P2);
    ClosedCompose(g, V1, P1, V2, P2, |P|);
  }

  /** Visit explores from `v`, leaves `v` and the neighbours of everything
      it appends marked, and appends `v` first when it was unmarked. */
  lemma {:induction false} VisitExplores(g: Graph, v: nat, V: seq<bool>, P: seq<nat>)
    requires WellFormed(g) && |V| == |g.vertices| && v < |V|
    ensures Explores(g, v, V, P, Visit(g, v, V, P).0, Visit(g, v, V, P).1)
    ensures Closed(g, Visit(g, v, V, P).0, Visit(g, v, V, P).1, |P|)
    ensures Visit(g, v, V, P).0[v]
    ensures !V[v] ==> |P| < |Visit(g, v, V, P).1| && Visit(g, v, V, P).1[|P|] == v
    decreases CountFalse(V), 0
  {
    if V[v] {
      ExploresNothing(g, v, V, P);
    } else {
      var V1, P1 := V[v := true], P + [v];
      MarkCounts(V, v);
      NeighboursExplore(g, v, 0, V1, P1);
      var r := Visit(g, v, V, P);
      ExploresStart(g, v, V, P);
      ExploresCompose(g, v, V, P, V1, P1, r.0, r.1);
      assert r.1[..|P1|] == P1;
      assert r.1[|P|] == P1[|P|];
    }
  }

  /** Neighbours explores from `v` and leaves the neighbours `j` on, and
      the neighbours of everything it appends, marked. */
  lemma {:induction false} NeighboursExplore(g: Graph, v: nat, j: nat, V: seq<bool>, P: seq<nat>)
    requires WellFormed(g) && |V| == |g.vertices| && v < |V| && j <= |g.edges[v]|
    ensures Explores(g, v, V, P, Neighbours(g, v, j, V, P).0, Neighbours(g, v, j, V, P).1)
    ensures Closed(g, Neighbours(g, v, j, V, P).0, Neighbours(g, v, j, V, P).1, |P|)
    ensures forall m :: j <= m < |g.edges[v]| ==> Neighbours(g, v, j, V, P).0[g.edges[v][m]]
    decreases CountFalse(V), 1, |g.edges[v]| - j
  {
    if j == |g.edges[v]| {
      ExploresNothing(g, v, V, P);
    } else {
      var u := g.edges[v][j];
      var r1 := Visit(g, u, V, P);
      VisitExplores(g, u, V, P);
      GrowsCounts(V, r1.0);
      NeighboursExplore(g, v, j + 1, r1.0, r1.1);
      var r2 := Neighbours(g, v, j, V, P);
      ExploresThenNeighbours(g, v, u, V, P, r1.0, r1.1, r2.0, r2.1);
      forall m | j <= m < |g.edges[v]|
        ensures r2.0[g.edges[v][m]]
      {
        if m == j {
          assert r1.0[u];
        }
      }
    }
  }

  /** Once the marked vertices are exactly the vertices of a path closed
      under edges, every walk from a marked vertex stays marked. */
  lemma {:induction false} WalkStaysMarked(g: Graph, V: seq<bool>, P: seq<nat>, w: seq<nat>)
    requires WellFormed(g) && |V| == |g.vertices| && Closed(g, V, P, 0)
    requires forall x :: 0 <= x < |V| ==> (V[x] <==> x in P)
    requires IsWalk(g, w) && w[0] < |V| && V[w[0]]
    ensures w[|w| - 1] < |V| && V[w[|w| - 1]]
    decreases |w|
  {
    if |w| > 1 {
      var k :| 0 <= k < |P| && P[k] == w[0];
      assert w[1] in g.edges[w[0]];
      var m :| 0 <= m < |g.edges[w[0]]| && g.edges[w[0]][m] == w[1];
      assert IsWalk(g, w[1..]);
      WalkStaysMarked(g, V, P, w[1..]);
    }
  }

  /** A closed traversal from `start` that began with nothing marked and
      an empty path has appended exactly the vertices `start` reaches. */
  lemma ExploredFromNothing(g: Graph, start: nat, V0: seq<bool>, V: seq<bool>, P: seq<nat>)
    requires WellFormed(g) && |V0| == |g.vertices|
    requires forall x :: 0 <= x < |V0| ==> !V0[x]
    requires Explores(g, start, V0, [], V, P) && Closed(g, V, P, 0) && start < |V| && V[start]
    ensures Distinct(P) && (forall x :: 0 <= x < |V| ==> (V[x] <==> x in P))
    ensures forall x :: x in P ==> Reachable(g, start, x)
    ensures forall x :: Reachable(g, start, x) ==> x in P
  {
    assert P[0..] == P;
    forall x | x in P
      ensures Reachable(g, start, x)
    {
      var k :| 0 <= k < |P| && P[k] == x;
    }
    forall x | Reachable(g, start, x)
      ensures x in P
    {
      var w :| IsWalk(g, w) && w[0] == start && w[|w| - 1] == x;
      WalkStaysMarked(g, V, P, w);
    }
  }

  /** The traversal from vertex 0 with nothing marked: its path starts at
      vertex 0, holds no vertex twice, holds exactly the vertices vertex 0
      reaches, and its marks are exactly the vertices on it. */
  lemma DepthFirstOrderCorrect(g: Graph)
    requires WellFormed(g)
    ensures var start, path := g.vertices[0], DepthFirstOrder(g);
      var visited := Visit(g, start, seq(|g.vertices|, _ => false), []).0;
      0 < |path| && path[0] == start && Distinct(path) &&
      (forall x :: x in path ==> Reachable(g, start, x)) &&
      (forall x :: Reachable(g, start, x) ==> x in path) &&
      (forall x :: 0 <= x < |g.vertices| ==> (visited[x] <==> x in path))
  {
    var start, V0 := g.vertices[0], seq(|g.vertices|, _ => false);
    var r := Visit(g, start, V0, []);
    VisitExplores(g, start, V0, []);
    ExploredFromNothing(g, start, V0, r.0, r.1);
  }

  // ---------------------------------------------------------------------
  // The traversal as written

  /** DepthFirstSearchHelper: if `vertex` is marked, returns; otherwise
      marks it, appends it to `path` and recurses into each of its
      neighbours in order. `target` is never read. */
  method DepthFirstSearchHelper(graph: Graph, vertex: nat, target: nat, visited: array<bool>, path: DynamicArray<nat>)
    requires WellFormed(graph) && visited.Length == graph.VertexCount() && vertex < visited.Length
    requires path.Valid() && 0 < path.capacity
    modifies visited, path, path.data
    ensures path.Valid() && 0 < path.capacity && (path.data == old(path.data) || fresh(path.data))
    ensures (visited[..], path.Contents()) == Visit(graph, vertex, old(visited[..]), old(path.Contents()))
    decreases CountFalse(visited[..]), 0
  {
    if visited[vertex] {
      return;
    }
    ghost var V := visited[..];
    visited[vertex] := true;
    var single := new nat[1] [vertex];
    path.Add(single, 1);
    ghost var V1, P1 := visited[..], path.Contents();
    assert V1 == V[vertex := true] && P1 == old(path.Contents()) + [vertex];
    MarkCounts(V, vertex);
    var neighbours := graph.Edge(vertex);
    for j := 0 to |neighbours|
      invariant path.Valid() && 0 < path.capacity && (path.data == old(path.data) || fresh(path.data))
      invariant Grows(V1, visited[..])
      invariant Neighbours(graph, vertex, j, visited[..], path.Contents()) == Neighbours(graph, vertex, 0, V1, P1)
    {
      GrowsCounts(V1, visited[..]);
      DepthFirstSearchHelper(graph, neighbours[j], target, visited, path);
    }
  }

  /** DepthFirstSearch: a traversal from vertex 0 with nothing marked; the
      path it returns is DepthFirstOrder, whatever the target. */
  method DepthFirstSearch(graph: Graph, target: nat) returns (path: DynamicArray<nat>)
    requires WellFormed(graph)
    ensures path.Valid() && path.Contents() == DepthFirstOrder(graph)
  {
    var visited := new bool[graph.VertexCount()](_ => false);
    path := new DynamicArray<nat>();
    assert visited[..] == seq(|graph.vertices|, _ => false);
    DepthFirstSearchHelper(graph, graph.Vertex(0), target, visited, path);
  }
}
