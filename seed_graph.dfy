/**
 * The Graph class of the depth-first and breadth-first search entries of the
 * algorithm seed: an adjacency list keyed by vertex, addVertex, addEdge
 * (which pushes each end onto the other's list only when that list exists),
 * a recursive dfs and a queue-based bfs.
 */
module SeedGraph {
  import opened Digraph
  import GraphListBfs

  /** The adjacency list after addEdge(a, b): each push happens only when the list exists. */
  function WithEdge(g: Adjacency<int>, a: int, b: int): (h: Adjacency<int>)
    ensures h.Keys == g.Keys
  {
    var g1 := if a in g then g[a := g[a] + [b]] else g;
    if b in g1 then g1[b := g1[b] + [a]] else g1
  }

  /** Every edge has its reverse edge. */
  ghost predicate Symmetric(g: Adjacency<int>)
  {
    forall u, w :: u in g && w in g[u] ==> w in g && u in g[w]
  }

  /** Adding an edge between two listed vertices, or two unlisted ones, keeps the lists symmetric. */
  lemma WithEdgeSymmetric(g: Adjacency<int>, a: int, b: int)
    requires Symmetric(g) && (a in g <==> b in g)
    ensures Symmetric(WithEdge(g, a, b))
  {
    var h := WithEdge(g, a, b);
    forall u, w | u in h && w in h[u] ensures w in h && u in h[w] {
      if a in g && b in g {
        assert h[a] == g[a] + [b] || a == b;
        if w !in g[u] {
          assert (u == a && w == b) || (u == b && w == a);
        }
      }
    }
  }

  /** addEdge with only one end listed leaves a one-way edge: the lists stop being symmetric. */
  lemma WithEdgeOneSided()
    ensures Symmetric(map[0 := []])
    ensures !Symmetric(WithEdge(map[0 := []], 0, 1))
  {
    var h := WithEdge(map[0 := []], 0, 1);
    assert 0 in h && 1 !in h && h[0] == [1];
    assert 1 in h[0];
  }

  /** Every member of F has all its successors in S. */
  ghost predicate Closed(g: Adjacency<int>, F: set<int>, S: set<int>)
  {
    forall u, w :: u in F && w in Succ(g, u) ==> w in S
  }

  ghost predicate AllReachable(g: Adjacency<int>, s: int, S: set<int>)
  {
    forall v :: v in S ==> Reachable(g, s, v)
  }

  /** result records exactly the visited vertices, each once. */
  ghost predicate Records(result: seq<int>, visited: set<int>)
  {
    NoDup(result) && forall v :: v in visited <==> v in result
  }

  lemma ReachableStep(g: Adjacency<int>, s: int, u: int, w: int)
    requires Reachable(g, s, u) && w in Succ(g, u)
    ensures Reachable(g, s, w)
  {
    var p :| WalkFromTo(g, p, s, u);
    WalkSnoc(g, p, s, u, w);
  }

  lemma SubsetCard(a: set<int>, b: set<int>)
    requires a <= b
    ensures |a| <= |b|
  {
    assert b == a + (b - a);
  }

  /** Recording one more unvisited vertex. */
  lemma RecordsSnoc(result: seq<int>, visited: set<int>, v: int)
    requires Records(result, visited) && v !in visited
    ensures Records(result + [v], visited + {v})
  {
  }

  /**
   * dfsHelper(vertex): mark vertex visited, record it, then visit each
   * unvisited neighbour in list order. The open set holds the vertices whose
   * calls are still running; every other visited vertex is finished, with
   * all its successors visited.
   */
  method DfsHelper(g: Adjacency<int>, start: int, vertex: int, visited0: set<int>, result0: seq<int>,
                   ghost open: set<int>, ghost bound: set<int>)
    returns (visited: set<int>, result: seq<int>)
    requires vertex !in visited0 && vertex in bound && visited0 <= bound && Vertices(g) <= bound
    requires open <= visited0
    requires Records(result0, visited0) && Closed(g, visited0 - open, visited0)
    requires AllReachable(g, start, visited0) && Reachable(g, start, vertex)
    ensures visited0 + {vertex} <= visited <= bound
    ensures Records(result, visited) && Closed(g, visited - open, visited)
    ensures AllReachable(g, start, visited)
    ensures |result| > |result0| && result[|result0|] == vertex
    ensures forall i :: 0 <= i < |result0| ==> result[i] == result0[i]
    decreases |bound| - |visited0|
  {
    SubsetCard(visited0 + {vertex}, bound);
    RecordsSnoc(result0, visited0, vertex);
    visited := visited0 + {vertex};
    result := result0 + [vertex];
    var neighbors := Succ(g, vertex);
    var i := 0;
    while i < |neighbors|
      invariant i <= |neighbors|
      invariant visited0 + {vertex} <= visited <= bound
      invariant Records(result, visited) && Closed(g, visited - (open + {vertex}), visited)
      invariant AllReachable(g, start, visited)
      invariant forall j :: 0 <= j < i ==> neighbors[j] in visited
      invariant |result| > |result0| && result[|result0|] == vertex
      invariant forall j :: 0 <= j < |result0| ==> result[j] == result0[j]
    {
      var neighbor := neighbors[i];
      if neighbor !in visited {
        ReachableStep(g, start, vertex, neighbor);
        SuccInVertices(g, vertex, neighbor);
        SubsetCard(visited0 + {vertex}, visited);
        ghost var result1 := result;
        visited, result := DfsHelper(g, start, neighbor, visited, result, open + {vertex}, bound);
        assert result[|result0|] == result1[|result0|];
      }
      i := i + 1;
    }
    assert forall w :: w in Succ(g, vertex) ==> w in visited;
  }

  /** dfs(start) visits start first, lists no vertex twice, and lists exactly the vertices reachable from start. */
  method DfsFrom(g: Adjacency<int>, start: int) returns (result: seq<int>)
    ensures |result| > 0 && result[0] == start
    ensures NoDup(result)
    ensures forall v :: v in result <==> Reachable(g, start, v)
  {
    assert WalkFromTo(g, [start], start, start);
    var visited;
    visited, result := DfsHelper(g, start, start, {}, [], {}, Vertices(g) + {start});
    assert visited - {} == visited;
    assert forall u, w :: u in visited && w in Succ(g, u) ==> w in visited;
    forall v | Reachable(g, start, v) ensures v in result {
      var p :| WalkFromTo(g, p, start, v);
      ClosedHoldsWalk(g, visited, p, start, v);
    }
  }

  class Graph {
    var adjacencyList: Adjacency<int>

    constructor()
      ensures adjacencyList == map[]
    {
      adjacencyList := map[];
    }

    /** addVertex gives vertex an empty list unless it already has one. */
    method AddVertex(vertex: int)
      modifies this
      ensures vertex in old(adjacencyList) ==> adjacencyList == old(adjacencyList)
      ensures vertex !in old(adjacencyList) ==> adjacencyList == old(adjacencyList)[vertex := []]
    {
      if vertex !in adjacencyList {
        adjacencyList := adjacencyList[vertex := []];
      }
    }

    method AddEdge(vertex1: int, vertex2: int)
      modifies this
      ensures adjacencyList == WithEdge(old(adjacencyList), vertex1, vertex2)
    {
      if vertex1 in adjacencyList {
        adjacencyList := adjacencyList[vertex1 := adjacencyList[vertex1] + [vertex2]];
      }
      if vertex2 in adjacencyList {
        adjacencyList := adjacencyList[vertex2 := adjacencyList[vertex2] + [vertex1]];
      }
    }

    method Dfs(start: int) returns (result: seq<int>)
      ensures |result| > 0 && result[0] == start && NoDup(result)
      ensures forall v :: v in result <==> Reachable(adjacencyList, start, v)
    {
      result := DfsFrom(adjacencyList, start);
    }

    method Bfs(start: int) returns (result: seq<int>)
      ensures |result| > 0 && result[0] == start && NoDup(result)
      ensures forall v :: v in result <==> Reachable(adjacencyList, start, v)
      ensures forall i, j, d: nat :: 0 <= i < j < |result| && ReachableWithin(adjacencyList, start, result[j], d) ==>
                ReachableWithin(adjacencyList, start, result[i], d)
    {
      result := GraphListBfs.Bfs(adjacencyList, start);
    }
  }

  /** addEdge(a, b) between two distinct listed vertices extends exactly their two lists. */
  lemma WithEdgeBetween(g: Adjacency<int>, a: int, b: int)
    requires a in g && b in g && a != b
    ensures WithEdge(g, a, b) == g[a := g[a] + [b]][b := g[b] + [a]]
  {
  }

  /** The lists of the fixture graph: 0-1, 0-2, 1-3, 2-4 and 2-5, each edge both ways. */
  ghost predicate FixtureLists(g: Adjacency<int>)
  {
    && 0 in g && 1 in g && 2 in g && 3 in g && 4 in g && 5 in g
    && g[0] == [1, 2] && g[1] == [0, 3] && g[2] == [0, 4, 5] && g[3] == [1] && g[4] == [2] && g[5] == [2]
  }

  /** The six vertices and five edges the dfs and bfs fixtures build. */
  lemma BuildFixture()
    ensures FixtureLists(WithEdge(WithEdge(WithEdge(WithEdge(WithEdge(
              map[0 := [], 1 := [], 2 := [], 3 := [], 4 := [], 5 := []], 0, 1), 0, 2), 1, 3), 2, 4), 2, 5))
  {
    var g0: Adjacency<int> := map[0 := [], 1 := [], 2 := [], 3 := [], 4 := [], 5 := []];
    var g1 := WithEdge(g0, 0, 1);
    WithEdgeBetween(g0, 0, 1);
    assert g1[0] == [1] && g1[1] == [0];
    var g2 := WithEdge(g1, 0, 2);
    WithEdgeBetween(g1, 0, 2);
    assert g2[0] == [1, 2] && g2[2] == [0];
    var g3 := WithEdge(g2, 1, 3);
    WithEdgeBetween(g2, 1, 3);
    assert g3[1] == [0, 3] && g3[3] == [1];
    var g4 := WithEdge(g3, 2, 4);
    WithEdgeBetween(g3, 2, 4);
    assert g4[2] == [0, 4] && g4[4] == [2];
    WithEdgeBetween(g4, 2, 5);
    assert WithEdge(g4, 2, 5)[2] == [0, 4, 5];
  }

  /** On the fixture graph every vertex 0..5 is reachable from 0, and nothing else is. */
  lemma FixtureReachable(g: Adjacency<int>, v: int)
    requires FixtureLists(g)
    ensures Reachable(g, 0, v) <==> 0 <= v < 6
  {
    if 0 <= v < 6 {
      var p := if v == 0 then [0] else if v == 1 then [0, 1] else if v == 2 then [0, 2]
               else if v == 3 then [0, 1, 3] else if v == 4 then [0, 2, 4] else [0, 2, 5];
      assert WalkFromTo(g, p, 0, v);
    }
    if Reachable(g, 0, v) {
      var p :| WalkFromTo(g, p, 0, v);
      ClosedHoldsWalk(g, {0, 1, 2, 3, 4, 5}, p, 0, v);
    }
  }

  /** dfs(0) and bfs(0) on the fixture graph both list 0 first and then the other five vertices once each. */
  method TraversalFixture() returns (depth: seq<int>, breadth: seq<int>)
    ensures |depth| == 6 && depth[0] == 0 && forall v :: v in depth <==> 0 <= v < 6
    ensures |breadth| == 6 && breadth[0] == 0 && forall v :: v in breadth <==> 0 <= v < 6
  {
    var g: Adjacency<int> := map[0 := [], 1 := [], 2 := [], 3 := [], 4 := [], 5 := []];
    g := WithEdge(WithEdge(WithEdge(WithEdge(WithEdge(g, 0, 1), 0, 2), 1, 3), 2, 4), 2, 5);
    BuildFixture();
    depth := DfsFrom(g, 0);
    breadth := GraphListBfs.Bfs(g, 0);
    forall v ensures Reachable(g, 0, v) <==> 0 <= v < 6 {
      FixtureReachable(g, v);
    }
    FixtureLength(depth);
    FixtureLength(breadth);
  }

  lemma FixtureLength(r: seq<int>)
    requires NoDup(r) && forall v :: v in r <==> 0 <= v < 6
    ensures |r| == 6
  {
    var S := {0, 1, 2, 3, 4, 5};
    forall i | 0 <= i < |r| ensures r[i] in S {
      assert r[i] in r;
      assert r[i] == 0 || r[i] == 1 || r[i] == 2 || r[i] == 3 || r[i] == 4 || r[i] == 5;
    }
    NoDupBound(r, S);
    CoverBound(r, S);
  }
}
