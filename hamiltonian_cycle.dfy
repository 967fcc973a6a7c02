/**
 * The Hamiltonian cycle search of the catalogue: backtracking over an
 * adjacency matrix, building a path from vertex 0 in an array and marking
 * the vertices on it in a second array, undoing both when a choice fails.
 */
module HamiltonianCycle {
  import opened Wrappers

  /** graph[u][v] == 1 is an edge from u to v; any other entry, or one missing from a short row, is none. */
  type Matrix = seq<seq<int>>

  predicate Edge(g: Matrix, u: int, v: int)
  {
    0 <= u < |g| && 0 <= v < |g[u]| && g[u][v] == 1
  }

  predicate Distinct(p: seq<int>)
  {
    forall i, j :: 0 <= i < j < |p| ==> p[i] != p[j]
  }

  /** A path of distinct vertices from vertex 0, each joined to the next by an edge. */
  predicate SimplePath(g: Matrix, p: seq<int>)
  {
    && |p| >= 1 && p[0] == 0 && Distinct(p)
    && (forall i :: 0 <= i < |p| ==> 0 <= p[i] < |g|)
    && (forall i :: 0 <= i < |p| - 1 ==> Edge(g, p[i], p[i + 1]))
  }

  /**
   * A Hamiltonian cycle through vertex 0: the n vertices, each once, from 0,
   * then back to 0, every step along an edge.
   */
  predicate IsHamiltonianCycle(g: Matrix, c: seq<int>)
  {
    && |g| >= 1 && |c| == |g| + 1
    && SimplePath(g, c[..|g|]) && c[|g|] == 0 && Edge(g, c[|g| - 1], 0)
  }

  /** The vertices below n are each either visited or off the path, and the marks say which. */
  predicate Marks(n: nat, visited: seq<bool>, p: seq<int>)
  {
    |visited| > n && forall v :: 0 <= v < n ==> (visited[v] <==> v in p)
  }

  /** A cycle that begins with p has, after p, a vertex not on p that p's last vertex has an edge to. */
  lemma NextOfCycle(g: Matrix, c: seq<int>, p: seq<int>)
    requires IsHamiltonianCycle(g, c) && 1 <= |p| < |g|
    ensures c[..|p|] == p ==> 1 <= c[|p|] < |g| && c[|p|] !in p && Edge(g, p[|p| - 1], c[|p|])
  {
    var n := |g|;
    var k := |p|;
    var q := c[..n];
    assert q[k - 1] == c[k - 1] && q[k] == c[k] && q[0] == 0;
    assert forall i :: 0 <= i < k ==> c[..k][i] == q[i] && q[i] != q[k];
  }

  /** No cycle begins with p when every cycle that would has its next vertex out of range. */
  lemma NoExtension(g: Matrix, p: seq<int>)
    requires 1 <= |p| < |g|
    requires forall c :: IsHamiltonianCycle(g, c) && c[..|p|] == p ==> c[|p|] >= |g|
    ensures forall c :: IsHamiltonianCycle(g, c) ==> c[..|p|] != p
  {
    forall c | IsHamiltonianCycle(g, c)
      ensures c[..|p|] != p
    {
      NextOfCycle(g, c, p);
    }
  }

  /** Every cycle starts at vertex 0. */
  lemma StartsAtZero(g: Matrix)
    ensures forall c :: IsHamiltonianCycle(g, c) ==> c[..1] == [0]
  {
    forall c | IsHamiltonianCycle(g, c)
      ensures c[..1] == [0]
    {
      assert c[..|g|][0] == 0;
    }
  }

  /** A full path closes into a cycle exactly when its last vertex has an edge to 0. */
  lemma FullPath(g: Matrix, p: seq<int>)
    requires SimplePath(g, p) && |p| == |g|
    ensures (exists c :: IsHamiltonianCycle(g, c) && c[..|p|] == p) <==> Edge(g, p[|p| - 1], 0)
  {
    var c := p + [0];
    assert c[..|g|] == p;
    if Edge(g, p[|p| - 1], 0) {
      assert IsHamiltonianCycle(g, c);
    }
  }

  /**
   * hamCycleUtil(position): at position n, whether the path closes;
   * otherwise each vertex from 1 up that the last one has an edge to and
   * that is not yet visited is tried at position. True leaves a path of all
   * n vertices that closes; false restores the marks, and then no cycle
   * begins with the path so far.
   */
  method HamCycleUtil(g: Matrix, path: array<int>, visited: array<bool>, position: nat) returns (found: bool)
    requires path.Length == |g| + 1 && 1 <= position <= |g|
    requires SimplePath(g, path[..position]) && Marks(|g|, visited[..], path[..position])
    modifies path, visited
    ensures path[..position] == old(path[..position])
    ensures found ==> SimplePath(g, path[..|g|]) && Edge(g, path[|g| - 1], 0)
    ensures !found ==> visited[..] == old(visited[..])
    ensures !found ==> forall c :: IsHamiltonianCycle(g, c) ==> c[..position] != old(path[..position])
    decreases |g| - position, 1
  {
    var n := |g|;
    if position == n {
      FullPath(g, path[..n]);
      return Edge(g, path[position - 1], path[0]);
    }
    ghost var prefix := path[..position];
    for vertex := 1 to n
      invariant path[..position] == prefix && visited[..] == old(visited[..])
      invariant forall c :: IsHamiltonianCycle(g, c) && c[..position] == prefix ==> c[position] >= vertex
    {
      if Edge(g, path[position - 1], vertex) && !visited[vertex] {
        found := TryVertex(g, path, visited, position, vertex);
        if found {
          return true;
        }
      }
      forall c | IsHamiltonianCycle(g, c) && c[..position] == prefix
        ensures c[position] != vertex
      {
        NextOfCycle(g, c, prefix);
      }
    }
    NoExtension(g, prefix);
    return false;
  }

  /**
   * One turn of the loop of hamCycleUtil: put vertex at position, mark it
   * and search on; when that fails, clear the mark and reset the slot to -1.
   */
  method TryVertex(g: Matrix, path: array<int>, visited: array<bool>, position: nat, vertex: nat) returns (found: bool)
    requires path.Length == |g| + 1 && 1 <= position < |g| && vertex < |g|
    requires SimplePath(g, path[..position]) && Marks(|g|, visited[..], path[..position])
    requires Edge(g, path[position - 1], vertex) && !visited[vertex]
    modifies path, visited
    ensures path[..position] == old(path[..position])
    ensures found ==> SimplePath(g, path[..|g|]) && Edge(g, path[|g| - 1], 0)
    ensures !found ==> visited[..] == old(visited[..])
    ensures !found ==> forall c :: IsHamiltonianCycle(g, c) && c[..position] == old(path[..position]) ==> c[position] != vertex
    decreases |g| - position, 0
  {
    ghost var prefix := path[..position];
    ghost var before := visited[..];
    path[position] := vertex;
    visited[vertex] := true;
    assert path[..position + 1] == prefix + [vertex];
    assert visited[..] == before[vertex := true];
    Extend(g, prefix, before, vertex);
    found := HamCycleUtil(g, path, visited, position + 1);
    assert path[..position] == path[..position + 1][..position];
    if found {
      return true;
    }
    visited[vertex] := false;
    assert visited[..] == before;
    path[position] := -1;
    assert path[..position] == prefix;
    NotThisVertex(g, prefix, vertex);
  }

  /** When no cycle begins with p then vertex, no cycle that begins with p has vertex next. */
  lemma NotThisVertex(g: Matrix, p: seq<int>, vertex: nat)
    requires |p| < |g|
    requires forall c :: IsHamiltonianCycle(g, c) ==> c[..|p| + 1] != p + [vertex]
    ensures forall c :: IsHamiltonianCycle(g, c) && c[..|p|] == p ==> c[|p|] != vertex
  {
    forall c | IsHamiltonianCycle(g, c) && c[..|p|] == p
      ensures c[|p|] != vertex
    {
      assert c[..|p| + 1] == p + [c[|p|]];
    }
  }

  /** Putting an unvisited neighbour of the last vertex after the path, marked, keeps a simple path with its marks. */
  lemma Extend(g: Matrix, p: seq<int>, visited: seq<bool>, vertex: nat)
    requires SimplePath(g, p) && Marks(|g|, visited, p) && vertex < |g|
    requires Edge(g, p[|p| - 1], vertex) && !visited[vertex]
    ensures SimplePath(g, p + [vertex]) && Marks(|g|, visited[vertex := true], p + [vertex])
  {
    var q := p + [vertex];
    assert vertex !in p;
    forall i, j | 0 <= i < j < |q|
      ensures q[i] != q[j]
    {
      if j == |p| {
        assert q[i] == p[i] && p[i] in p;
      } else {
        assert q[i] == p[i] && q[j] == p[j];
      }
    }
    forall i | 0 <= i < |q| - 1
      ensures Edge(g, q[i], q[i + 1])
    {
      if i < |p| - 1 {
        assert q[i] == p[i] && q[i + 1] == p[i + 1];
      }
    }
    forall v | 0 <= v < |g|
      ensures visited[vertex := true][v] <==> v in q
    {
      assert v in q <==> v in p || v == vertex;
    }
  }

  /**
   * findHamiltonianCycle: the path starts at 0, marked; the search from
   * position 1 either succeeds, and 0 is written after the n vertices, or
   * the result is null. The source's arrays grow when written past their
   * end; the model allocates them one slot larger than the vertex count.
   */
  method FindHamiltonianCycle(g: Matrix) returns (r: Option<seq<int>>)
    ensures r.Some? ==> IsHamiltonianCycle(g, r.value)
    ensures r.None? ==> forall c :: !IsHamiltonianCycle(g, c)
  {
    var n := |g|;
    var path := new int[n + 1];
    var visited := new bool[n + 1](_ => false);
    path[0] := 0;
    visited[0] := true;
    if n == 0 {
      // The search loop has no candidate and the base case cannot hold: false.
      return None;
    }
    assert path[..1] == [0];
    var found := HamCycleUtil(g, path, visited, 1);
    if found {
      ghost var cycle := path[..n];
      path[n] := 0;
      assert path[..] == cycle + [0] && path[..][..n] == cycle;
      return Some(path[..]);
    }
    StartsAtZero(g);
    return None;
  }
}
