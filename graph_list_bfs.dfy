/**
 * bfs over an adjacency list: a vertex is marked visited when it is
 * enqueued, the queue is served first-in first-out, and a vertex without
 * an adjacency entry has no neighbours.
 */
module GraphListBfs {
  import opened Digraph

  /*
   * The proof follows the sequence `all` = result ++ queue of every vertex
   * ever enqueued: result is all[..r] and the queue is all[r..].
   */

  /** all lists the visited vertices once each, start first. */
  ghost predicate Listing<V(!new)>(g: Adjacency<V>, s: V, all: seq<V>, visited: set<V>)
  {
    && |all| > 0 && all[0] == s && NoDup(all)
    && (forall v :: v in visited <==> v in all)
    && visited <= Vertices(g) + {s}
  }

  /** Every visited vertex v has a walk from s of dist[v] steps; dist[s] is 0. */
  ghost predicate Witnessed<V(!new)>(g: Adjacency<V>, s: V, visited: set<V>, dist: map<V, nat>, paths: map<V, seq<V>>)
  {
    && s in dist && dist[s] == 0
    && forall v :: v in visited ==>
         v in dist && v in paths && WalkFromTo(g, paths[v], s, v) && |paths[v]| == dist[v] + 1
  }

  /** The distances along all never decrease. */
  ghost predicate Ordered<V(!new)>(all: seq<V>, dist: map<V, nat>)
  {
    && (forall i :: 0 <= i < |all| ==> all[i] in dist)
    && (forall i, j :: 0 <= i < j < |all| ==> dist[all[i]] <= dist[all[j]])
  }

  /** The last vertex enqueued is at most one level below the queue head and the last dequeued vertex. */
  ghost predicate Span<V(!new)>(all: seq<V>, r: nat, dist: map<V, nat>)
    requires Ordered(all, dist) && |all| > 0
  {
    && r <= |all|
    && (r < |all| ==> dist[all[|all| - 1]] <= dist[all[r]] + 1)
    && (r > 0 ==> dist[all[|all| - 1]] <= dist[all[r - 1]] + 1)
  }

  /** The first k successors of u are visited, each at most one level below u. */
  ghost predicate ExpandedUpTo<V(!new)>(g: Adjacency<V>, u: V, visited: set<V>, dist: map<V, nat>, k: nat)
  {
    && u in dist && k <= |Succ(g, u)|
    && forall i :: 0 <= i < k ==>
         Succ(g, u)[i] in visited && Succ(g, u)[i] in dist && dist[Succ(g, u)[i]] <= dist[u] + 1
  }

  /** Every dequeued vertex is expanded; the last one only up to its k-th successor. */
  ghost predicate Expanded<V(!new)>(g: Adjacency<V>, all: seq<V>, r: nat, visited: set<V>, dist: map<V, nat>, k: nat)
  {
    && r <= |all|
    && (forall j :: 0 <= j < r - 1 ==> ExpandedUpTo(g, all[j], visited, dist, |Succ(g, all[j])|))
    && (r > 0 ==> ExpandedUpTo(g, all[r - 1], visited, dist, k))
  }

  ghost predicate BfsInv<V(!new)>(g: Adjacency<V>, s: V, all: seq<V>, r: nat, visited: set<V>,
                            dist: map<V, nat>, paths: map<V, seq<V>>, k: nat)
  {
    && Listing(g, s, all, visited)
    && Witnessed(g, s, visited, dist, paths)
    && Ordered(all, dist)
    && Span(all, r, dist)
    && Expanded(g, all, r, visited, dist, k)
  }

  /** How far the last dequeued vertex is expanded when the outer loop tests its guard: fully. */
  function Full<V(!new)>(g: Adjacency<V>, all: seq<V>, r: nat): nat
    requires r <= |all|
  {
    if r == 0 then 0 else |Succ(g, all[r - 1])|
  }

  lemma BfsInit<V(!new)>(g: Adjacency<V>, s: V)
    ensures BfsInv(g, s, [s], 0, {s}, map[s := 0], map[s := [s]], 0)
  {
  }

  /** queue.shift() followed by result.push(): one more vertex counts as dequeued. */
  lemma BfsDequeue<V(!new)>(g: Adjacency<V>, s: V, all: seq<V>, r: nat, visited: set<V>,
                      dist: map<V, nat>, paths: map<V, seq<V>>)
    requires r < |all| && BfsInv(g, s, all, r, visited, dist, paths, Full(g, all, r))
    ensures BfsInv(g, s, all, r + 1, visited, dist, paths, 0)
  {
    if r + 1 < |all| {
      assert dist[all[r]] <= dist[all[r + 1]];
    }
  }

  /** A successor that is already visited is skipped. */
  lemma BfsSkip<V(!new)>(g: Adjacency<V>, s: V, all: seq<V>, r: nat, visited: set<V>,
                         dist: map<V, nat>, paths: map<V, seq<V>>, k: nat, c: V, n: V)
    requires 0 < r && BfsInv(g, s, all, r, visited, dist, paths, k)
    requires c == all[r - 1] && k < |Succ(g, c)| && n == Succ(g, c)[k] && n in visited
    ensures BfsInv(g, s, all, r, visited, dist, paths, k + 1)
  {
    var i :| 0 <= i < |all| && all[i] == n;
    assert dist[n] <= dist[all[|all| - 1]] by {
      if i < |all| - 1 {
        assert dist[all[i]] <= dist[all[|all| - 1]];
      }
    }
  }

  lemma DiscoverListing<V(!new)>(g: Adjacency<V>, s: V, all: seq<V>, visited: set<V>, c: V, n: V)
    requires Listing(g, s, all, visited) && n !in visited && n in Succ(g, c)
    ensures Listing(g, s, all + [n], visited + {n})
  {
    SuccInVertices(g, c, n);
  }

  lemma DiscoverWitnessed<V(!new)>(g: Adjacency<V>, s: V, visited: set<V>, dist: map<V, nat>, paths: map<V, seq<V>>,
                             c: V, n: V)
    requires Witnessed(g, s, visited, dist, paths) && s in visited && c in visited && n !in visited
    requires n in Succ(g, c)
    ensures Witnessed(g, s, visited + {n}, dist[n := dist[c] + 1], paths[n := paths[c] + [n]])
  {
    WalkSnoc(g, paths[c], s, c, n);
  }

  lemma DiscoverOrdered<V(!new)>(all: seq<V>, r: nat, dist: map<V, nat>, n: V, dn: nat)
    requires Ordered(all, dist) && |all| > 0 && Span(all, r, dist) && 0 < r
    requires n !in all && dn == dist[all[r - 1]] + 1
    ensures Ordered(all + [n], dist[n := dn])
    ensures Span(all + [n], r, dist[n := dn])
  {
    var all', dist' := all + [n], dist[n := dn];
    assert forall i :: 0 <= i < |all| ==> all'[i] == all[i] && dist'[all[i]] == dist[all[i]];
    forall i, j | 0 <= i < j < |all'| ensures dist'[all'[i]] <= dist'[all'[j]] {
      if j == |all| && i < |all| - 1 {
        assert dist[all[i]] <= dist[all[|all| - 1]];
      }
    }
    if r < |all| {
      assert dist[all[r - 1]] <= dist[all[r]];
    }
  }

  /** An unvisited successor is enqueued and marked visited one level below the current vertex. */
  lemma BfsDiscover<V(!new)>(g: Adjacency<V>, s: V, all: seq<V>, r: nat, visited: set<V>,
                             dist: map<V, nat>, paths: map<V, seq<V>>, k: nat, c: V, n: V)
    requires 0 < r && BfsInv(g, s, all, r, visited, dist, paths, k)
    requires c == all[r - 1] && k < |Succ(g, c)| && n == Succ(g, c)[k] && n !in visited
    ensures BfsInv(g, s, all + [n], r, visited + {n}, dist[n := dist[c] + 1], paths[n := paths[c] + [n]], k + 1)
  {
    assert c in visited;
    DiscoverListing(g, s, all, visited, c, n);
    DiscoverWitnessed(g, s, visited, dist, paths, c, n);
    DiscoverOrdered(all, r, dist, n, dist[c] + 1);
    DiscoverExpanded(g, all, r, visited, dist, k, n, dist[c] + 1);
  }

  lemma DiscoverExpanded<V(!new)>(g: Adjacency<V>, all: seq<V>, r: nat, visited: set<V>, dist: map<V, nat>,
                               k: nat, n: V, dn: nat)
    requires 0 < r && Expanded(g, all, r, visited, dist, k) && n !in visited
    requires forall v :: v in all ==> v in visited
    requires k < |Succ(g, all[r - 1])| && Succ(g, all[r - 1])[k] == n && dn == dist[all[r - 1]] + 1
    ensures Expanded(g, all + [n], r, visited + {n}, dist[n := dn], k + 1)
  {
    var all', dist' := all + [n], dist[n := dn];
    forall j | 0 <= j < r - 1
      ensures ExpandedUpTo(g, all'[j], visited + {n}, dist', |Succ(g, all'[j])|)
    {
      var u := all[j];
      assert ExpandedUpTo(g, u, visited, dist, |Succ(g, u)|);
      assert forall i :: 0 <= i < |Succ(g, u)| ==> Succ(g, u)[i] != n;
    }
    var u := all[r - 1];
    assert forall i :: 0 <= i < k ==> Succ(g, u)[i] != n;
  }

  /** When every listed vertex is dequeued and expanded, each walk from s ends at a listed vertex no nearer than the walk's length says. */
  lemma {:induction false} BfsComplete<V(!new)>(g: Adjacency<V>, s: V, all: seq<V>, visited: set<V>,
                                                dist: map<V, nat>, paths: map<V, seq<V>>, p: seq<V>, w: V)
    requires BfsInv(g, s, all, |all|, visited, dist, paths, Full(g, all, |all|))
    requires WalkFromTo(g, p, s, w)
    ensures w in visited && dist[w] <= |p| - 1
    decreases |p|
  {
    if |p| > 1 {
      WalkInit(g, p, s, w);
      var u := p[|p| - 2];
      BfsComplete(g, s, all, visited, dist, paths, p[..|p| - 1], u);
      var j :| 0 <= j < |all| && all[j] == u;
      var i :| 0 <= i < |Succ(g, u)| && Succ(g, u)[i] == w;
      assert ExpandedUpTo(g, all[j], visited, dist, |Succ(g, all[j])|);
    }
  }

  /** Moving the queue head to the end of result keeps their concatenation. */
  lemma ShiftHead<V>(result: seq<V>, queue: seq<V>)
    requires |queue| > 0
    ensures result + queue == (result + [queue[0]]) + queue[1..]
  {
    assert queue == [queue[0]] + queue[1..];
  }

  /** Appending to the queue appends to the concatenation. */
  lemma AppendTail<V>(all: seq<V>, result: seq<V>, queue: seq<V>, added: seq<V>)
    requires all == result + queue
    ensures all + added == result + (queue + added)
  {
  }

  /** Visiting more vertices of a finite universe leaves fewer unvisited. */
  lemma FewerUnvisited<V>(universe: set<V>, before: set<V>, after: set<V>)
    requires before < after <= universe
    ensures |universe - after| < |universe - before|
  {
    var x :| x in after && x !in before;
    assert universe - before == (universe - after) + (after - before);
    assert (universe - after) * (after - before) == {};
    assert |after - before| >= 1 by {
      assert x in after - before;
    }
  }

  /** The final state of the search establishes everything bfs promises. */
  lemma BfsConclusion<V(!new)>(g: Adjacency<V>, s: V, all: seq<V>, visited: set<V>,
                               dist: map<V, nat>, paths: map<V, seq<V>>)
    requires BfsInv(g, s, all, |all|, visited, dist, paths, Full(g, all, |all|))
    ensures |all| > 0 && all[0] == s && NoDup(all)
    ensures forall v :: v in all <==> Reachable(g, s, v)
    ensures forall i, j, d: nat :: 0 <= i < j < |all| && ReachableWithin(g, s, all[j], d) ==>
              ReachableWithin(g, s, all[i], d)
  {
    forall v | Reachable(g, s, v) ensures v in all {
      var p :| WalkFromTo(g, p, s, v);
      BfsComplete(g, s, all, visited, dist, paths, p, v);
    }
    forall v | v in all ensures Reachable(g, s, v) {
      assert WalkFromTo(g, paths[v], s, v);
    }
    forall i, j, d: nat | 0 <= i < j < |all| && ReachableWithin(g, s, all[j], d)
      ensures ReachableWithin(g, s, all[i], d)
    {
      var p :| WalkFromTo(g, p, s, all[j]) && |p| <= d + 1;
      BfsComplete(g, s, all, visited, dist, paths, p, all[j]);
      assert dist[all[i]] <= dist[all[j]];
      assert WalkFromTo(g, paths[all[i]], s, all[i]);
    }
  }

  /** The visited vertices never outnumber the vertices of the graph and the start. */
  lemma VisitedBound<V(!new)>(g: Adjacency<V>, s: V, all: seq<V>, visited: set<V>)
    requires Listing(g, s, all, visited)
    ensures |visited| <= |Vertices(g) + {s}|
  {
    var universe := Vertices(g) + {s};
    assert universe == visited + (universe - visited);
  }

  /**
   * One turn of the neighbour loop: the i-th successor of the vertex last
   * moved to the result is marked visited and enqueued unless already visited.
   */
  method VisitNeighbor<V(!new)>(graph: Adjacency<V>, start: V, currentVertex: V, i: nat, queue0: seq<V>,
                               visited0: set<V>, ghost result: seq<V>, ghost dist0: map<V, nat>,
                               ghost paths0: map<V, seq<V>>)
    returns (queue: seq<V>, visited: set<V>, ghost dist: map<V, nat>, ghost paths: map<V, seq<V>>)
    requires 0 < |result| && result[|result| - 1] == currentVertex && i < |Succ(graph, currentVertex)|
    requires BfsInv(graph, start, result + queue0, |result|, visited0, dist0, paths0, i)
    ensures BfsInv(graph, start, result + queue, |result|, visited, dist, paths, i + 1)
    ensures Succ(graph, currentVertex)[i] in visited0 ==> queue == queue0 && visited == visited0
    ensures Succ(graph, currentVertex)[i] !in visited0 ==>
              queue == queue0 + [Succ(graph, currentVertex)[i]] && |visited| == |visited0| + 1
  {
    var neighbor := Succ(graph, currentVertex)[i];
    if neighbor !in visited0 {
      BfsDiscover(graph, start, result + queue0, |result|, visited0, dist0, paths0, i, currentVertex, neighbor);
      AppendTail(result + queue0, result, queue0, [neighbor]);
      queue := queue0 + [neighbor];
      visited := visited0 + {neighbor};
      dist := dist0[neighbor := dist0[currentVertex] + 1];
      paths := paths0[neighbor := paths0[currentVertex] + [neighbor]];
    } else {
      BfsSkip(graph, start, result + queue0, |result|, visited0, dist0, paths0, i, currentVertex, neighbor);
      queue, visited, dist, paths := queue0, visited0, dist0, paths0;
    }
  }

  /**
   * The neighbour loop of bfs for the vertex last moved to the result: each
   * unvisited successor is marked visited and enqueued, in adjacency order.
   */
  method ExpandVertex<V(!new)>(graph: Adjacency<V>, start: V, currentVertex: V, queue0: seq<V>, visited0: set<V>,
                              ghost result: seq<V>, ghost dist0: map<V, nat>, ghost paths0: map<V, seq<V>>)
    returns (queue: seq<V>, visited: set<V>, ghost dist: map<V, nat>, ghost paths: map<V, seq<V>>)
    requires 0 < |result| && result[|result| - 1] == currentVertex
    requires BfsInv(graph, start, result + queue0, |result|, visited0, dist0, paths0, 0)
    ensures BfsInv(graph, start, result + queue, |result|, visited, dist, paths, |Succ(graph, currentVertex)|)
    ensures |queue| >= |queue0|
    ensures |visited| == |visited0| + |queue| - |queue0|
  {
    queue, visited, dist, paths := queue0, visited0, dist0, paths0;
    var neighbors := Succ(graph, currentVertex);
    var i := 0;
    while i < |neighbors|
      invariant i <= |neighbors|
      invariant BfsInv(graph, start, result + queue, |result|, visited, dist, paths, i)
      invariant |queue| >= |queue0|
      invariant |visited| == |visited0| + |queue| - |queue0|
    {
      queue, visited, dist, paths := VisitNeighbor(graph, start, currentVertex, i, queue, visited, result, dist, paths);
      i := i + 1;
    }
  }

  /**
   * bfs(graph, start): start comes first, no vertex twice, exactly the
   * vertices reachable from start, and a vertex within d steps of start is
   * listed before every vertex that is not.
   */
  method Bfs<V(!new)>(graph: Adjacency<V>, start: V) returns (result: seq<V>)
    ensures |result| > 0 && result[0] == start
    ensures NoDup(result)
    ensures forall v :: v in result <==> Reachable(graph, start, v)
    ensures forall i, j, d: nat :: 0 <= i < j < |result| && ReachableWithin(graph, start, result[j], d) ==>
              ReachableWithin(graph, start, result[i], d)
  {
    result := [];
    var visited: set<V> := {start};
    var queue := [start];
    ghost var dist: map<V, nat> := map[start := 0];
    ghost var paths: map<V, seq<V>> := map[start := [start]];
    ghost var bound := |Vertices(graph) + {start}|;
    BfsInit(graph, start);
    VisitedBound(graph, start, [start], visited);
    while |queue| > 0
      invariant BfsInv(graph, start, result + queue, |result|, visited, dist, paths, Full(graph, result + queue, |result|))
      invariant |visited| <= bound
      decreases bound - |visited|, |queue|
    {
      BfsDequeue(graph, start, result + queue, |result|, visited, dist, paths);
      var currentVertex := queue[0];
      ShiftHead(result, queue);
      queue := queue[1..];
      result := result + [currentVertex];
      queue, visited, dist, paths := ExpandVertex(graph, start, currentVertex, queue, visited, result, dist, paths);
      VisitedBound(graph, start, result + queue, visited);
    }
    assert result + queue == result;
    BfsConclusion(graph, start, result, visited, dist, paths);
  }

  /** The single-vertex fixture: bfs({A: []}, A) is [A]. */
  method SingleVertexFixture() returns (result: seq<char>)
    ensures result == ['A']
  {
    var graph: Adjacency<char> := map['A' := []];
    result := Bfs(graph, 'A');
    forall k | 0 <= k < |result| ensures result[k] in {'A'} {
      assert result[k] in result && Reachable(graph, 'A', result[k]);
      ghost var p :| WalkFromTo(graph, p, 'A', result[k]);
      ClosedHoldsWalk(graph, {'A'}, p, 'A', result[k]);
    }
    NoDupBound(result, {'A'});
  }

  /** The disconnected fixture: from A only A and then B are listed. */
  method DisconnectedFixture() returns (result: seq<char>)
    ensures result == ['A', 'B']
  {
    var graph: Adjacency<char> := map['A' := ['B'], 'B' := ['A'], 'C' := ['D'], 'D' := ['C']];
    result := Bfs(graph, 'A');
    assert WalkFromTo(graph, ['A', 'B'], 'A', 'B');
    assert 'B' in result;
    forall k | 0 <= k < |result| ensures result[k] in {'A', 'B'} {
      assert result[k] in result && Reachable(graph, 'A', result[k]);
      ghost var p :| WalkFromTo(graph, p, 'A', result[k]);
      ClosedHoldsWalk(graph, {'A', 'B'}, p, 'A', result[k]);
    }
    NoDupBound(result, {'A', 'B'});
    assert result[1] in {'A', 'B'} && result[1] != result[0];
  }
}
