/**
 * Dijkstra's algorithm of the catalogue, in its recursive form: distances
 * start at 0 for the source and Infinity for every other key of the graph;
 * each round picks the unvisited key with the smallest finite distance (the
 * first such in key order), marks it visited and relaxes its edges to
 * unvisited keys, then recurses until no unvisited key is finite.
 *
 * The graph is a map from names to edge lists together with the order in
 * which its keys are enumerated; Infinity is None.
 */
module Dijkstra {
  import opened Wrappers

  type Name = string

  datatype Edge = Edge(node: Name, weight: int)

  type Graph = map<Name, seq<Edge>>

  /** A tentative distance: None is Infinity. */
  type Distance = Option<int>

  /** order enumerates the keys of g, each once. */
  ghost predicate Lists(order: seq<Name>, g: Graph)
  {
    && (forall i, j :: 0 <= i < j < |order| ==> order[i] != order[j])
    && (forall x :: x in g <==> x in order)
  }

  /** The edges leaving x: graph[x] || []. */
  function Edges(g: Graph, x: Name): seq<Edge>
  {
    if x in g then g[x] else []
  }

  /** No edge of g has a negative weight: the case in which the search is optimal. */
  ghost predicate NonNegative(g: Graph)
  {
    forall x, e :: e in Edges(g, x) ==> e.weight >= 0
  }

  /** d is finite and at most n. */
  predicate AtMost(d: Distance, n: int)
  {
    d.Some? && d.value <= n
  }

  /** a is no worse than b: finite and no larger when b is finite. */
  predicate NoWorse(a: Distance, b: Distance)
  {
    b.None? || AtMost(a, b.value)
  }

  function Weight(es: seq<Edge>): int
  {
    if es == [] then 0 else Weight(es[..|es| - 1]) + es[|es| - 1].weight
  }

  /** Where a walk of edges from `from` arrives. */
  function End(from: Name, es: seq<Edge>): Name
  {
    if es == [] then from else es[|es| - 1].node
  }

  /** Each edge of es leaves the node the previous one arrived at, the first one leaving from. */
  predicate IsWalk(g: Graph, from: Name, es: seq<Edge>)
  {
    && (es != [] ==> es[0] in Edges(g, from))
    && (forall i :: 0 < i < |es| ==> es[i] in Edges(g, es[i - 1].node))
  }

  lemma WalkSnoc(g: Graph, from: Name, es: seq<Edge>, e: Edge)
    requires IsWalk(g, from, es) && e in Edges(g, End(from, es))
    ensures IsWalk(g, from, es + [e]) && End(from, es + [e]) == e.node && Weight(es + [e]) == Weight(es) + e.weight
  {
    var es2 := es + [e];
    assert es2[..|es|] == es;
  }

  lemma WalkInit(g: Graph, from: Name, es: seq<Edge>)
    requires IsWalk(g, from, es) && es != []
    ensures var pre := es[..|es| - 1];
      IsWalk(g, from, pre) && es[|es| - 1] in Edges(g, End(from, pre))
  {
    var pre := es[..|es| - 1];
    var n := |es| - 1;
    assert n > 0 ==> es[n] in Edges(g, es[n - 1].node);
  }

  /** Every finite distance is the weight of a recorded walk from source to its key. */
  ghost predicate Witnessed(g: Graph, source: Name, dist: map<Name, Distance>, paths: map<Name, seq<Edge>>)
  {
    forall v :: v in dist && dist[v].Some? ==>
      v in paths && IsWalk(g, source, paths[v]) && End(source, paths[v]) == v && Weight(paths[v]) == dist[v].value
  }

  /**
   * The state between two rounds: the keys are the graph's; visited keys are
   * finite; every finite distance is the weight of a walk. When no weight is
   * negative, moreover: the source, a key, stays at 0, no distance is
   * negative, visited keys are no further than any unvisited finite key, and
   * the edges of a visited key to keys of the graph are relaxed.
   */
  ghost predicate Inv(g: Graph, source: Name, dist: map<Name, Distance>, visited: set<Name>, paths: map<Name, seq<Edge>>)
  {
    && dist.Keys == g.Keys && visited <= dist.Keys
    && (forall u :: u in visited ==> dist[u].Some?)
    && Witnessed(g, source, dist, paths)
    && (NonNegative(g) ==> Settled(g, source, dist, visited))
  }

  ghost predicate Settled(g: Graph, source: Name, dist: map<Name, Distance>, visited: set<Name>)
    requires visited <= dist.Keys && g.Keys == dist.Keys
  {
    && (source in g ==> dist[source] == Some(0))
    && (forall v :: v in dist && dist[v].Some? ==> dist[v].value >= 0)
    && (forall u :: u in visited ==> dist[u].Some?)
    && (forall u, v :: u in visited && v in dist && v !in visited && dist[v].Some? ==> dist[u].value <= dist[v].value)
    && (forall u, e :: u in visited && e in Edges(g, u) && e.node in dist ==> AtMost(dist[e.node], dist[u].value + e.weight))
  }

  /** No unvisited key has a finite distance. */
  ghost predicate Done(dist: map<Name, Distance>, visited: set<Name>)
  {
    forall v :: v in dist && dist[v].Some? ==> v in visited
  }

  /** At the end, the distance of every key reached by a walk is at most the walk's weight. */
  lemma {:induction false} DoneIsOptimal(g: Graph, source: Name, dist: map<Name, Distance>, visited: set<Name>,
                                         paths: map<Name, seq<Edge>>, es: seq<Edge>)
    requires Inv(g, source, dist, visited, paths) && Done(dist, visited) && NonNegative(g)
    requires IsWalk(g, source, es) && End(source, es) in dist
    ensures AtMost(dist[End(source, es)], Weight(es))
    decreases |es|
  {
    if es != [] {
      var pre := es[..|es| - 1];
      var e := es[|es| - 1];
      WalkInit(g, source, es);
      var x := End(source, pre);
      assert x in g;
      DoneIsOptimal(g, source, dist, visited, paths, pre);
      assert x in visited;
    }
  }

  /** for (node in graph): the source at 0, every other key at Infinity. */
  method InitDistances(g: Graph, order: seq<Name>, source: Name) returns (dist: map<Name, Distance>)
    requires Lists(order, g)
    ensures dist.Keys == g.Keys
    ensures forall x :: x in dist ==> dist[x] == if x == source then Some(0) else None
  {
    dist := map[];
    for i := 0 to |order|
      invariant dist.Keys == set j | 0 <= j < i :: order[j]
      invariant forall x :: x in dist ==> dist[x] == if x == source then Some(0) else None
    {
      dist := dist[order[i] := if order[i] == source then Some(0) else None];
    }
    assert forall x :: x in g <==> x in dist by {
      forall x
        ensures x in g <==> x in dist
      {
        if x in order {
          var j :| 0 <= j < |order| && order[j] == x;
        }
      }
    }
  }

  /**
   * The search of processNextNode: the first key in order among the
   * unvisited keys of least finite distance, or None when every unvisited key
   * is at Infinity.
   */
  method SelectNext(order: seq<Name>, dist: map<Name, Distance>, visited: set<Name>) returns (next: Option<Name>)
    requires forall x :: x in dist <==> x in order
    ensures next.None? <==> forall x :: x in dist && x !in visited ==> dist[x].None?
    ensures next.Some? ==>
      && next.value in dist && next.value !in visited && dist[next.value].Some?
      && (forall x :: x in dist && x !in visited && dist[x].Some? ==> dist[next.value].value <= dist[x].value)
      && exists m :: 0 <= m < |order| && order[m] == next.value &&
           forall j :: 0 <= j < m && order[j] !in visited && dist[order[j]].Some? ==> dist[order[j]].value > dist[next.value].value
  {
    var minDistance: Distance := None;
    var nextNode: Option<Name> := None;
    ghost var m := 0;
    for i := 0 to |order|
      invariant nextNode.None? <==> minDistance.None?
      invariant nextNode.None? ==> forall j :: 0 <= j < i && order[j] !in visited ==> dist[order[j]].None?
      invariant nextNode.Some? ==>
        && m < i && order[m] == nextNode.value && nextNode.value !in visited && dist[nextNode.value] == minDistance
        && (forall j :: 0 <= j < i && order[j] !in visited && dist[order[j]].Some? ==> minDistance.value <= dist[order[j]].value)
        && (forall j :: 0 <= j < m && order[j] !in visited && dist[order[j]].Some? ==> dist[order[j]].value > minDistance.value)
    {
      var node := order[i];
      var d := dist[node];
      if node !in visited && d.Some? && (minDistance.None? || d.value < minDistance.value) {
        minDistance := d;
        nextNode := Some(node);
        m := i;
      }
    }
    if nextNode.None? || minDistance.None? {
      return None;
    }
    return nextNode;
  }

  /**
   * dist comes from dist0 by lowering distances of unvisited keys only, each
   * to a finite value, of at least base when no weight of g is negative.
   */
  ghost predicate Lowered(g: Graph, dist: map<Name, Distance>, dist0: map<Name, Distance>, visited: set<Name>, base: int)
  {
    && dist.Keys == dist0.Keys
    && forall x :: x in dist0 ==>
         dist[x] == dist0[x] ||
         (x !in visited && dist[x].Some? && (NonNegative(g) ==> base <= dist[x].value) && NoWorse(dist[x], dist0[x]))
  }

  lemma LowerOne(g: Graph, dist: map<Name, Distance>, dist0: map<Name, Distance>, visited: set<Name>, base: int, x: Name, n: int)
    requires Lowered(g, dist, dist0, visited, base) && x in dist && x !in visited && (NonNegative(g) ==> base <= n)
    requires NoWorse(Some(n), dist[x])
    ensures Lowered(g, dist[x := Some(n)], dist0, visited, base)
  {
  }

  /** The edges before i of u's list to unvisited keys are relaxed against base, u's distance. */
  ghost predicate RelaxedUpTo(dist: map<Name, Distance>, edges: seq<Edge>, i: nat, visited: set<Name>, base: int)
    requires i <= |edges|
  {
    forall k :: 0 <= k < i && edges[k].node in dist && edges[k].node !in visited ==> AtMost(dist[edges[k].node], base + edges[k].weight)
  }

  lemma RelaxedLower(dist: map<Name, Distance>, edges: seq<Edge>, i: nat, visited: set<Name>, base: int, x: Name, n: int)
    requires i <= |edges| && RelaxedUpTo(dist, edges, i, visited, base) && x in dist && NoWorse(Some(n), dist[x])
    ensures RelaxedUpTo(dist[x := Some(n)], edges, i, visited, base)
  {
  }

  lemma WitnessOne(g: Graph, source: Name, dist: map<Name, Distance>, paths: map<Name, seq<Edge>>, u: Name, e: Edge)
    requires Witnessed(g, source, dist, paths) && u in dist && dist[u].Some? && e in Edges(g, u)
    ensures Witnessed(g, source, dist[e.node := Some(dist[u].value + e.weight)], paths[e.node := paths[u] + [e]])
  {
    WalkSnoc(g, source, paths[u], e);
  }

  /**
   * The edge loop of processNextNode for the key u just visited: each edge
   * to an unvisited key of the graph lowers that key's distance to
   * distances[u] + weight when that is smaller.
   */
  method Relax(g: Graph, source: Name, u: Name, dist0: map<Name, Distance>, visited: set<Name>, ghost paths0: map<Name, seq<Edge>>)
    returns (dist: map<Name, Distance>, ghost paths: map<Name, seq<Edge>>)
    requires u in dist0 && dist0[u].Some? && u in visited
    requires Witnessed(g, source, dist0, paths0)
    ensures Witnessed(g, source, dist, paths) && Lowered(g, dist, dist0, visited, dist0[u].value)
    ensures RelaxedUpTo(dist, Edges(g, u), |Edges(g, u)|, visited, dist0[u].value)
  {
    dist, paths := dist0, paths0;
    var edges := Edges(g, u);
    for i := 0 to |edges|
      invariant Witnessed(g, source, dist, paths) && Lowered(g, dist, dist0, visited, dist0[u].value)
      invariant RelaxedUpTo(dist, edges, i, visited, dist0[u].value)
    {
      dist, paths := RelaxEdge(g, source, u, edges, i, dist0, visited, dist, paths);
    }
  }

  /**
   * One edge of that loop: skip a visited neighbour; lower an unvisited
   * key's distance when the way through u is shorter.
   */
  method RelaxEdge(g: Graph, source: Name, u: Name, edges: seq<Edge>, i: nat, ghost dist0: map<Name, Distance>, visited: set<Name>,
                   dist1: map<Name, Distance>, ghost paths1: map<Name, seq<Edge>>)
    returns (dist: map<Name, Distance>, ghost paths: map<Name, seq<Edge>>)
    requires u in dist0 && dist0[u].Some? && u in visited && edges == Edges(g, u) && i < |edges|
    requires Witnessed(g, source, dist1, paths1) && Lowered(g, dist1, dist0, visited, dist0[u].value)
    requires RelaxedUpTo(dist1, edges, i, visited, dist0[u].value)
    ensures Witnessed(g, source, dist, paths) && Lowered(g, dist, dist0, visited, dist0[u].value)
    ensures RelaxedUpTo(dist, edges, i + 1, visited, dist0[u].value)
  {
    dist, paths := dist1, paths1;
    var neighbor := edges[i].node;
    if neighbor in visited {
      RelaxedSkip(dist, edges, i, visited, dist0[u].value);
      return;
    }
    assert dist[u] == dist0[u];
    var newDistance := dist[u].value + edges[i].weight;
    if neighbor in dist && (dist[neighbor].None? || newDistance < dist[neighbor].value) {
      RelaxUpdate(g, source, u, edges, i, dist0, visited, dist, paths);
      paths := paths[neighbor := paths[u] + [edges[i]]];
      dist := dist[neighbor := Some(newDistance)];
    } else {
      RelaxedSkip(dist, edges, i, visited, dist0[u].value);
    }
  }

  /** An edge to a visited neighbour, or to one already as close, keeps the loop's invariant one edge further. */
  lemma RelaxedSkip(dist: map<Name, Distance>, edges: seq<Edge>, i: nat, visited: set<Name>, base: int)
    requires i < |edges| && RelaxedUpTo(dist, edges, i, visited, base)
    requires edges[i].node in dist && edges[i].node !in visited ==> AtMost(dist[edges[i].node], base + edges[i].weight)
    ensures RelaxedUpTo(dist, edges, i + 1, visited, base)
  {
  }

  /** Lowering the neighbour of edge i to the distance through u keeps the loop's invariant one edge further. */
  lemma RelaxUpdate(g: Graph, source: Name, u: Name, edges: seq<Edge>, i: nat, dist0: map<Name, Distance>, visited: set<Name>,
                    dist: map<Name, Distance>, paths: map<Name, seq<Edge>>)
    requires u in dist0 && dist0[u].Some? && u in visited && edges == Edges(g, u) && i < |edges|
    requires Witnessed(g, source, dist, paths) && Lowered(g, dist, dist0, visited, dist0[u].value)
    requires RelaxedUpTo(dist, edges, i, visited, dist0[u].value)
    requires edges[i].node in dist && edges[i].node !in visited
    requires NoWorse(Some(dist0[u].value + edges[i].weight), dist[edges[i].node])
    ensures var n := edges[i].node; var d := dist[n := Some(dist0[u].value + edges[i].weight)];
      && Witnessed(g, source, d, paths[n := paths[u] + [edges[i]]])
      && Lowered(g, d, dist0, visited, dist0[u].value)
      && RelaxedUpTo(d, edges, i + 1, visited, dist0[u].value)
  {
    assert dist[u] == dist0[u];
    RelaxWitnessed(g, source, u, edges, i, dist, paths);
    RelaxLowered(g, u, edges, i, dist0, visited, dist);
    RelaxedLower(dist, edges, i, visited, dist0[u].value, edges[i].node, dist0[u].value + edges[i].weight);
    RelaxedSkip(dist[edges[i].node := Some(dist0[u].value + edges[i].weight)], edges, i, visited, dist0[u].value);
  }

  /** The walk to u extended by edge i witnesses the lowered distance of its neighbour. */
  lemma RelaxWitnessed(g: Graph, source: Name, u: Name, edges: seq<Edge>, i: nat, dist: map<Name, Distance>, paths: map<Name, seq<Edge>>)
    requires u in dist && dist[u].Some? && edges == Edges(g, u) && i < |edges|
    requires Witnessed(g, source, dist, paths)
    ensures Witnessed(g, source, dist[edges[i].node := Some(dist[u].value + edges[i].weight)], paths[edges[i].node := paths[u] + [edges[i]]])
  {
    assert edges[i] in Edges(g, u);
    WitnessOne(g, source, dist, paths, u, edges[i]);
  }

  /** The neighbour of edge i lowered to the distance through u is no closer than u when no weight is negative. */
  lemma RelaxLowered(g: Graph, u: Name, edges: seq<Edge>, i: nat, dist0: map<Name, Distance>, visited: set<Name>, dist: map<Name, Distance>)
    requires u in dist0 && dist0[u].Some? && edges == Edges(g, u) && i < |edges|
    requires Lowered(g, dist, dist0, visited, dist0[u].value)
    requires edges[i].node in dist && edges[i].node !in visited
    requires NoWorse(Some(dist0[u].value + edges[i].weight), dist[edges[i].node])
    ensures Lowered(g, dist[edges[i].node := Some(dist0[u].value + edges[i].weight)], dist0, visited, dist0[u].value)
  {
    assert edges[i] in Edges(g, u);
    LowerOne(g, dist, dist0, visited, dist0[u].value, edges[i].node, dist0[u].value + edges[i].weight);
  }

  /** After visiting u: visited keys are still no further than unvisited finite ones. */
  lemma VisitKeepsOrder(g: Graph, dist0: map<Name, Distance>, visited0: set<Name>, u: Name, dist: map<Name, Distance>)
    requires NonNegative(g)
    requires forall x :: x in visited0 ==> x in dist0 && dist0[x].Some?
    requires forall x, v :: x in visited0 && v in dist0 && v !in visited0 && dist0[v].Some? ==> dist0[x].value <= dist0[v].value
    requires u in dist0 && u !in visited0 && dist0[u].Some?
    requires forall x :: x in dist0 && x !in visited0 && dist0[x].Some? ==> dist0[u].value <= dist0[x].value
    requires Lowered(g, dist, dist0, visited0 + {u}, dist0[u].value)
    ensures forall x, v :: x in visited0 + {u} && v in dist && v !in visited0 + {u} && dist[v].Some? ==> dist[x].Some? && dist[x].value <= dist[v].value
  {
    forall x, v | x in visited0 + {u} && v in dist && v !in visited0 + {u} && dist[v].Some?
      ensures dist[x].Some? && dist[x].value <= dist[v].value
    {
      assert dist[x] == dist0[x];
      if dist[v] == dist0[v] && x != u {
        assert dist0[x].value <= dist0[v].value;
      } else if x != u {
        assert dist0[x].value <= dist0[u].value;
      }
    }
  }

  /** After visiting u: every edge of a visited key is relaxed. */
  lemma VisitKeepsClosure(g: Graph, dist0: map<Name, Distance>, visited0: set<Name>, u: Name, dist: map<Name, Distance>)
    requires NonNegative(g)
    requires forall x :: x in visited0 ==> x in dist0 && dist0[x].Some?
    requires forall x, v :: x in visited0 && v in dist0 && v !in visited0 && dist0[v].Some? ==> dist0[x].value <= dist0[v].value
    requires forall x, e :: x in visited0 && e in Edges(g, x) && e.node in dist0 ==> AtMost(dist0[e.node], dist0[x].value + e.weight)
    requires u in dist0 && u !in visited0 && dist0[u].Some?
    requires Lowered(g, dist, dist0, visited0 + {u}, dist0[u].value)
    requires RelaxedUpTo(dist, Edges(g, u), |Edges(g, u)|, visited0 + {u}, dist0[u].value)
    ensures forall x, e :: x in visited0 + {u} && e in Edges(g, x) && e.node in dist ==> AtMost(dist[e.node], dist[x].value + e.weight)
  {
    forall x, e | x in visited0 + {u} && e in Edges(g, x) && e.node in dist
      ensures AtMost(dist[e.node], dist[x].value + e.weight)
    {
      assert dist[x] == dist0[x];
      if x != u {
        assert AtMost(dist0[e.node], dist0[x].value + e.weight);
      } else if e.node in visited0 {
        assert dist0[e.node].value <= dist0[u].value;
      } else if e.node != u {
        var k :| 0 <= k < |Edges(g, u)| && Edges(g, u)[k] == e;
      }
    }
  }

  /** After visiting u: the keys and the finiteness of visited keys are kept. */
  lemma VisitKeepsBasics(g: Graph, dist0: map<Name, Distance>, visited0: set<Name>, u: Name, dist: map<Name, Distance>)
    requires dist0.Keys == g.Keys && visited0 <= dist0.Keys
    requires forall x :: x in visited0 ==> dist0[x].Some?
    requires u in dist0 && dist0[u].Some? && Lowered(g, dist, dist0, visited0 + {u}, dist0[u].value)
    ensures dist.Keys == g.Keys && visited0 + {u} <= dist.Keys
    ensures forall x :: x in visited0 + {u} ==> dist[x].Some?
  {
  }

  /** After visiting u, with no negative weight: the source stays at 0 and no distance becomes negative. */
  lemma VisitKeepsSign(g: Graph, source: Name, dist0: map<Name, Distance>, visited: set<Name>, u: Name, dist: map<Name, Distance>)
    requires NonNegative(g) && dist0.Keys == g.Keys && (source in g ==> dist0[source] == Some(0))
    requires forall v :: v in dist0 && dist0[v].Some? ==> dist0[v].value >= 0
    requires u in dist0 && dist0[u].Some? && Lowered(g, dist, dist0, visited, dist0[u].value)
    ensures source in g ==> dist[source] == Some(0)
    ensures forall v :: v in dist && dist[v].Some? ==> dist[v].value >= 0
  {
  }

  /** Visiting the selected key and relaxing its edges keeps the invariant, and only lowers distances. */
  lemma VisitKeepsInv(g: Graph, source: Name, dist0: map<Name, Distance>, visited0: set<Name>, paths0: map<Name, seq<Edge>>,
                      u: Name, dist: map<Name, Distance>, paths: map<Name, seq<Edge>>)
    requires Inv(g, source, dist0, visited0, paths0)
    requires u in dist0 && u !in visited0 && dist0[u].Some?
    requires forall x :: x in dist0 && x !in visited0 && dist0[x].Some? ==> dist0[u].value <= dist0[x].value
    requires Witnessed(g, source, dist, paths) && Lowered(g, dist, dist0, visited0 + {u}, dist0[u].value)
    requires RelaxedUpTo(dist, Edges(g, u), |Edges(g, u)|, visited0 + {u}, dist0[u].value)
    ensures Inv(g, source, dist, visited0 + {u}, paths)
  {
    VisitKeepsBasics(g, dist0, visited0, u, dist);
    if NonNegative(g) {
      VisitKeepsOrder(g, dist0, visited0, u, dist);
      VisitKeepsClosure(g, dist0, visited0, u, dist);
      VisitKeepsSign(g, source, dist0, visited0 + {u}, u, dist);
    }
  }

  /**
   * processNextNode(): pick the next key; stop when there is none; otherwise
   * visit it, relax its edges, and recurse. Each round visits a key not
   * visited before.
   */
  method ProcessNextNode(g: Graph, order: seq<Name>, source: Name, dist0: map<Name, Distance>, visited0: set<Name>,
                         ghost paths0: map<Name, seq<Edge>>)
    returns (dist: map<Name, Distance>, visited: set<Name>, ghost paths: map<Name, seq<Edge>>)
    requires Lists(order, g) && Inv(g, source, dist0, visited0, paths0)
    ensures Inv(g, source, dist, visited, paths) && Done(dist, visited) && visited0 <= visited
    decreases g.Keys - visited0
  {
    var next := SelectNext(order, dist0, visited0);
    if next.None? {
      return dist0, visited0, paths0;
    }
    var u := next.value;
    visited := visited0 + {u};
    var dist1;
    ghost var paths1;
    dist1, paths1 := Relax(g, source, u, dist0, visited, paths0);
    VisitKeepsInv(g, source, dist0, visited0, paths0, u, dist1, paths1);
    dist, visited, paths := ProcessNextNode(g, order, source, dist1, visited, paths1);
  }

  /**
   * dijkstra(graph, source): the keys are the graph's and a finite distance
   * is the weight of a walk from the source, whatever the weights. When no
   * weight is negative, no walk from the source is lighter, so a key no walk
   * reaches stays at Infinity.
   */
  method Dijkstra(g: Graph, order: seq<Name>, source: Name) returns (distances: map<Name, Distance>)
    requires Lists(order, g)
    ensures distances.Keys == g.Keys
    ensures forall v :: v in distances && distances[v].Some? ==>
      exists es :: IsWalk(g, source, es) && End(source, es) == v && Weight(es) == distances[v].value
    ensures NonNegative(g) ==>
      forall v, es :: v in distances && IsWalk(g, source, es) && End(source, es) == v ==> AtMost(distances[v], Weight(es))
  {
    var dist0 := InitDistances(g, order, source);
    ghost var paths0: map<Name, seq<Edge>> := map[source := []];
    var visited;
    ghost var paths;
    distances, visited, paths := ProcessNextNode(g, order, source, dist0, {}, paths0);
    if NonNegative(g) {
      forall v, es | v in distances && IsWalk(g, source, es) && End(source, es) == v
        ensures AtMost(distances[v], Weight(es))
      {
        DoneIsOptimal(g, source, distances, visited, paths, es);
      }
    }
    forall v | v in distances && distances[v].Some?
      ensures exists es :: IsWalk(g, source, es) && End(source, es) == v && Weight(es) == distances[v].value
    {
      assert IsWalk(g, source, paths[v]);
    }
  }

  /** Every edge out of a key of F leads to a key of F no further than the edge's weight beyond. */
  ghost predicate Feasible(g: Graph, F: map<Name, nat>)
  {
    forall x, e :: x in F && e in Edges(g, x) ==> e.node in F && F[e.node] <= F[x] + e.weight
  }

  /** A feasible F that is 0 at the source bounds every walk from the source from below. */
  lemma {:induction false} PotentialBound(g: Graph, source: Name, F: map<Name, nat>, es: seq<Edge>)
    requires source in F && F[source] == 0 && Feasible(g, F) && IsWalk(g, source, es)
    ensures End(source, es) in F && F[End(source, es)] <= Weight(es)
    decreases |es|
  {
    if es != [] {
      WalkInit(g, source, es);
      PotentialBound(g, source, F, es[..|es| - 1]);
    }
  }

  /** The disconnected graph of the tests, with its keys in order. */
  ghost predicate IsDisconnected(g: Graph, order: seq<Name>)
  {
    g == map["A" := [Edge("B", 1)], "B" := [], "C" := [Edge("D", 1)], "D" := []] && order == ["A", "B", "C", "D"]
  }

  lemma DisconnectedShape(g: Graph, order: seq<Name>)
    requires IsDisconnected(g, order)
    ensures Lists(order, g) && g.Keys == {"A", "B", "C", "D"} && NonNegative(g)
    ensures Feasible(g, map["A" := 0, "B" := 1])
    ensures IsWalk(g, "A", [Edge("B", 1)])
  {
    var F: map<Name, nat> := map["A" := 0, "B" := 1];
    assert Edges(g, "A") == [Edge("B", 1)] && Edges(g, "B") == [];
    forall x, e | x in F && e in Edges(g, x)
      ensures e.node in F && F[e.node] <= F[x] + e.weight
    {
      assert x == "A" && e == Edge("B", 1);
    }
  }

  /** A result meeting the contract of Dijkstra on that graph is A at 0, B at 1, C and D at Infinity. */
  lemma DisconnectedResult(g: Graph, order: seq<Name>, r: map<Name, Distance>)
    requires IsDisconnected(g, order) && r.Keys == g.Keys
    requires forall v :: v in r && r[v].Some? ==>
      exists es :: IsWalk(g, "A", es) && End("A", es) == v && Weight(es) == r[v].value
    requires forall v, es :: v in r && IsWalk(g, "A", es) && End("A", es) == v ==> AtMost(r[v], Weight(es))
    ensures r == map["A" := Some(0), "B" := Some(1), "C" := None, "D" := None]
  {
    DisconnectedShape(g, order);
    var F: map<Name, nat> := map["A" := 0, "B" := 1];
    forall v | v in r && r[v].Some?
      ensures v in F && F[v] <= r[v].value
    {
      var es :| IsWalk(g, "A", es) && End("A", es) == v && Weight(es) == r[v].value;
      PotentialBound(g, "A", F, es);
    }
    var toB := [Edge("B", 1)];
    assert End("A", toB) == "B" && Weight(toB) == 1;
    assert AtMost(r["A"], Weight([])) && AtMost(r["B"], Weight(toB));
  }

  /** dijkstra on the disconnected graph of the tests. */
  method DisconnectedFixture() returns (r: map<Name, Distance>)
    ensures r == map["A" := Some(0), "B" := Some(1), "C" := None, "D" := None]
  {
    var g: Graph := map["A" := [Edge("B", 1)], "B" := [], "C" := [Edge("D", 1)], "D" := []];
    var order := ["A", "B", "C", "D"];
    DisconnectedShape(g, order);
    r := Dijkstra(g, order, "A");
    DisconnectedResult(g, order, r);
  }

  /** The simple graph of the tests. */
  ghost predicate IsSimple(g: Graph, order: seq<Name>)
  {
    && g == map["A" := [Edge("B", 2), Edge("D", 6)], "B" := [Edge("C", 3), Edge("D", 7)], "C" := [Edge("E", 5)],
                 "D" := [Edge("C", 1), Edge("E", 2)], "E" := []]
    && order == ["A", "B", "C", "D", "E"]
  }

  /** The distances the tests expect on it. */
  function SimpleDistances(): map<Name, nat>
  {
    map["A" := 0, "B" := 2, "C" := 5, "D" := 6, "E" := 8]
  }

  lemma SimpleShape(g: Graph, order: seq<Name>)
    requires IsSimple(g, order)
    ensures Lists(order, g) && g.Keys == SimpleDistances().Keys && NonNegative(g)
    ensures Feasible(g, SimpleDistances())
  {
    var F := SimpleDistances();
    forall x, e | e in Edges(g, x)
      ensures e.weight >= 0
    {
      assert x in {"A", "B", "C", "D", "E"};
    }
    forall x, e | x in F && e in Edges(g, x)
      ensures e.node in F && F[e.node] <= F[x] + e.weight
    {
      assert x in {"A", "B", "C", "D", "E"};
    }
  }

  /** The shortest walks of that graph: A-B, A-B-C, A-D and A-D-E. */
  lemma SimpleWalks(g: Graph, order: seq<Name>)
    requires IsSimple(g, order)
    ensures var w := [Edge("B", 2), Edge("C", 3)]; IsWalk(g, "A", w) && End("A", w) == "C" && Weight(w) == 5
    ensures var w := [Edge("D", 6), Edge("E", 2)]; IsWalk(g, "A", w) && End("A", w) == "E" && Weight(w) == 8
    ensures IsWalk(g, "A", [Edge("B", 2)]) && IsWalk(g, "A", [Edge("D", 6)])
  {
    assert [Edge("B", 2), Edge("C", 3)][..1] == [Edge("B", 2)];
    assert [Edge("D", 6), Edge("E", 2)][..1] == [Edge("D", 6)];
  }

  /** No walk of that graph is lighter than SimpleDistances says. */
  lemma SimpleLower(g: Graph, order: seq<Name>, r: map<Name, Distance>)
    requires IsSimple(g, order)
    requires forall v :: v in r && r[v].Some? ==>
      exists es :: IsWalk(g, "A", es) && End("A", es) == v && Weight(es) == r[v].value
    ensures forall v :: v in r && r[v].Some? ==> v in SimpleDistances() && SimpleDistances()[v] <= r[v].value
  {
    SimpleShape(g, order);
    forall v | v in r && r[v].Some?
      ensures v in SimpleDistances() && SimpleDistances()[v] <= r[v].value
    {
      var es :| IsWalk(g, "A", es) && End("A", es) == v && Weight(es) == r[v].value;
      PotentialBound(g, "A", SimpleDistances(), es);
    }
  }

  /** Each key of that graph is reached by a walk as light as SimpleDistances says. */
  lemma SimpleUpper(g: Graph, order: seq<Name>, r: map<Name, Distance>)
    requires IsSimple(g, order) && r.Keys == g.Keys
    requires forall v, es :: v in r && IsWalk(g, "A", es) && End("A", es) == v ==> AtMost(r[v], Weight(es))
    ensures forall v :: v in SimpleDistances() ==> v in r && AtMost(r[v], SimpleDistances()[v])
  {
    SimpleWalks(g, order);
    assert AtMost(r["A"], Weight([]));
    assert AtMost(r["B"], Weight([Edge("B", 2)])) && AtMost(r["D"], Weight([Edge("D", 6)]));
    assert AtMost(r["C"], Weight([Edge("B", 2), Edge("C", 3)]));
    assert AtMost(r["E"], Weight([Edge("D", 6), Edge("E", 2)]));
  }

  /** A result meeting the contract of Dijkstra on that graph is A:0, B:2, C:5, D:6, E:8 and nothing else. */
  lemma SimpleResult(g: Graph, order: seq<Name>, r: map<Name, Distance>)
    requires IsSimple(g, order) && r.Keys == g.Keys
    requires forall v :: v in r && r[v].Some? ==>
      exists es :: IsWalk(g, "A", es) && End("A", es) == v && Weight(es) == r[v].value
    requires forall v, es :: v in r && IsWalk(g, "A", es) && End("A", es) == v ==> AtMost(r[v], Weight(es))
    ensures r.Keys == SimpleDistances().Keys && forall v :: v in r ==> r[v] == Some(SimpleDistances()[v])
  {
    SimpleLower(g, order, r);
    SimpleUpper(g, order, r);
  }

  /** dijkstra on the simple graph of the tests. */
  method SimpleFixture() returns (r: map<Name, Distance>)
    ensures r.Keys == SimpleDistances().Keys && forall v :: v in r ==> r[v] == Some(SimpleDistances()[v])
  {
    var g: Graph := map["A" := [Edge("B", 2), Edge("D", 6)], "B" := [Edge("C", 3), Edge("D", 7)], "C" := [Edge("E", 5)],
                        "D" := [Edge("C", 1), Edge("E", 2)], "E" := []];
    var order := ["A", "B", "C", "D", "E"];
    SimpleShape(g, order);
    r := Dijkstra(g, order, "A");
    SimpleResult(g, order, r);
  }
}
