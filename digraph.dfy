/**
 * Directed graphs given as adjacency lists keyed by vertex, where a vertex
 * without an entry has no successors (the `graph[v] || []` and
 * `adjacencyList.get(v)?.` idioms of the sources). Walks, reachability and
 * distance bounds are defined here once for every graph search of the model.
 */
module Digraph {

  type Adjacency<V> = map<V, seq<V>>

  /** The successors of v, in list order; none when v has no entry. */
  function Succ<V>(g: Adjacency<V>, v: V): seq<V>
  {
    if v in g then g[v] else []
  }

  /** Every vertex mentioned by the graph, as a key or as a successor. */
  function Vertices<V>(g: Adjacency<V>): set<V>
  {
    g.Keys + set u, w | u in g && w in g[u] :: w
  }

  lemma SuccInVertices<V>(g: Adjacency<V>, u: V, w: V)
    requires w in Succ(g, u)
    ensures w in Vertices(g)
  {
  }

  /** No element occurs twice. */
  predicate NoDup<V(==)>(s: seq<V>)
  {
    forall i, j :: 0 <= i < j < |s| ==> s[i] != s[j]
  }

  /** p is a non-empty walk: each vertex is a successor of the one before. */
  predicate IsWalk<V>(g: Adjacency<V>, p: seq<V>)
  {
    |p| > 0 && forall i :: 0 <= i < |p| - 1 ==> p[i + 1] in Succ(g, p[i])
  }

  predicate WalkFromTo<V>(g: Adjacency<V>, p: seq<V>, s: V, v: V)
  {
    IsWalk(g, p) && p[0] == s && p[|p| - 1] == v
  }

  ghost predicate Reachable<V(!new)>(g: Adjacency<V>, s: V, v: V)
  {
    exists p :: WalkFromTo(g, p, s, v)
  }

  /** v can be reached from s in at most d steps. */
  ghost predicate ReachableWithin<V(!new)>(g: Adjacency<V>, s: V, v: V, d: nat)
  {
    exists p :: WalkFromTo(g, p, s, v) && |p| <= d + 1
  }

  /** Extending a walk by one successor gives a walk. */
  lemma WalkSnoc<V>(g: Adjacency<V>, p: seq<V>, s: V, v: V, w: V)
    requires WalkFromTo(g, p, s, v) && w in Succ(g, v)
    ensures WalkFromTo(g, p + [w], s, w)
  {
  }

  /** Dropping the last vertex of a walk of two or more vertices gives a walk. */
  lemma WalkInit<V>(g: Adjacency<V>, p: seq<V>, s: V, v: V)
    requires WalkFromTo(g, p, s, v) && |p| > 1
    ensures WalkFromTo(g, p[..|p| - 1], s, p[|p| - 2]) && v in Succ(g, p[|p| - 2])
  {
  }

  /** A set that holds s and every successor of its members holds every vertex reachable from s. */
  lemma {:induction false} ClosedHoldsWalk<V>(g: Adjacency<V>, S: set<V>, p: seq<V>, s: V, v: V)
    requires s in S
    requires forall u, w :: u in S && w in Succ(g, u) ==> w in S
    requires WalkFromTo(g, p, s, v)
    ensures v in S
    decreases |p|
  {
    if |p| > 1 {
      WalkInit(g, p, s, v);
      ClosedHoldsWalk(g, S, p[..|p| - 1], s, p[|p| - 2]);
    }
  }

  /** A duplicate-free sequence drawn from S is no longer than S is large. */
  lemma {:induction false} NoDupBound<V>(s: seq<V>, S: set<V>)
    requires NoDup(s) && forall i :: 0 <= i < |s| ==> s[i] in S
    ensures |s| <= |S|
  {
    if |s| > 0 {
      assert forall i :: 0 <= i < |s| - 1 ==> s[1..][i] == s[i + 1] && s[i + 1] != s[0];
      NoDupBound(s[1..], S - {s[0]});
    }
  }

  /** A sequence holding every member of S is at least as long as S is large. */
  lemma {:induction false} CoverBound<V>(s: seq<V>, S: set<V>)
    requires forall v :: v in S ==> v in s
    ensures |S| <= |s|
  {
    if |s| > 0 {
      forall v | v in S - {s[0]} ensures v in s[1..] {
        var i :| 0 <= i < |s| && s[i] == v;
        assert s[1..][i - 1] == v;
      }
      CoverBound(s[1..], S - {s[0]});
    } else {
      assert forall v :: v !in S;
      assert S == {};
    }
  }
}
