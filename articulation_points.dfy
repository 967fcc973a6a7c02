/**
 * Articulation points of the catalogue: an iterative depth-first search
 * with an explicit stack of (vertex, next neighbour) frames, which gives
 * each vertex a discovery time and a low-link, records DFS parents and
 * child counts, and reports a vertex when a child's low-link does not
 * reach above it, or when it is a root with more than one child.
 *
 * The state of the search is the Search value; Step is one turn of the
 * inner while loop. The rule for reporting a parent is a parameter:
 * checkParent = false is the rule as written, which applies the parent
 * test to roots too; checkParent = true excludes roots from it.
 */
module ArticulationPoints {

  /** Vertex u's neighbours are graph[u]; the vertices are 0 .. |graph| - 1. */
  type Graph = seq<seq<nat>>

  predicate InRange(g: Graph)
  {
    forall u, k :: 0 <= u < |g| && 0 <= k < |g[u]| ==> g[u][k] < |g|
  }

  /** Every edge is listed at both ends, as for an undirected graph. */
  predicate Symmetric(g: Graph)
  {
    forall u, v :: 0 <= u < |g| && 0 <= v < |g| && v in g[u] ==> u in g[v]
  }

  /** A stack item: a vertex and the position of the next neighbour to look at. */
  datatype Frame = Frame(u: nat, index: nat)

  /** The arrays, the clock, the stack and the reported points (in the order the set received them). */
  datatype Search = Search(
    visited: seq<bool>, disc: seq<nat>, low: seq<nat>, parent: seq<int>, childCount: seq<nat>,
    time: nat, stack: seq<Frame>, points: seq<nat>)

  function Min(a: nat, b: nat): nat
  {
    if a <= b then a else b
  }

  /** Set.add followed by Array.from: a new point goes last, a known one changes nothing. */
  function Add(points: seq<nat>, p: nat): seq<nat>
  {
    if p in points then points else points + [p]
  }

  /** Adding keeps the points already recorded, in order, holds p afterwards, and keeps the points distinct. */
  lemma AddKeeps(points: seq<nat>, p: nat)
    ensures forall x :: x in Add(points, p) <==> x in points || x == p
    ensures |points| <= |Add(points, p)| <= |points| + 1 && Add(points, p)[..|points|] == points
    ensures (forall i, j :: 0 <= i < j < |points| ==> points[i] != points[j]) ==>
      forall i, j :: 0 <= i < j < |Add(points, p)| ==> Add(points, p)[i] != Add(points, p)[j]
  {
    if p !in points {
      assert (points + [p])[..|points|] == points;
    }
  }

  /** The number of vertices not yet visited. */
  function Unvisited(vs: seq<bool>): nat
  {
    if vs == [] then 0 else Unvisited(vs[..|vs| - 1]) + (if vs[|vs| - 1] then 0 else 1)
  }

  /** The number of vertices whose parent is u. */
  function Children(parent: seq<int>, u: int): nat
  {
    if parent == [] then 0 else Children(parent[..|parent| - 1], u) + (if parent[|parent| - 1] == u then 1 else 0)
  }

  lemma {:induction false} UnvisitedMark(vs: seq<bool>, v: nat)
    requires v < |vs| && !vs[v]
    ensures Unvisited(vs[v := true]) + 1 == Unvisited(vs)
    decreases |vs|
  {
    var last := |vs| - 1;
    if v < last {
      assert vs[v := true][..last] == vs[..last][v := true];
      UnvisitedMark(vs[..last], v);
    } else {
      assert vs[v := true][..last] == vs[..last];
    }
  }

  lemma {:induction false} UnvisitedNone(n: nat)
    ensures Unvisited(seq(n, _ => false)) == n
  {
    if n > 0 {
      assert seq(n, _ => false)[..n - 1] == seq(n - 1, _ => false);
      UnvisitedNone(n - 1);
    }
  }

  lemma {:induction false} ChildrenNone(n: nat, u: nat)
    ensures Children(seq(n, _ => -1), u) == 0
  {
    if n > 0 {
      assert seq(n, _ => -1)[..n - 1] == seq(n - 1, _ => -1);
      ChildrenNone(n - 1, u);
    }
  }

  /** Giving v (which had none) the parent u adds one child to u and none to any other vertex. */
  lemma {:induction false} ChildrenAdopt(parent: seq<int>, v: nat, u: nat, w: nat)
    requires v < |parent| && parent[v] == -1
    ensures Children(parent[v := u], w) == Children(parent, w) + (if w == u then 1 else 0)
    decreases |parent|
  {
    var last := |parent| - 1;
    if v < last {
      assert parent[v := u][..last] == parent[..last][v := u];
      ChildrenAdopt(parent[..last], v, u, w);
    } else {
      assert parent[v := u][..last] == parent[..last];
    }
  }

  /** A vertex with a child has a vertex whose parent it is. */
  lemma {:induction false} ChildrenWitness(parent: seq<int>, u: int)
    requires Children(parent, u) > 0
    ensures exists v :: 0 <= v < |parent| && parent[v] == u
    decreases |parent|
  {
    var last := |parent| - 1;
    if parent[last] != u {
      ChildrenWitness(parent[..last], u);
      var v :| 0 <= v < last && parent[..last][v] == u;
      assert parent[v] == u;
    }
  }

  predicate Sized(g: Graph, s: Search)
  {
    && InRange(g)
    && |s.visited| == |g| && |s.disc| == |g| && |s.low| == |g| && |s.parent| == |g| && |s.childCount| == |g|
  }

  function Top(s: Search): Frame
    requires s.stack != []
  {
    s.stack[|s.stack| - 1]
  }

  /** A search that can take a step: a top frame over a vertex, and that vertex's parent a vertex or -1. */
  predicate Ready(g: Graph, s: Search)
  {
    && Sized(g, s) && s.stack != []
    && Top(s).u < |g| && Top(s).index <= |g[Top(s).u]|
    && (s.parent[Top(s).u] == -1 || 0 <= s.parent[Top(s).u] < |g|)
  }

  /** The top frame moves on to the next neighbour. */
  function Bumped(stack: seq<Frame>): seq<Frame>
    requires stack != []
  {
    stack[|stack| - 1 := Frame(stack[|stack| - 1].u, stack[|stack| - 1].index + 1)]
  }

  /**
   * One turn of the while loop: look at the top vertex u's next neighbour v
   * (discover it as u's child, lower u's low-link to v's discovery time
   * unless v is u's parent, or pass over it), or once u has no neighbour
   * left pop it, lowering its parent's low-link and applying the parent rule,
   * or the root rule.
   */
  function Step(g: Graph, s: Search, checkParent: bool): Search
    requires Ready(g, s)
  {
    var u := Top(s).u;
    if Top(s).index < |g[u]| then
      var v := g[u][Top(s).index];
      if !s.visited[v] then
        s.(visited := s.visited[v := true], parent := s.parent[v := u],
           childCount := s.childCount[u := s.childCount[u] + 1],
           disc := s.disc[v := s.time], low := s.low[v := s.time], time := s.time + 1,
           stack := Bumped(s.stack) + [Frame(v, 0)])
      else if v != s.parent[u] then
        s.(low := s.low[u := Min(s.low[u], s.disc[v])], stack := Bumped(s.stack))
      else
        s.(stack := Bumped(s.stack))
    else if s.parent[u] != -1 then
      var p := s.parent[u];
      s.(stack := s.stack[..|s.stack| - 1], low := s.low[p := Min(s.low[p], s.low[u])],
         points := if s.low[u] >= s.disc[p] && (checkParent ==> s.parent[p] != -1) then Add(s.points, p) else s.points)
    else
      s.(stack := s.stack[..|s.stack| - 1], points := if s.childCount[u] > 1 then Add(s.points, u) else s.points)
  }

  /** The start of a new search tree at the unvisited vertex i. */
  function Root(s: Search, i: nat): Search
    requires i < |s.visited| && i < |s.disc| && i < |s.low|
  {
    s.(visited := s.visited[i := true], disc := s.disc[i := s.time], low := s.low[i := s.time],
       time := s.time + 1, stack := [Frame(i, 0)])
  }


  /** The vertices of the frames, bottom to top. */
  function Verts(stack: seq<Frame>): (r: seq<nat>)
    ensures |r| == |stack| && forall k :: 0 <= k < |stack| ==> r[k] == stack[k].u
  {
    if stack == [] then [] else Verts(stack[..|stack| - 1]) + [stack[|stack| - 1].u]
  }

  /** The vertices the search has reached and left: visited and on no frame. */
  predicate Finished(s: Search, v: nat)
    requires v < |s.visited|
  {
    s.visited[v] && v !in Verts(s.stack)
  }

  /** Discovery times are distinct, below the clock, and above the low-links; vertex 0 comes first. */
  predicate Discovered(g: Graph, s: Search)
    requires Sized(g, s)
  {
    && s.time + Unvisited(s.visited) == |g|
    && (forall v :: 0 <= v < |g| && s.visited[v] ==> s.disc[v] < s.time && s.low[v] <= s.disc[v])
    && (forall a, b :: 0 <= a < b < |g| && s.visited[a] && s.visited[b] ==> s.disc[a] != s.disc[b])
    && (s.time > 0 ==> s.visited[0] && s.disc[0] == 0)
  }

  /** A parent is a visited neighbour discovered earlier; a vertex with a parent is visited. */
  predicate Tree(g: Graph, s: Search)
    requires Sized(g, s)
  {
    forall v :: 0 <= v < |g| && s.parent[v] != -1 ==>
      s.visited[v] && 0 <= s.parent[v] < |g| && s.visited[s.parent[v]] && v in g[s.parent[v]] && s.disc[s.parent[v]] < s.disc[v]
  }

  /** childCount counts each vertex's children. */
  predicate Counted(g: Graph, s: Search)
    requires Sized(g, s)
  {
    forall u :: 0 <= u < |g| ==> s.childCount[u] == Children(s.parent, u)
  }

  /** Each frame holds a visited vertex and a position within its neighbours. */
  predicate Frames(g: Graph, s: Search)
    requires Sized(g, s)
  {
    forall k :: 0 <= k < |s.stack| ==> s.stack[k].u < |g| && s.visited[s.stack[k].u] && s.stack[k].index <= |g[s.stack[k].u]|
  }

  /** The neighbours before each frame's position are visited. */
  predicate Scanned(g: Graph, s: Search)
    requires Sized(g, s) && Frames(g, s)
  {
    forall k, j :: 0 <= k < |s.stack| && 0 <= j < s.stack[k].index ==> s.visited[g[s.stack[k].u][j]]
  }

  /**
   * The frames are the tree path from the root of the current tree,
   * discovered at start: each vertex is the parent of the next, later
   * ones discovered later.
   */
  predicate Chain(g: Graph, s: Search, start: nat)
    requires Sized(g, s) && Frames(g, s)
  {
    var p := Verts(s.stack);
    && start <= s.time
    && (p != [] ==> s.parent[p[0]] == -1 && s.disc[p[0]] == start)
    && (forall k :: 0 < k < |p| ==> s.parent[p[k]] == p[k - 1])
    && (forall k, k' :: 0 <= k < k' < |p| ==> s.disc[p[k]] < s.disc[p[k']])
  }

  /** A finished vertex has all its neighbours visited. */
  predicate FinishedScanned(g: Graph, s: Search)
    requires Sized(g, s)
  {
    forall v, j :: 0 <= v < |g| && Finished(s, v) && 0 <= j < |g[v]| ==> s.visited[g[v][j]]
  }

  /** The vertices discovered before start have their neighbours discovered before start too. */
  predicate Closed(g: Graph, s: Search, start: nat)
    requires Sized(g, s)
  {
    forall w, j :: 0 <= w < |g| && s.visited[w] && s.disc[w] < start && 0 <= j < |g[w]| ==>
      s.visited[g[w][j]] && s.disc[g[w][j]] < start
  }

  /** The same for the time of each root: a root's tree meets no earlier vertex. */
  predicate RootsClosed(g: Graph, s: Search)
    requires Sized(g, s)
  {
    forall r :: 0 <= r < |g| && s.visited[r] && s.parent[r] == -1 ==> Closed(g, s, s.disc[r])
  }

  /** In an undirected graph, the low-links of the current tree stay at or above its start. */
  predicate LowBound(g: Graph, s: Search, start: nat)
    requires Sized(g, s)
  {
    Symmetric(g) ==> forall v :: 0 <= v < |g| && s.visited[v] && s.disc[v] >= start ==> s.low[v] >= start
  }

  /** In an undirected graph, the low-link of a root's child is never below the root's time. */
  predicate RootChildLow(g: Graph, s: Search)
    requires Sized(g, s)
  {
    Symmetric(g) ==>
      forall r :: 0 <= r < |g| && s.parent[r] == -1 ==> forall u :: 0 <= u < |g| && s.parent[u] == r ==> s.low[u] >= s.disc[r]
  }

  /** The root rule and the parent rule, over the finished vertices. */
  predicate Reported(g: Graph, s: Search, p: nat, checkParent: bool)
    requires Sized(g, s) && p < |g|
  {
    || (Finished(s, p) && s.parent[p] == -1 && s.childCount[p] > 1)
    || exists u :: 0 <= u < |g| && Finished(s, u) && s.parent[u] == p && (checkParent ==> s.parent[p] != -1) && s.low[u] >= s.disc[p]
  }

  /** The points are distinct and are the vertices the rules report so far. */
  predicate Recorded(g: Graph, s: Search, checkParent: bool)
    requires Sized(g, s)
  {
    && (forall i, j :: 0 <= i < j < |s.points| ==> s.points[i] != s.points[j])
    && (forall p :: p in s.points ==> p < |g| && Reported(g, s, p, checkParent))
    && (forall p :: 0 <= p < |g| && Reported(g, s, p, checkParent) ==> p in s.points)
  }

  predicate Inv(g: Graph, s: Search, start: nat, checkParent: bool)
  {
    && Sized(g, s) && Discovered(g, s) && Tree(g, s) && Counted(g, s)
    && Frames(g, s) && Scanned(g, s) && Chain(g, s, start) && FinishedScanned(g, s)
    && Closed(g, s, start) && RootsClosed(g, s) && LowBound(g, s, start) && RootChildLow(g, s)
    && Recorded(g, s, checkParent)
  }

  /** A search whose finished vertices and their data agree reports the same vertices. */
  lemma ReportedSame(g: Graph, s: Search, t: Search, checkParent: bool)
    requires Sized(g, s) && Sized(g, t) && Tree(g, s)
    requires forall w :: 0 <= w < |g| ==> (Finished(t, w) <==> Finished(s, w))
    requires forall w :: 0 <= w < |g| && Finished(s, w) ==> t.low[w] == s.low[w] && t.childCount[w] == s.childCount[w]
    requires forall w :: 0 <= w < |g| && s.visited[w] ==> t.disc[w] == s.disc[w] && t.parent[w] == s.parent[w]
    ensures forall p :: 0 <= p < |g| ==> (Reported(g, t, p, checkParent) <==> Reported(g, s, p, checkParent))
  {
    forall p | 0 <= p < |g|
      ensures Reported(g, t, p, checkParent) <==> Reported(g, s, p, checkParent)
    {
      if Reported(g, t, p, checkParent) && !(Finished(t, p) && t.parent[p] == -1 && t.childCount[p] > 1) {
        var u :| 0 <= u < |g| && Finished(t, u) && t.parent[u] == p && (checkParent ==> t.parent[p] != -1) && t.low[u] >= t.disc[p];
        assert s.visited[p];
      }
      if Reported(g, s, p, checkParent) && !(Finished(s, p) && s.parent[p] == -1 && s.childCount[p] > 1) {
        var u :| 0 <= u < |g| && Finished(s, u) && s.parent[u] == p && (checkParent ==> s.parent[p] != -1) && s.low[u] >= s.disc[p];
        assert s.visited[p];
      }
    }
  }

  /** Same report, same points. */
  lemma RecordedSame(g: Graph, s: Search, t: Search, checkParent: bool)
    requires Sized(g, s) && Sized(g, t) && Recorded(g, s, checkParent) && t.points == s.points
    requires forall p :: 0 <= p < |g| ==> (Reported(g, t, p, checkParent) <==> Reported(g, s, p, checkParent))
    ensures Recorded(g, t, checkParent)
  {
  }

  /** A report that gains at most q, with q added to the points exactly when it gains it. */
  lemma RecordedAdd(g: Graph, s: Search, t: Search, checkParent: bool, q: nat, c: bool)
    requires Sized(g, s) && Sized(g, t) && Recorded(g, s, checkParent) && q < |g|
    requires t.points == if c then Add(s.points, q) else s.points
    requires forall p :: 0 <= p < |g| ==> (Reported(g, t, p, checkParent) <==> Reported(g, s, p, checkParent) || (p == q && c))
    ensures Recorded(g, t, checkParent)
  {
    if c && q !in s.points {
      assert t.points == s.points + [q];
      forall i, j | 0 <= i < j < |t.points|
        ensures t.points[i] != t.points[j]
      {
        if j == |s.points| {
          assert t.points[i] == s.points[i];
        }
      }
    }
  }

  // ----- The top vertex and its ancestors -----

  /** The frames below the top hold its ancestors, so a parent that is a root is the bottom frame. */
  lemma ParentOfTop(g: Graph, s: Search, start: nat)
    requires Sized(g, s) && Frames(g, s) && Chain(g, s, start) && s.stack != []
    requires 0 <= s.parent[Top(s).u] < |g|
    ensures |s.stack| >= 2 && s.parent[Top(s).u] == s.stack[|s.stack| - 2].u
    ensures s.parent[s.parent[Top(s).u]] == -1 ==> |s.stack| == 2
  {
    var p := Verts(s.stack);
    var k := |s.stack| - 1;
    assert p[k] == Top(s).u;
    if k >= 2 {
      assert s.parent[p[k - 1]] == p[k - 2];
    }
  }

  /** Only the bottom frame holds a root. */
  lemma RootAtBottom(g: Graph, s: Search, start: nat, k: nat)
    requires Sized(g, s) && Frames(g, s) && Chain(g, s, start) && k < |s.stack|
    requires s.parent[s.stack[k].u] == -1
    ensures k == 0
  {
    var p := Verts(s.stack);
    assert p[k] == s.stack[k].u;
    forall j | 0 < j < |p|
      ensures s.parent[p[j]] != -1
    {
      assert s.parent[p[j]] == p[j - 1];
    }
  }

  /** Every frame's vertex was discovered at or after the current tree's start. */
  lemma StackAfterStart(g: Graph, s: Search, start: nat, k: nat)
    requires Sized(g, s) && Frames(g, s) && Chain(g, s, start) && k < |s.stack|
    ensures s.disc[s.stack[k].u] >= start
  {
    var p := Verts(s.stack);
    if k > 0 {
      assert s.disc[p[0]] < s.disc[p[k]];
    }
  }

  // ----- Discovering an unvisited neighbour -----

  /** t is s after discovering v from u. */
  predicate Discovers(g: Graph, s: Search, t: Search, u: nat, v: nat)
  {
    && Sized(g, s) && Sized(g, t) && u < |g| && v < |g| && s.visited[u] && !s.visited[v]
    && t.visited == s.visited[v := true] && t.parent == s.parent[v := u]
    && t.childCount == s.childCount[u := s.childCount[u] + 1]
    && t.disc == s.disc[v := s.time] && t.low == s.low[v := s.time] && t.time == s.time + 1
    && t.points == s.points
  }

  lemma DiscoverDiscovered(g: Graph, s: Search, t: Search, u: nat, v: nat)
    requires Discovers(g, s, t, u, v) && Discovered(g, s)
    ensures Discovered(g, t)
  {
    UnvisitedMark(s.visited, v);
  }

  lemma DiscoverTree(g: Graph, s: Search, t: Search, u: nat, v: nat)
    requires Discovers(g, s, t, u, v) && Discovered(g, s) && Tree(g, s) && v in g[u]
    ensures Tree(g, t)
  {
  }

  lemma DiscoverCounted(g: Graph, s: Search, t: Search, u: nat, v: nat)
    requires Discovers(g, s, t, u, v) && Tree(g, s) && Counted(g, s)
    ensures Counted(g, t)
  {
    forall w | 0 <= w < |g|
      ensures t.childCount[w] == Children(t.parent, w)
    {
      ChildrenAdopt(s.parent, v, u, w);
    }
  }

  lemma DiscoverVerts(s: Search, t: Search, v: nat)
    requires s.stack != [] && t.stack == Bumped(s.stack) + [Frame(v, 0)]
    ensures Verts(t.stack) == Verts(s.stack) + [v]
  {
  }

  lemma DiscoverFrames(g: Graph, s: Search, t: Search, u: nat, v: nat)
    requires Discovers(g, s, t, u, v) && Frames(g, s)
    requires s.stack != [] && Top(s).u == u && Top(s).index < |g[u]| && t.stack == Bumped(s.stack) + [Frame(v, 0)]
    ensures Frames(g, t)
  {
  }

  lemma DiscoverScanned(g: Graph, s: Search, t: Search, u: nat, v: nat)
    requires Discovers(g, s, t, u, v) && Frames(g, s) && Scanned(g, s) && Frames(g, t)
    requires s.stack != [] && Top(s).u == u && Top(s).index < |g[u]| && g[u][Top(s).index] == v
    requires t.stack == Bumped(s.stack) + [Frame(v, 0)]
    ensures Scanned(g, t)
  {
    var n := |s.stack|;
    forall k, j | 0 <= k < |t.stack| && 0 <= j < t.stack[k].index
      ensures t.visited[g[t.stack[k].u][j]]
    {
      if k < n - 1 || j < Top(s).index {
        assert t.stack[k].u == s.stack[k].u;
        assert s.visited[g[s.stack[k].u][j]];
      }
    }
  }

  lemma DiscoverChain(g: Graph, s: Search, t: Search, u: nat, v: nat, start: nat)
    requires Discovers(g, s, t, u, v) && Frames(g, s) && Chain(g, s, start) && Frames(g, t)
    requires forall x :: 0 <= x < |g| && s.visited[x] ==> s.disc[x] < s.time
    requires s.stack != [] && Top(s).u == u && Verts(t.stack) == Verts(s.stack) + [v]
    ensures Chain(g, t, start)
  {
    var p := Verts(s.stack);
    var q := Verts(t.stack);
    assert forall k :: 0 <= k < |p| ==> q[k] == p[k] && p[k] != v && s.disc[p[k]] < s.time;
    assert q[|p|] == v && p[|p| - 1] == u;
    forall k | 0 < k < |q|
      ensures t.parent[q[k]] == q[k - 1]
    {
      if k < |p| {
        assert s.parent[p[k]] == p[k - 1];
      }
    }
    forall k, k' | 0 <= k < k' < |q|
      ensures t.disc[q[k]] < t.disc[q[k']]
    {
      if k' < |p| {
        assert s.disc[p[k]] < s.disc[p[k']];
      }
    }
  }

  lemma DiscoverFinished(g: Graph, s: Search, t: Search, u: nat, v: nat)
    requires Discovers(g, s, t, u, v)
    requires Verts(t.stack) == Verts(s.stack) + [v]
    ensures forall w :: 0 <= w < |g| ==> (Finished(t, w) <==> Finished(s, w))
  {
  }

  lemma DiscoverFinishedScanned(g: Graph, s: Search, t: Search, u: nat, v: nat)
    requires Discovers(g, s, t, u, v) && FinishedScanned(g, s)
    requires forall w :: 0 <= w < |g| ==> (Finished(t, w) <==> Finished(s, w))
    ensures FinishedScanned(g, t)
  {
  }

  lemma DiscoverClosed(g: Graph, s: Search, t: Search, u: nat, v: nat, start: nat)
    requires Discovers(g, s, t, u, v) && Closed(g, s, start) && Discovered(g, s) && start <= s.time
    ensures Closed(g, t, start)
  {
  }

  lemma DiscoverRootsClosed(g: Graph, s: Search, t: Search, u: nat, v: nat)
    requires Discovers(g, s, t, u, v) && RootsClosed(g, s) && Discovered(g, s)
    ensures RootsClosed(g, t)
  {
    forall r | 0 <= r < |g| && t.visited[r] && t.parent[r] == -1
      ensures Closed(g, t, t.disc[r])
    {
      assert Closed(g, s, s.disc[r]);
    }
  }

  lemma DiscoverLow(g: Graph, s: Search, t: Search, u: nat, v: nat, start: nat)
    requires Discovers(g, s, t, u, v) && LowBound(g, s, start) && start <= s.time
    ensures LowBound(g, t, start)
  {
  }

  lemma DiscoverRootChild(g: Graph, s: Search, t: Search, u: nat, v: nat)
    requires Discovers(g, s, t, u, v) && RootChildLow(g, s) && Tree(g, s) && Discovered(g, s)
    ensures RootChildLow(g, t)
  {
  }

  /** The step at an unvisited neighbour v of the top vertex u discovers v. */
  lemma StepDiscovers(g: Graph, s: Search, checkParent: bool)
    requires Sized(g, s) && Frames(g, s) && Ready(g, s)
    requires Top(s).index < |g[Top(s).u]| && !s.visited[g[Top(s).u][Top(s).index]]
    ensures var u := Top(s).u; var v := g[u][Top(s).index]; var t := Step(g, s, checkParent);
      Discovers(g, s, t, u, v) && t.stack == Bumped(s.stack) + [Frame(v, 0)] && v in g[u]
  {
    assert s.stack[|s.stack| - 1].u == Top(s).u;
  }

  /** Discovering v changes nothing the rules look at. */
  lemma DiscoverReported(g: Graph, s: Search, t: Search, u: nat, v: nat, checkParent: bool)
    requires Discovers(g, s, t, u, v) && Tree(g, s) && s.stack != [] && Top(s).u == u
    requires forall w :: 0 <= w < |g| ==> (Finished(t, w) <==> Finished(s, w))
    ensures forall p :: 0 <= p < |g| ==> (Reported(g, t, p, checkParent) <==> Reported(g, s, p, checkParent))
  {
    assert Verts(s.stack)[|s.stack| - 1] == u;
    assert !Finished(s, u);
    ReportedSame(g, s, t, checkParent);
  }

  /** Discovering v from the top vertex u. */
  lemma DiscoverKeepsInv(g: Graph, s: Search, start: nat, checkParent: bool)
    requires Inv(g, s, start, checkParent) && Ready(g, s)
    requires Top(s).index < |g[Top(s).u]| && !s.visited[g[Top(s).u][Top(s).index]]
    ensures Inv(g, Step(g, s, checkParent), start, checkParent)
    ensures Unvisited(Step(g, s, checkParent).visited) < Unvisited(s.visited)
  {
    var u := Top(s).u;
    var v := g[u][Top(s).index];
    var t := Step(g, s, checkParent);
    StepDiscovers(g, s, checkParent);
    UnvisitedMark(s.visited, v);
    DiscoverDiscovered(g, s, t, u, v);
    DiscoverTree(g, s, t, u, v);
    DiscoverCounted(g, s, t, u, v);
    DiscoverVerts(s, t, v);
    DiscoverFrames(g, s, t, u, v);
    DiscoverScanned(g, s, t, u, v);
    DiscoverChain(g, s, t, u, v, start);
    DiscoverFinished(g, s, t, u, v);
    DiscoverFinishedScanned(g, s, t, u, v);
    DiscoverClosed(g, s, t, u, v, start);
    DiscoverRootsClosed(g, s, t, u, v);
    DiscoverLow(g, s, t, u, v, start);
    DiscoverRootChild(g, s, t, u, v);
    DiscoverReported(g, s, t, u, v, checkParent);
    RecordedSame(g, s, t, checkParent);
  }

  // ----- Looking at a visited neighbour -----

  /** t is s after moving the top frame on, with u's low-link lowered or kept. */
  predicate Scans(g: Graph, s: Search, t: Search, u: nat)
  {
    && Sized(g, s) && Sized(g, t) && u < |g| && s.stack != []
    && t.visited == s.visited && t.parent == s.parent && t.childCount == s.childCount
    && t.disc == s.disc && t.time == s.time && t.points == s.points && t.stack == Bumped(s.stack)
    && (forall x :: 0 <= x < |g| && x != u ==> t.low[x] == s.low[x]) && t.low[u] <= s.low[u]
  }

  lemma ScanDiscovered(g: Graph, s: Search, t: Search, u: nat)
    requires Scans(g, s, t, u) && Discovered(g, s)
    ensures Discovered(g, t)
  {
  }

  lemma ScanTree(g: Graph, s: Search, t: Search, u: nat)
    requires Scans(g, s, t, u) && Tree(g, s) && Counted(g, s)
    ensures Tree(g, t) && Counted(g, t)
  {
  }

  lemma ScanVerts(s: Search, t: Search)
    requires s.stack != [] && t.stack == Bumped(s.stack)
    ensures Verts(t.stack) == Verts(s.stack)
  {
  }

  lemma ScanFrames(g: Graph, s: Search, t: Search, u: nat, start: nat)
    requires Scans(g, s, t, u) && Top(s).u == u && Top(s).index < |g[u]| && s.visited[g[u][Top(s).index]]
    requires Frames(g, s) && Scanned(g, s) && Chain(g, s, start) && Verts(t.stack) == Verts(s.stack)
    ensures Frames(g, t) && Scanned(g, t) && Chain(g, t, start)
  {
    var n := |s.stack|;
    forall k, j | 0 <= k < n && 0 <= j < t.stack[k].index
      ensures t.visited[g[t.stack[k].u][j]]
    {
      if k < n - 1 || j < Top(s).index {
        assert s.visited[g[s.stack[k].u][j]];
      }
    }
  }

  lemma ScanFinished(g: Graph, s: Search, t: Search, u: nat)
    requires Scans(g, s, t, u) && FinishedScanned(g, s) && Verts(t.stack) == Verts(s.stack)
    ensures forall w :: 0 <= w < |g| ==> (Finished(t, w) <==> Finished(s, w))
    ensures FinishedScanned(g, t)
  {
  }

  lemma ScanClosed(g: Graph, s: Search, t: Search, u: nat, start: nat)
    requires Scans(g, s, t, u) && Closed(g, s, start) && RootsClosed(g, s)
    ensures Closed(g, t, start) && RootsClosed(g, t)
  {
    forall r | 0 <= r < |g| && t.visited[r] && t.parent[r] == -1
      ensures Closed(g, t, t.disc[r])
    {
      assert Closed(g, s, s.disc[r]);
    }
  }

  /** In an undirected graph, a neighbour of a vertex of the current tree was discovered in it. */
  lemma ScanBound(g: Graph, s: Search, start: nat, u: nat, k: nat)
    requires Sized(g, s) && Closed(g, s, start) && Symmetric(g)
    requires u < |g| && k < |g[u]| && s.visited[g[u][k]] && s.disc[u] >= start
    ensures s.disc[g[u][k]] >= start
  {
    var v := g[u][k];
    assert v in g[u];
    var j :| 0 <= j < |g[v]| && g[v][j] == u;
    var back := s.disc[g[v][j]];
    assert s.disc[v] < start ==> back < start;
  }

  lemma ScanLow(g: Graph, s: Search, t: Search, u: nat, start: nat)
    requires Scans(g, s, t, u) && LowBound(g, s, start)
    requires Symmetric(g) ==> t.low[u] == s.low[u] || t.low[u] >= start
    ensures LowBound(g, t, start)
  {
  }

  lemma ScanRootChild(g: Graph, s: Search, t: Search, u: nat, start: nat)
    requires Scans(g, s, t, u) && Top(s).u == u && Frames(g, s) && Chain(g, s, start) && RootChildLow(g, s)
    requires Symmetric(g) ==> t.low[u] == s.low[u] || t.low[u] >= start
    ensures RootChildLow(g, t)
  {
    if Symmetric(g) && t.low[u] != s.low[u] && 0 <= s.parent[u] < |g| && s.parent[s.parent[u]] == -1 {
      ParentOfTop(g, s, start);
      assert Verts(s.stack)[0] == s.parent[u];
    }
  }

  /** The step at a visited neighbour v of the top vertex u lowers u's low-link to v's time, or keeps it. */
  lemma StepScans(g: Graph, s: Search, checkParent: bool)
    requires Sized(g, s) && Ready(g, s)
    requires Top(s).index < |g[Top(s).u]| && s.visited[g[Top(s).u][Top(s).index]]
    ensures var u := Top(s).u; var t := Step(g, s, checkParent);
      Scans(g, s, t, u) && (t.low[u] == s.low[u] || t.low[u] == s.disc[g[u][Top(s).index]])
  {
  }

  /** Moving on and lowering the top vertex's low-link changes nothing the rules look at. */
  lemma ScanReported(g: Graph, s: Search, t: Search, u: nat, checkParent: bool)
    requires Scans(g, s, t, u) && Tree(g, s) && Top(s).u == u
    requires forall w :: 0 <= w < |g| ==> (Finished(t, w) <==> Finished(s, w))
    ensures forall p :: 0 <= p < |g| ==> (Reported(g, t, p, checkParent) <==> Reported(g, s, p, checkParent))
  {
    assert Verts(s.stack)[|s.stack| - 1] == u;
    assert !Finished(s, u);
    ReportedSame(g, s, t, checkParent);
  }

  /** Lowering the top vertex's low-link to a visited neighbour's time, or passing over the parent. */
  lemma ScanKeepsInv(g: Graph, s: Search, start: nat, checkParent: bool)
    requires Inv(g, s, start, checkParent) && Ready(g, s)
    requires Top(s).index < |g[Top(s).u]| && s.visited[g[Top(s).u][Top(s).index]]
    ensures Inv(g, Step(g, s, checkParent), start, checkParent)
    ensures Unvisited(Step(g, s, checkParent).visited) == Unvisited(s.visited)
    ensures Remaining(g, Step(g, s, checkParent).stack) < Remaining(g, s.stack)
  {
    var u := Top(s).u;
    var t := Step(g, s, checkParent);
    StepScans(g, s, checkParent);
    BumpedRemaining(g, s.stack);
    ScanVerts(s, t);
    ScanDiscovered(g, s, t, u);
    ScanTree(g, s, t, u);
    ScanFrames(g, s, t, u, start);
    ScanFinished(g, s, t, u);
    ScanClosed(g, s, t, u, start);
    if Symmetric(g) && t.low[u] != s.low[u] {
      StackAfterStart(g, s, start, |s.stack| - 1);
      ScanBound(g, s, start, u, Top(s).index);
    }
    ScanLow(g, s, t, u, start);
    ScanRootChild(g, s, t, u, start);
    ScanReported(g, s, t, u, checkParent);
    RecordedSame(g, s, t, checkParent);
  }

  // ----- Popping a vertex -----

  /** t is s with the top frame, over a vertex whose neighbours are all scanned, popped. */
  predicate Pops(g: Graph, s: Search, t: Search)
  {
    && Sized(g, s) && Sized(g, t) && s.stack != [] && Top(s).u < |g| && Top(s).index == |g[Top(s).u]|
    && t.visited == s.visited && t.parent == s.parent && t.childCount == s.childCount
    && t.disc == s.disc && t.time == s.time && t.stack == s.stack[..|s.stack| - 1]
  }

  lemma PopVerts(s: Search, t: Search)
    requires s.stack != [] && t.stack == s.stack[..|s.stack| - 1]
    ensures Verts(t.stack) == Verts(s.stack)[..|s.stack| - 1]
  {
  }

  lemma PopTree(g: Graph, s: Search, t: Search)
    requires Pops(g, s, t) && Tree(g, s) && Counted(g, s)
    ensures Tree(g, t) && Counted(g, t)
  {
  }

  lemma PopFrames(g: Graph, s: Search, t: Search, start: nat)
    requires Pops(g, s, t) && Frames(g, s) && Scanned(g, s) && Chain(g, s, start)
    requires Verts(t.stack) == Verts(s.stack)[..|s.stack| - 1]
    ensures Frames(g, t) && Scanned(g, t) && Chain(g, t, start)
  {
    forall k, j | 0 <= k < |t.stack| && 0 <= j < t.stack[k].index
      ensures t.visited[g[t.stack[k].u][j]]
    {
      assert s.visited[g[s.stack[k].u][j]];
    }
  }

  lemma PopFinished(g: Graph, s: Search, t: Search, start: nat)
    requires Pops(g, s, t) && Frames(g, s) && Chain(g, s, start)
    requires Verts(t.stack) == Verts(s.stack)[..|s.stack| - 1]
    ensures forall w :: 0 <= w < |g| ==> (Finished(t, w) <==> Finished(s, w) || w == Top(s).u)
  {
    var n := |s.stack|;
    var p := Verts(s.stack);
    assert Top(s).u !in Verts(t.stack) by {
      assert forall k :: 0 <= k < n - 1 ==> s.disc[p[k]] < s.disc[p[n - 1]];
    }
  }

  lemma PopFinishedScanned(g: Graph, s: Search, t: Search)
    requires Pops(g, s, t) && Frames(g, s) && Scanned(g, s) && FinishedScanned(g, s)
    requires forall w :: 0 <= w < |g| ==> (Finished(t, w) <==> Finished(s, w) || w == Top(s).u)
    ensures FinishedScanned(g, t)
  {
    var u := Top(s).u;
    forall j | 0 <= j < |g[u]|
      ensures t.visited[g[u][j]]
    {
      assert s.visited[g[s.stack[|s.stack| - 1].u][j]];
    }
  }

  lemma PopClosed(g: Graph, s: Search, t: Search, start: nat)
    requires Pops(g, s, t) && Closed(g, s, start) && RootsClosed(g, s)
    ensures Closed(g, t, start) && RootsClosed(g, t)
  {
    forall r | 0 <= r < |g| && t.visited[r] && t.parent[r] == -1
      ensures Closed(g, t, t.disc[r])
    {
      assert Closed(g, s, s.disc[r]);
    }
  }

  /** The parts of the invariant a pop keeps whatever it does to the low-links and points. */
  lemma PopSame(g: Graph, s: Search, t: Search, start: nat)
    requires Pops(g, s, t) && Frames(g, s) && Scanned(g, s) && Chain(g, s, start) && FinishedScanned(g, s)
    requires Tree(g, s) && Counted(g, s) && Closed(g, s, start) && RootsClosed(g, s)
    ensures Tree(g, t) && Counted(g, t) && Frames(g, t) && Scanned(g, t) && Chain(g, t, start)
    ensures FinishedScanned(g, t) && Closed(g, t, start) && RootsClosed(g, t)
    ensures forall w :: 0 <= w < |g| ==> (Finished(t, w) <==> Finished(s, w) || w == Top(s).u)
  {
    PopVerts(s, t);
    PopTree(g, s, t);
    PopFrames(g, s, t, start);
    PopFinished(g, s, t, start);
    PopFinishedScanned(g, s, t);
    PopClosed(g, s, t, start);
  }

  lemma ReturnDiscovered(g: Graph, s: Search, t: Search, u: nat, p: nat)
    requires Pops(g, s, t) && Discovered(g, s) && u == Top(s).u && p < |g|
    requires t.low == s.low[p := Min(s.low[p], s.low[u])]
    ensures Discovered(g, t)
  {
  }

  lemma ReturnLow(g: Graph, s: Search, t: Search, start: nat, u: nat, p: nat)
    requires Pops(g, s, t) && Frames(g, s) && Chain(g, s, start) && Discovered(g, s) && LowBound(g, s, start)
    requires u == Top(s).u && p == s.parent[u] && p < |g|
    requires t.low == s.low[p := Min(s.low[p], s.low[u])]
    ensures LowBound(g, t, start)
  {
    ParentOfTop(g, s, start);
    StackAfterStart(g, s, start, |s.stack| - 1);
    StackAfterStart(g, s, start, |s.stack| - 2);
  }

  lemma ReturnRootChild(g: Graph, s: Search, t: Search, start: nat, u: nat, p: nat)
    requires Pops(g, s, t) && Frames(g, s) && Chain(g, s, start) && Discovered(g, s) && LowBound(g, s, start) && RootChildLow(g, s)
    requires u == Top(s).u && p == s.parent[u] && p < |g|
    requires t.low == s.low[p := Min(s.low[p], s.low[u])]
    ensures RootChildLow(g, t)
  {
    ParentOfTop(g, s, start);
    var n := |s.stack|;
    if Symmetric(g) && 0 <= s.parent[p] < |g| && s.parent[s.parent[p]] == -1 {
      StackAfterStart(g, s, start, n - 1);
      StackAfterStart(g, s, start, n - 2);
      var q := Verts(s.stack);
      assert q[n - 2] == p && q[n - 1] == u;
      assert s.parent[q[n - 2]] == q[n - 3];
      RootAtBottom(g, s, start, n - 3);
      assert q[0] == s.parent[p];
    }
  }

  lemma ReturnReported(g: Graph, s: Search, t: Search, checkParent: bool, u: nat, q: nat)
    requires Sized(g, s) && Sized(g, t) && Tree(g, s)
    requires u < |g| && 0 <= s.parent[u] < |g| && q < |g|
    requires forall w :: 0 <= w < |g| ==> (Finished(t, w) <==> Finished(s, w) || w == u)
    requires !Finished(s, u) && !Finished(t, s.parent[u])
    requires t.visited == s.visited && t.disc == s.disc && t.parent == s.parent && t.childCount == s.childCount
    requires forall x :: 0 <= x < |g| && x != s.parent[u] ==> t.low[x] == s.low[x]
    ensures Reported(g, t, q, checkParent) <==> Reported(g, s, q, checkParent) || (q == s.parent[u] && s.low[u] >= s.disc[q] && (checkParent ==> s.parent[q] != -1))
  {
    ReportedAfterReturn(g, s, t, checkParent, u, q);
    ReportedBeforeReturn(g, s, t, checkParent, u, q);
  }

  /** What the rules report after the return was reported before, or is the parent the returning vertex makes a point. */
  lemma ReportedAfterReturn(g: Graph, s: Search, t: Search, checkParent: bool, u: nat, q: nat)
    requires Sized(g, s) && Sized(g, t) && Tree(g, s)
    requires u < |g| && 0 <= s.parent[u] < |g| && q < |g|
    requires forall w :: 0 <= w < |g| ==> (Finished(t, w) <==> Finished(s, w) || w == u)
    requires !Finished(s, u) && !Finished(t, s.parent[u])
    requires t.visited == s.visited && t.disc == s.disc && t.parent == s.parent && t.childCount == s.childCount
    requires forall x :: 0 <= x < |g| && x != s.parent[u] ==> t.low[x] == s.low[x]
    ensures Reported(g, t, q, checkParent) ==> Reported(g, s, q, checkParent) || (q == s.parent[u] && s.low[u] >= s.disc[q] && (checkParent ==> s.parent[q] != -1))
  {
    if Reported(g, t, q, checkParent) && !(Finished(t, q) && t.parent[q] == -1 && t.childCount[q] > 1) {
      var w :| 0 <= w < |g| && Finished(t, w) && t.parent[w] == q && (checkParent ==> t.parent[q] != -1) && t.low[w] >= t.disc[q];
      if w != u {
        assert Finished(s, w) && t.low[w] == s.low[w];
      }
    }
  }

  /** What the rules reported before the return, and the parent rule at the returning vertex, are reported after it. */
  lemma ReportedBeforeReturn(g: Graph, s: Search, t: Search, checkParent: bool, u: nat, q: nat)
    requires Sized(g, s) && Sized(g, t) && Tree(g, s)
    requires u < |g| && 0 <= s.parent[u] < |g| && q < |g|
    requires forall w :: 0 <= w < |g| ==> (Finished(t, w) <==> Finished(s, w) || w == u)
    requires !Finished(s, u) && !Finished(t, s.parent[u])
    requires t.visited == s.visited && t.disc == s.disc && t.parent == s.parent && t.childCount == s.childCount
    requires forall x :: 0 <= x < |g| && x != s.parent[u] ==> t.low[x] == s.low[x]
    ensures Reported(g, s, q, checkParent) || (q == s.parent[u] && s.low[u] >= s.disc[q] && (checkParent ==> s.parent[q] != -1)) ==> Reported(g, t, q, checkParent)
  {
    var p := s.parent[u];
    if Reported(g, s, q, checkParent) && !(Finished(s, q) && s.parent[q] == -1 && s.childCount[q] > 1) {
      var w :| 0 <= w < |g| && Finished(s, w) && s.parent[w] == q && (checkParent ==> s.parent[q] != -1) && s.low[w] >= s.disc[q];
      assert w != u && Finished(t, w) && w != p;
    }
    if q == p && s.low[u] >= s.disc[q] && (checkParent ==> s.parent[q] != -1) {
      assert Finished(t, u);
    }
  }

  /** Popping a vertex with a parent: the parent rule. */
  lemma ReturnKeepsInv(g: Graph, s: Search, start: nat, checkParent: bool)
    requires Inv(g, s, start, checkParent) && Ready(g, s)
    requires Top(s).index == |g[Top(s).u]| && s.parent[Top(s).u] != -1
    ensures Inv(g, Step(g, s, checkParent), start, checkParent)
  {
    ReturnStructure(g, s, start, checkParent);
    ReturnPoints(g, s, start, checkParent);
  }

  /** Popping a vertex with a parent keeps the forest, the frames and the low-link bounds. */
  lemma ReturnStructure(g: Graph, s: Search, start: nat, checkParent: bool)
    requires Inv(g, s, start, checkParent) && Ready(g, s)
    requires Top(s).index == |g[Top(s).u]| && s.parent[Top(s).u] != -1
    ensures var t := Step(g, s, checkParent);
      && Sized(g, t) && Discovered(g, t) && Tree(g, t) && Counted(g, t)
      && Frames(g, t) && Scanned(g, t) && Chain(g, t, start) && FinishedScanned(g, t)
      && Closed(g, t, start) && RootsClosed(g, t) && LowBound(g, t, start) && RootChildLow(g, t)
  {
    var u := Top(s).u;
    var p := s.parent[u];
    var t := Step(g, s, checkParent);
    assert Pops(g, s, t);
    PopSame(g, s, t, start);
    ReturnDiscovered(g, s, t, u, p);
    ReturnLow(g, s, t, start, u, p);
    ReturnRootChild(g, s, t, start, u, p);
  }

  /** Popping a vertex with a parent records the parent exactly when the parent rule reports it. */
  lemma ReturnPoints(g: Graph, s: Search, start: nat, checkParent: bool)
    requires Inv(g, s, start, checkParent) && Ready(g, s)
    requires Top(s).index == |g[Top(s).u]| && s.parent[Top(s).u] != -1
    ensures Sized(g, Step(g, s, checkParent)) && Recorded(g, Step(g, s, checkParent), checkParent)
  {
    var u := Top(s).u;
    var p := s.parent[u];
    var t := Step(g, s, checkParent);
    var n := |s.stack|;
    assert Pops(g, s, t);
    PopSame(g, s, t, start);
    ParentOfTop(g, s, start);
    PopVerts(s, t);
    assert Verts(s.stack)[n - 1] == u && Verts(t.stack)[n - 2] == p;
    ReturnRecorded(g, s, t, checkParent, u);
  }

  /** The parent rule applied to the popped vertex and its parent keeps the points recorded. */
  lemma ReturnRecorded(g: Graph, s: Search, t: Search, checkParent: bool, u: nat)
    requires Sized(g, s) && Sized(g, t) && Tree(g, s) && Recorded(g, s, checkParent)
    requires u < |g| && 0 <= s.parent[u] < |g|
    requires forall w :: 0 <= w < |g| ==> (Finished(t, w) <==> Finished(s, w) || w == u)
    requires !Finished(s, u) && !Finished(t, s.parent[u])
    requires t.visited == s.visited && t.disc == s.disc && t.parent == s.parent && t.childCount == s.childCount
    requires forall x :: 0 <= x < |g| && x != s.parent[u] ==> t.low[x] == s.low[x]
    requires var p := s.parent[u]; var c := s.low[u] >= s.disc[p] && (checkParent ==> s.parent[p] != -1);
      t.points == if c then Add(s.points, p) else s.points
    ensures Recorded(g, t, checkParent)
  {
    var p := s.parent[u];
    var c := s.low[u] >= s.disc[p] && (checkParent ==> s.parent[p] != -1);
    forall q | 0 <= q < |g|
      ensures Reported(g, t, q, checkParent) <==> Reported(g, s, q, checkParent) || (q == p && c)
    {
      ReturnReported(g, s, t, checkParent, u, q);
    }
    RecordedAdd(g, s, t, checkParent, p, c);
  }

  /** Popping a vertex with a parent visits nothing and leaves no neighbour to scan on the frames below. */
  lemma ReturnMeasures(g: Graph, s: Search, start: nat, checkParent: bool)
    requires Inv(g, s, start, checkParent) && Ready(g, s)
    requires Top(s).index == |g[Top(s).u]| && s.parent[Top(s).u] != -1
    ensures Unvisited(Step(g, s, checkParent).visited) == Unvisited(s.visited)
    ensures Remaining(g, Step(g, s, checkParent).stack) == Remaining(g, s.stack)
    ensures |Step(g, s, checkParent).stack| < |s.stack|
  {
    PopRemaining(g, s.stack);
  }

  lemma FinishRootReported(g: Graph, s: Search, t: Search, checkParent: bool, u: nat, q: nat)
    requires Sized(g, s) && Sized(g, t) && u < |g| && q < |g| && s.parent[u] == -1
    requires forall w :: 0 <= w < |g| ==> (Finished(t, w) <==> Finished(s, w) || w == u)
    requires t.visited == s.visited && t.disc == s.disc && t.parent == s.parent && t.childCount == s.childCount && t.low == s.low
    ensures Reported(g, t, q, checkParent) <==> Reported(g, s, q, checkParent) || (q == u && s.childCount[u] > 1)
  {
    if Reported(g, t, q, checkParent) && !(Finished(t, q) && t.parent[q] == -1 && t.childCount[q] > 1) {
      var w :| 0 <= w < |g| && Finished(t, w) && t.parent[w] == q && (checkParent ==> t.parent[q] != -1) && t.low[w] >= t.disc[q];
      assert Finished(s, w);
    }
    if Reported(g, s, q, checkParent) && !(Finished(s, q) && s.parent[q] == -1 && s.childCount[q] > 1) {
      var w :| 0 <= w < |g| && Finished(s, w) && s.parent[w] == q && (checkParent ==> s.parent[q] != -1) && s.low[w] >= s.disc[q];
      assert Finished(t, w);
    }
  }

  /** Popping a root: the root rule, and the stack is empty. */
  lemma FinishRootKeepsInv(g: Graph, s: Search, start: nat, checkParent: bool)
    requires Inv(g, s, start, checkParent) && Ready(g, s)
    requires Top(s).index == |g[Top(s).u]| && s.parent[Top(s).u] == -1
    ensures Inv(g, Step(g, s, checkParent), start, checkParent) && Step(g, s, checkParent).stack == []
    ensures Unvisited(Step(g, s, checkParent).visited) == Unvisited(s.visited)
  {
    var u := Top(s).u;
    var t := Step(g, s, checkParent);
    var n := |s.stack|;
    RootAtBottom(g, s, start, n - 1);
    assert Pops(g, s, t) && t.low == s.low && t.stack == [];
    PopSame(g, s, t, start);
    forall q | 0 <= q < |g|
      ensures Reported(g, t, q, checkParent) <==> Reported(g, s, q, checkParent) || (q == u && s.childCount[u] > 1)
    {
      FinishRootReported(g, s, t, checkParent, u, q);
    }
    RecordedAdd(g, s, t, checkParent, u, s.childCount[u] > 1);
  }

  /** The unscanned neighbours of the frames. */
  function Remaining(g: Graph, stack: seq<Frame>): nat
  {
    if stack == [] then 0
    else
      var f := stack[|stack| - 1];
      Remaining(g, stack[..|stack| - 1]) + (if f.u < |g| && f.index <= |g[f.u]| then |g[f.u]| - f.index else 0)
  }

  lemma BumpedRemaining(g: Graph, stack: seq<Frame>)
    requires stack != [] && stack[|stack| - 1].u < |g| && stack[|stack| - 1].index < |g[stack[|stack| - 1].u]|
    ensures Remaining(g, Bumped(stack)) + 1 == Remaining(g, stack)
  {
    assert Bumped(stack)[..|stack| - 1] == stack[..|stack| - 1];
  }

  lemma PopRemaining(g: Graph, stack: seq<Frame>)
    requires stack != [] && stack[|stack| - 1].u < |g| && stack[|stack| - 1].index == |g[stack[|stack| - 1].u]|
    ensures Remaining(g, stack[..|stack| - 1]) == Remaining(g, stack)
  {
  }

  // ----- A new tree -----

  /** Starting a tree at an unvisited vertex i, when every vertex before i is visited and the stack is empty. */
  lemma RootKeepsInv(g: Graph, s: Search, start: nat, checkParent: bool, i: nat)
    requires Inv(g, s, start, checkParent) && s.stack == [] && i < |g| && !s.visited[i]
    requires forall v :: 0 <= v < i ==> s.visited[v]
    ensures Inv(g, Root(s, i), s.time, checkParent)
    ensures Unvisited(Root(s, i).visited) < Unvisited(s.visited)
  {
    var t := Root(s, i);
    UnvisitedMark(s.visited, i);
    assert 0 < i ==> s.visited[0];
    assert Verts(t.stack) == [i];
    RootDiscovered(g, s, t, i);
    RootTree(g, s, t, i);
    RootPath(g, s, t, i);
    RootClosed(g, s, t, i);
    RootRootsClosed(g, s, t, i);
    RootLow(g, s, t, i);
    RootChild(g, s, t, i);
    RootFinished(g, s, t, i);
    RootReported(g, s, t, i, checkParent);
    RecordedSame(g, s, t, checkParent);
  }

  /** Starting a tree changes nothing the rules look at. */
  lemma RootReported(g: Graph, s: Search, t: Search, i: nat, checkParent: bool)
    requires Sized(g, s) && Tree(g, s) && i < |g| && !s.visited[i] && t == Root(s, i)
    requires forall w :: 0 <= w < |g| ==> (Finished(t, w) <==> Finished(s, w))
    ensures Sized(g, t)
    ensures forall p :: 0 <= p < |g| ==> (Reported(g, t, p, checkParent) <==> Reported(g, s, p, checkParent))
  {
    ReportedSame(g, s, t, checkParent);
  }

  lemma RootDiscovered(g: Graph, s: Search, t: Search, i: nat)
    requires Sized(g, s) && Discovered(g, s) && i < |g| && !s.visited[i] && t == Root(s, i) && (s.time == 0 ==> i == 0)
    requires Unvisited(t.visited) + 1 == Unvisited(s.visited)
    ensures Sized(g, t) && Discovered(g, t)
  {
  }

  lemma RootTree(g: Graph, s: Search, t: Search, i: nat)
    requires Sized(g, s) && Tree(g, s) && Counted(g, s) && i < |g| && !s.visited[i] && t == Root(s, i)
    ensures Sized(g, t) && Tree(g, t) && Counted(g, t)
  {
  }

  lemma RootPath(g: Graph, s: Search, t: Search, i: nat)
    requires Sized(g, s) && Tree(g, s) && i < |g| && !s.visited[i] && t == Root(s, i) && s.stack == []
    requires Verts(t.stack) == [i]
    ensures Sized(g, t) && Frames(g, t) && Scanned(g, t) && Chain(g, t, s.time)
  {
  }

  lemma RootFinished(g: Graph, s: Search, t: Search, i: nat)
    requires Sized(g, s) && FinishedScanned(g, s) && i < |g| && !s.visited[i] && t == Root(s, i) && s.stack == []
    requires Verts(t.stack) == [i]
    ensures Sized(g, t) && FinishedScanned(g, t)
    ensures forall w :: 0 <= w < |g| ==> (Finished(t, w) <==> Finished(s, w))
  {
  }

  lemma RootClosed(g: Graph, s: Search, t: Search, i: nat)
    requires Sized(g, s) && Discovered(g, s) && FinishedScanned(g, s) && i < |g| && !s.visited[i] && t == Root(s, i) && s.stack == []
    ensures Sized(g, t) && Closed(g, t, s.time)
  {
    assert forall w :: 0 <= w < |g| && s.visited[w] ==> Finished(s, w);
  }

  lemma RootRootsClosed(g: Graph, s: Search, t: Search, i: nat)
    requires Sized(g, s) && Discovered(g, s) && RootsClosed(g, s) && i < |g| && !s.visited[i] && t == Root(s, i)
    requires Closed(g, t, s.time)
    ensures Sized(g, t) && RootsClosed(g, t)
  {
    forall r | 0 <= r < |g| && t.visited[r] && t.parent[r] == -1
      ensures Closed(g, t, t.disc[r])
    {
      if r != i {
        assert Closed(g, s, s.disc[r]);
      }
    }
  }

  lemma RootLow(g: Graph, s: Search, t: Search, i: nat)
    requires Sized(g, s) && i < |g| && !s.visited[i] && t == Root(s, i)
    requires forall v :: 0 <= v < |g| && s.visited[v] ==> s.disc[v] < s.time
    ensures Sized(g, t) && LowBound(g, t, s.time)
  {
  }

  lemma RootChild(g: Graph, s: Search, t: Search, i: nat)
    requires Sized(g, s) && Tree(g, s) && RootChildLow(g, s) && i < |g| && !s.visited[i] && t == Root(s, i)
    ensures Sized(g, t) && RootChildLow(g, t)
  {
    if Symmetric(g) {
      forall r, u | 0 <= r < |g| && t.parent[r] == -1 && 0 <= u < |g| && t.parent[u] == r
        ensures t.low[u] >= t.disc[r]
      {
        assert s.visited[r] && s.visited[u];
        assert s.low[u] >= s.disc[r];
      }
    }
  }

  // ----- What the low-links are -----

  /**
   * The low-link rule at u over its first m neighbours: low[u] is at most
   * u's own time, the time of each of those neighbours other than u's
   * parent, and the low-link of each finished child of u, and it is one of
   * these values.
   */
  predicate LowRule(g: Graph, s: Search, u: nat, m: nat)
    requires Sized(g, s) && u < |g| && m <= |g[u]|
  {
    && s.low[u] <= s.disc[u]
    && (forall j :: 0 <= j < m && g[u][j] != s.parent[u] ==> s.low[u] <= s.disc[g[u][j]])
    && (forall c :: 0 <= c < |g| && s.parent[c] == u && Finished(s, c) ==> s.low[u] <= s.low[c])
    && (|| s.low[u] == s.disc[u]
        || (exists j :: 0 <= j < m && g[u][j] != s.parent[u] && s.low[u] == s.disc[g[u][j]])
        || (exists c :: 0 <= c < |g| && s.parent[c] == u && Finished(s, c) && s.low[u] == s.low[c]))
  }

  /** The rule holds at each finished vertex over all its neighbours, and at each frame over the neighbours it has passed. */
  predicate Linked(g: Graph, s: Search)
    requires Sized(g, s) && Frames(g, s)
  {
    && (forall u :: 0 <= u < |g| && Finished(s, u) ==> LowRule(g, s, u, |g[u]|))
    && (forall k :: 0 <= k < |s.stack| ==> LowRule(g, s, s.stack[k].u, s.stack[k].index))
  }

  /** The rule at u survives a change that leaves u's data, its passed neighbours' times and its finished children alone. */
  lemma LowRuleSame(g: Graph, s: Search, t: Search, u: nat, m: nat)
    requires Sized(g, s) && Sized(g, t) && u < |g| && m <= |g[u]| && LowRule(g, s, u, m)
    requires t.low[u] == s.low[u] && t.disc[u] == s.disc[u] && t.parent[u] == s.parent[u]
    requires forall j :: 0 <= j < m ==> t.disc[g[u][j]] == s.disc[g[u][j]]
    requires forall c :: 0 <= c < |g| ==> ((t.parent[c] == u && Finished(t, c)) <==> (s.parent[c] == u && Finished(s, c)))
    requires forall c :: 0 <= c < |g| && s.parent[c] == u && Finished(s, c) ==> t.low[c] == s.low[c]
    ensures LowRule(g, t, u, m)
  {
    if s.low[u] != s.disc[u] {
      if exists j :: 0 <= j < m && g[u][j] != s.parent[u] && s.low[u] == s.disc[g[u][j]] {
        var j :| 0 <= j < m && g[u][j] != s.parent[u] && s.low[u] == s.disc[g[u][j]];
        assert t.low[u] == t.disc[g[u][j]];
      } else {
        var c :| 0 <= c < |g| && s.parent[c] == u && Finished(s, c) && s.low[u] == s.low[c];
        assert t.parent[c] == u && Finished(t, c) && t.low[u] == t.low[c];
      }
    }
  }

  /** Passing one more neighbour whose time is not below low[u], or which is u's parent, keeps the rule. */
  lemma LowRuleGrow(g: Graph, s: Search, u: nat, m: nat)
    requires Sized(g, s) && u < |g| && m < |g[u]| && LowRule(g, s, u, m)
    requires g[u][m] != s.parent[u] ==> s.low[u] <= s.disc[g[u][m]]
    ensures LowRule(g, s, u, m + 1)
  {
    if s.low[u] != s.disc[u] && exists j :: 0 <= j < m && g[u][j] != s.parent[u] && s.low[u] == s.disc[g[u][j]] {
      var j :| 0 <= j < m && g[u][j] != s.parent[u] && s.low[u] == s.disc[g[u][j]];
      assert j < m + 1;
    }
  }

  /** Lowering low[u] to the time of its next neighbour v, which is not its parent, keeps the rule with v passed. */
  lemma LowRuleLower(g: Graph, s: Search, t: Search, u: nat, m: nat)
    requires Sized(g, s) && Sized(g, t) && u < |g| && m < |g[u]| && LowRule(g, s, u, m) && g[u][m] != s.parent[u]
    requires t.low == s.low[u := Min(s.low[u], s.disc[g[u][m]])] && t.disc == s.disc && t.parent == s.parent
    requires !Finished(s, u) && t.visited == s.visited && Verts(t.stack) == Verts(s.stack)
    ensures LowRule(g, t, u, m + 1)
  {
    if t.low[u] == s.low[u] {
      LowRuleSame(g, s, t, u, m);
      LowRuleGrow(g, t, u, m);
    } else {
      assert t.low[u] == t.disc[g[u][m]];
    }
  }

  /** The parent p of a vertex u that finishes keeps the rule with low[p] lowered to low[u]. */
  lemma LowRuleReturn(g: Graph, s: Search, t: Search, u: nat, p: nat, m: nat)
    requires Sized(g, s) && Sized(g, t) && p < |g| && m <= |g[p]| && LowRule(g, s, p, m)
    requires u < |g| && u != p && s.parent[u] == p && s.parent[p] != p && !Finished(s, u)
    requires t.low == s.low[p := Min(s.low[p], s.low[u])] && t.disc == s.disc && t.parent == s.parent
    requires forall c :: 0 <= c < |g| ==> (Finished(t, c) <==> Finished(s, c) || c == u)
    ensures LowRule(g, t, p, m)
  {
    if t.low[p] == s.low[p] {
      if s.low[p] != s.disc[p] {
        if exists j :: 0 <= j < m && g[p][j] != s.parent[p] && s.low[p] == s.disc[g[p][j]] {
          var j :| 0 <= j < m && g[p][j] != s.parent[p] && s.low[p] == s.disc[g[p][j]];
          assert t.low[p] == t.disc[g[p][j]];
        } else {
          var c :| 0 <= c < |g| && s.parent[c] == p && Finished(s, c) && s.low[p] == s.low[c];
          assert c != p && Finished(t, c) && t.low[p] == t.low[c];
        }
      }
    } else {
      assert Finished(t, u) && t.low[p] == t.low[u];
    }
  }

  /** Chain's increasing times make the frames' vertices distinct. */
  lemma FramesDistinct(g: Graph, s: Search, start: nat)
    requires Sized(g, s) && Frames(g, s) && Chain(g, s, start)
    ensures forall k, k' :: 0 <= k < k' < |s.stack| ==> s.stack[k].u != s.stack[k'].u
  {
    var p := Verts(s.stack);
    forall k, k' | 0 <= k < k' < |s.stack|
      ensures s.stack[k].u != s.stack[k'].u
    {
      assert s.disc[p[k]] < s.disc[p[k']];
    }
  }

  /** Discovering v changes nothing a finished vertex's rule looks at. */
  lemma DiscoverFinishedRule(g: Graph, s: Search, t: Search, u: nat, v: nat, x: nat)
    requires Discovers(g, s, t, u, v) && Tree(g, s) && FinishedScanned(g, s)
    requires forall w :: 0 <= w < |g| ==> (Finished(t, w) <==> Finished(s, w))
    requires x < |g| && Finished(s, x) && LowRule(g, s, x, |g[x]|)
    ensures LowRule(g, t, x, |g[x]|)
  {
    assert forall j :: 0 <= j < |g[x]| ==> g[x][j] != v;
    LowRuleSame(g, s, t, x, |g[x]|);
  }

  /** Discovering v changes nothing the rule of a frame below the top looks at. */
  lemma DiscoverFrameRule(g: Graph, s: Search, t: Search, u: nat, v: nat, y: nat, m: nat)
    requires Discovers(g, s, t, u, v) && Tree(g, s)
    requires forall w :: 0 <= w < |g| ==> (Finished(t, w) <==> Finished(s, w))
    requires y < |g| && s.visited[y] && m <= |g[y]| && LowRule(g, s, y, m)
    requires forall j :: 0 <= j < m ==> s.visited[g[y][j]]
    ensures LowRule(g, t, y, m)
  {
    assert forall j :: 0 <= j < m ==> g[y][j] != v;
    LowRuleSame(g, s, t, y, m);
  }

  /** Discovering v from u leaves the finished vertices' rules. */
  lemma DiscoverLinkedFinished(g: Graph, s: Search, t: Search, u: nat, v: nat)
    requires Discovers(g, s, t, u, v) && Tree(g, s) && Frames(g, s) && FinishedScanned(g, s) && Frames(g, t)
    requires forall w :: 0 <= w < |g| ==> (Finished(t, w) <==> Finished(s, w))
    requires Linked(g, s)
    ensures forall x :: 0 <= x < |g| && Finished(t, x) ==> LowRule(g, t, x, |g[x]|)
  {
    forall x | 0 <= x < |g| && Finished(t, x)
      ensures LowRule(g, t, x, |g[x]|)
    {
      DiscoverFinishedRule(g, s, t, u, v, x);
    }
  }

  /** Discovering v from u: v starts with its own time, u passes v, whose time is later than low[u]. */
  lemma DiscoverLinkedFrames(g: Graph, s: Search, t: Search, u: nat, v: nat)
    requires Discovers(g, s, t, u, v) && Discovered(g, s) && Tree(g, s) && Frames(g, s) && Scanned(g, s)
    requires s.stack != [] && Top(s).u == u && Top(s).index < |g[u]| && g[u][Top(s).index] == v
    requires t.stack == Bumped(s.stack) + [Frame(v, 0)] && Frames(g, t)
    requires forall w :: 0 <= w < |g| ==> (Finished(t, w) <==> Finished(s, w))
    requires forall k :: 0 <= k < |s.stack| ==> LowRule(g, s, s.stack[k].u, s.stack[k].index)
    ensures forall k :: 0 <= k < |t.stack| ==> LowRule(g, t, t.stack[k].u, t.stack[k].index)
  {
    var n := |s.stack|;
    DiscoverStackShape(s, t, v);
    DiscoverBelowRules(g, s, t, u, v);
    TopFrameFacts(g, s);
    DiscoverTopFrame(g, s, t, u, v, Top(s).index);
    DiscoverNewRule(g, s, t, u, v);
    forall k | 0 <= k < |t.stack|
      ensures LowRule(g, t, t.stack[k].u, t.stack[k].index)
    {
      if k == n {
        assert t.stack[k] == Frame(v, 0);
      }
    }
  }

  /** The frames after discovering v: those below the top unchanged, the top moved on, v's frame above. */
  lemma DiscoverStackShape(s: Search, t: Search, v: nat)
    requires s.stack != [] && t.stack == Bumped(s.stack) + [Frame(v, 0)]
    ensures |t.stack| == |s.stack| + 1 && t.stack[|s.stack|] == Frame(v, 0)
    ensures t.stack[|s.stack| - 1] == Frame(Top(s).u, Top(s).index + 1)
    ensures forall k :: 0 <= k < |s.stack| - 1 ==> t.stack[k] == s.stack[k]
  {
  }

  /** What the invariant says about the top frame: its rule, and its passed neighbours visited. */
  lemma TopFrameFacts(g: Graph, s: Search)
    requires Sized(g, s) && Frames(g, s) && Scanned(g, s) && s.stack != []
    requires forall k :: 0 <= k < |s.stack| ==> LowRule(g, s, s.stack[k].u, s.stack[k].index)
    ensures Top(s).u < |g| && Top(s).index <= |g[Top(s).u]| && LowRule(g, s, Top(s).u, Top(s).index)
    ensures forall j :: 0 <= j < Top(s).index ==> s.visited[g[Top(s).u][j]]
  {
    var n := |s.stack|;
    assert s.stack[n - 1] == Top(s);
    forall j | 0 <= j < Top(s).index
      ensures s.visited[g[Top(s).u][j]]
    {
      assert s.visited[g[s.stack[n - 1].u][j]];
    }
  }

  /** The top frame's rule after discovering v: v is passed, and its time is later than low[u]. */
  lemma DiscoverTopFrame(g: Graph, s: Search, t: Search, u: nat, v: nat, m: nat)
    requires Discovers(g, s, t, u, v) && Tree(g, s) && s.disc[u] < s.time
    requires m < |g[u]| && g[u][m] == v && LowRule(g, s, u, m)
    requires forall j :: 0 <= j < m ==> s.visited[g[u][j]]
    requires forall w :: 0 <= w < |g| ==> (Finished(t, w) <==> Finished(s, w))
    ensures LowRule(g, t, u, m + 1)
  {
    DiscoverFrameRule(g, s, t, u, v, u, m);
    LowRuleGrow(g, t, u, m);
  }

  /** Discovering v leaves the rules of the frames below the top. */
  lemma DiscoverBelowRules(g: Graph, s: Search, t: Search, u: nat, v: nat)
    requires Discovers(g, s, t, u, v) && Tree(g, s) && Frames(g, s) && Scanned(g, s) && s.stack != []
    requires |t.stack| > |s.stack| && forall k :: 0 <= k < |s.stack| - 1 ==> t.stack[k] == s.stack[k]
    requires forall w :: 0 <= w < |g| ==> (Finished(t, w) <==> Finished(s, w))
    requires forall k :: 0 <= k < |s.stack| ==> LowRule(g, s, s.stack[k].u, s.stack[k].index)
    ensures forall k :: 0 <= k < |s.stack| - 1 ==> LowRule(g, t, t.stack[k].u, t.stack[k].index)
  {
    forall k | 0 <= k < |s.stack| - 1
      ensures LowRule(g, t, t.stack[k].u, t.stack[k].index)
    {
      DiscoverFrameRule(g, s, t, u, v, s.stack[k].u, s.stack[k].index);
    }
  }

  /** v starts with its own time and no child. */
  lemma DiscoverNewRule(g: Graph, s: Search, t: Search, u: nat, v: nat)
    requires Discovers(g, s, t, u, v) && Tree(g, s)
    ensures LowRule(g, t, v, 0)
  {
    assert forall c :: 0 <= c < |g| ==> t.parent[c] != v;
  }

  /** Passing a visited neighbour v of u: low[u] drops to v's time unless v is u's parent. */
  lemma ScanLinked(g: Graph, s: Search, t: Search, u: nat, start: nat)
    requires Scans(g, s, t, u) && Top(s).u == u && Top(s).index < |g[u]| && Frames(g, s) && Chain(g, s, start)
    requires Verts(t.stack) == Verts(s.stack) && Frames(g, t) && Linked(g, s)
    requires var v := g[u][Top(s).index];
      t.low == if v != s.parent[u] then s.low[u := Min(s.low[u], s.disc[v])] else s.low
    ensures Linked(g, t)
  {
    var n := |s.stack|;
    assert s.stack[n - 1] == Top(s) && Verts(s.stack)[n - 1] == u;
    FramesDistinct(g, s, start);
    forall x | 0 <= x < |g| && Finished(t, x)
      ensures LowRule(g, t, x, |g[x]|)
    {
      LowRuleSame(g, s, t, x, |g[x]|);
    }
    forall k | 0 <= k < n
      ensures LowRule(g, t, t.stack[k].u, t.stack[k].index)
    {
      if k < n - 1 {
        assert t.stack[k] == s.stack[k];
        LowRuleSame(g, s, t, s.stack[k].u, s.stack[k].index);
      } else if g[u][Top(s).index] != s.parent[u] {
        LowRuleLower(g, s, t, u, Top(s).index);
      } else {
        LowRuleSame(g, s, t, u, Top(s).index);
        LowRuleGrow(g, t, u, Top(s).index);
      }
    }
  }

  /** Popping u with parent p changes nothing the rule of another vertex than p looks at. */
  lemma ReturnOtherRule(g: Graph, s: Search, t: Search, u: nat, p: nat, x: nat, m: nat)
    requires Pops(g, s, t) && Tree(g, s) && u < |g| && p == s.parent[u] && 0 <= p < |g|
    requires t.low == s.low[p := Min(s.low[p], s.low[u])] && !Finished(t, p)
    requires forall w :: 0 <= w < |g| ==> (Finished(t, w) <==> Finished(s, w) || w == u)
    requires x < |g| && x != p && m <= |g[x]| && LowRule(g, s, x, m)
    ensures LowRule(g, t, x, m)
  {
    assert s.parent[p] != u;
    LowRuleSame(g, s, t, x, m);
  }

  /** Popping u with parent p: u's rule is final, and p's takes in low[u]. */
  lemma ReturnLinked(g: Graph, s: Search, t: Search, start: nat, u: nat, p: nat)
    requires Pops(g, s, t) && Tree(g, s) && Frames(g, s) && Chain(g, s, start) && Linked(g, s) && Frames(g, t)
    requires u == Top(s).u && p == s.parent[u] && 0 <= p < |g|
    requires t.low == s.low[p := Min(s.low[p], s.low[u])]
    requires Verts(t.stack) == Verts(s.stack)[..|s.stack| - 1]
    requires forall w :: 0 <= w < |g| ==> (Finished(t, w) <==> Finished(s, w) || w == u)
    ensures Linked(g, t)
  {
    var n := |s.stack|;
    ParentOfTop(g, s, start);
    FramesDistinct(g, s, start);
    assert s.stack[n - 1] == Top(s) && Verts(s.stack)[n - 1] == u && Verts(t.stack)[n - 2] == p;
    assert !Finished(s, u) && !Finished(t, p);
    ReturnFinishedRules(g, s, t, u, p);
    assert forall k :: 0 <= k < n - 2 ==> s.stack[k].u != p;
    ReturnFrameRules(g, s, t, u, p);
  }

  lemma ReturnFinishedRules(g: Graph, s: Search, t: Search, u: nat, p: nat)
    requires Pops(g, s, t) && Tree(g, s) && Frames(g, s) && Frames(g, t) && u == Top(s).u && p == s.parent[u] && 0 <= p < |g|
    requires t.low == s.low[p := Min(s.low[p], s.low[u])] && !Finished(t, p)
    requires forall w :: 0 <= w < |g| ==> (Finished(t, w) <==> Finished(s, w) || w == u)
    requires Linked(g, s)
    ensures forall x :: 0 <= x < |g| && Finished(t, x) ==> LowRule(g, t, x, |g[x]|)
  {
    assert s.stack[|s.stack| - 1] == Top(s);
    forall x | 0 <= x < |g| && Finished(t, x)
      ensures LowRule(g, t, x, |g[x]|)
    {
      ReturnOtherRule(g, s, t, u, p, x, |g[x]|);
    }
  }

  lemma ReturnFrameRules(g: Graph, s: Search, t: Search, u: nat, p: nat)
    requires Pops(g, s, t) && Tree(g, s) && Frames(g, s) && Frames(g, t) && u == Top(s).u && p == s.parent[u] && 0 <= p < |g|
    requires |s.stack| >= 2 && s.stack[|s.stack| - 2].u == p && forall k :: 0 <= k < |s.stack| - 2 ==> s.stack[k].u != p
    requires t.low == s.low[p := Min(s.low[p], s.low[u])] && !Finished(s, u) && !Finished(t, p)
    requires forall w :: 0 <= w < |g| ==> (Finished(t, w) <==> Finished(s, w) || w == u)
    requires forall k :: 0 <= k < |s.stack| ==> LowRule(g, s, s.stack[k].u, s.stack[k].index)
    ensures forall k :: 0 <= k < |t.stack| ==> LowRule(g, t, t.stack[k].u, t.stack[k].index)
  {
    forall k | 0 <= k < |t.stack|
      ensures LowRule(g, t, t.stack[k].u, t.stack[k].index)
    {
      assert t.stack[k] == s.stack[k];
      if k < |s.stack| - 2 {
        ReturnOtherRule(g, s, t, u, p, s.stack[k].u, s.stack[k].index);
      } else {
        LowRuleReturn(g, s, t, u, p, s.stack[k].index);
      }
    }
  }

  /** Popping a root: its rule is final, and no frame is left. */
  lemma FinishRootLinked(g: Graph, s: Search, t: Search, u: nat)
    requires Pops(g, s, t) && Tree(g, s) && Frames(g, s) && Linked(g, s) && Frames(g, t)
    requires u == Top(s).u && s.parent[u] == -1 && t.low == s.low && t.stack == []
    requires forall w :: 0 <= w < |g| ==> (Finished(t, w) <==> Finished(s, w) || w == u)
    ensures Linked(g, t)
  {
    assert s.stack[|s.stack| - 1] == Top(s);
    forall x | 0 <= x < |g| && Finished(t, x)
      ensures LowRule(g, t, x, |g[x]|)
    {
      if x == u {
        LowRuleSame(g, s, t, u, |g[u]|);
      } else {
        LowRuleSame(g, s, t, x, |g[x]|);
      }
    }
  }

  /** One turn of the loop keeps the low-link rules. */
  lemma StepKeepsLinked(g: Graph, s: Search, start: nat, checkParent: bool)
    requires Inv(g, s, start, checkParent) && s.stack != [] && Linked(g, s)
    ensures Ready(g, s)
    ensures var t := Step(g, s, checkParent); Sized(g, t) && Frames(g, t) && Linked(g, t)
  {
    var u := Top(s).u;
    assert s.stack[|s.stack| - 1] == Top(s);
    assert s.parent[u] == -1 || 0 <= s.parent[u] < |g|;
    if Top(s).index < |g[u]| {
      if !s.visited[g[u][Top(s).index]] {
        DiscoverStepLinked(g, s, start, checkParent);
      } else {
        ScanStepLinked(g, s, start, checkParent);
      }
    } else if s.parent[u] != -1 {
      ReturnStepLinked(g, s, start, checkParent);
    } else {
      FinishRootStepLinked(g, s, start, checkParent);
    }
  }

  lemma DiscoverStepLinked(g: Graph, s: Search, start: nat, checkParent: bool)
    requires Inv(g, s, start, checkParent) && Ready(g, s) && Linked(g, s)
    requires Top(s).index < |g[Top(s).u]| && !s.visited[g[Top(s).u][Top(s).index]]
    ensures var t := Step(g, s, checkParent); Sized(g, t) && Frames(g, t) && Linked(g, t)
  {
    var u := Top(s).u;
    var v := g[u][Top(s).index];
    var t := Step(g, s, checkParent);
    StepDiscovers(g, s, checkParent);
    DiscoverVerts(s, t, v);
    DiscoverFrames(g, s, t, u, v);
    DiscoverFinished(g, s, t, u, v);
    DiscoverLinkedFinished(g, s, t, u, v);
    DiscoverLinkedFrames(g, s, t, u, v);
  }

  lemma ScanStepLinked(g: Graph, s: Search, start: nat, checkParent: bool)
    requires Inv(g, s, start, checkParent) && Ready(g, s) && Linked(g, s)
    requires Top(s).index < |g[Top(s).u]| && s.visited[g[Top(s).u][Top(s).index]]
    ensures var t := Step(g, s, checkParent); Sized(g, t) && Frames(g, t) && Linked(g, t)
  {
    var u := Top(s).u;
    var t := Step(g, s, checkParent);
    StepScans(g, s, checkParent);
    ScanVerts(s, t);
    ScanFrames(g, s, t, u, start);
    ScanLinked(g, s, t, u, start);
  }

  lemma ReturnStepLinked(g: Graph, s: Search, start: nat, checkParent: bool)
    requires Inv(g, s, start, checkParent) && Ready(g, s) && Linked(g, s)
    requires Top(s).index == |g[Top(s).u]| && s.parent[Top(s).u] != -1
    ensures var t := Step(g, s, checkParent); Sized(g, t) && Frames(g, t) && Linked(g, t)
  {
    var u := Top(s).u;
    var t := Step(g, s, checkParent);
    assert Pops(g, s, t);
    PopVerts(s, t);
    PopFrames(g, s, t, start);
    PopFinished(g, s, t, start);
    ReturnLinked(g, s, t, start, u, s.parent[u]);
  }

  lemma FinishRootStepLinked(g: Graph, s: Search, start: nat, checkParent: bool)
    requires Inv(g, s, start, checkParent) && Ready(g, s) && Linked(g, s)
    requires Top(s).index == |g[Top(s).u]| && s.parent[Top(s).u] == -1
    ensures var t := Step(g, s, checkParent); Sized(g, t) && Frames(g, t) && Linked(g, t)
  {
    var u := Top(s).u;
    var t := Step(g, s, checkParent);
    RootAtBottom(g, s, start, |s.stack| - 1);
    assert Pops(g, s, t) && t.low == s.low && t.stack == [];
    PopVerts(s, t);
    PopFrames(g, s, t, start);
    PopFinished(g, s, t, start);
    FinishRootLinked(g, s, t, u);
  }

  /** A new tree at i: i starts with its own time and no child. */
  lemma RootLinked(g: Graph, s: Search, i: nat)
    requires Sized(g, s) && Tree(g, s) && FinishedScanned(g, s) && Frames(g, s) && Linked(g, s)
    requires i < |g| && !s.visited[i] && s.stack == []
    ensures Sized(g, Root(s, i)) && Frames(g, Root(s, i)) && Linked(g, Root(s, i))
  {
    var t := Root(s, i);
    assert Verts(t.stack) == [i];
    RootFinished(g, s, t, i);
    forall x | 0 <= x < |g| && Finished(t, x)
      ensures LowRule(g, t, x, |g[x]|)
    {
      LowRuleSame(g, s, t, x, |g[x]|);
    }
    assert t.stack[0] == Frame(i, 0);
    assert forall c :: 0 <= c < |g| ==> t.parent[c] != i;
  }

  /** One turn of the loop keeps the invariant and decreases the measure of the while loop. */
  lemma StepKeepsInv(g: Graph, s: Search, start: nat, checkParent: bool)
    requires Inv(g, s, start, checkParent) && s.stack != []
    ensures Ready(g, s)
    ensures Inv(g, Step(g, s, checkParent), start, checkParent)
    ensures var t := Step(g, s, checkParent);
      || Unvisited(t.visited) < Unvisited(s.visited)
      || (Unvisited(t.visited) == Unvisited(s.visited) && Remaining(g, t.stack) < Remaining(g, s.stack))
      || (Unvisited(t.visited) == Unvisited(s.visited) && Remaining(g, t.stack) == Remaining(g, s.stack) && |t.stack| < |s.stack|)
  {
    var u := Top(s).u;
    assert s.parent[u] == -1 || 0 <= s.parent[u] < |g|;
    if Top(s).index < |g[u]| {
      if !s.visited[g[u][Top(s).index]] {
        DiscoverKeepsInv(g, s, start, checkParent);
      } else {
        ScanKeepsInv(g, s, start, checkParent);
      }
    } else if s.parent[u] != -1 {
      ReturnKeepsInv(g, s, start, checkParent);
      ReturnMeasures(g, s, start, checkParent);
    } else {
      FinishRootKeepsInv(g, s, start, checkParent);
    }
  }

  /** A step never unmarks a vertex. */
  lemma StepKeepsVisited(g: Graph, s: Search, checkParent: bool)
    requires Ready(g, s)
    ensures |Step(g, s, checkParent).visited| == |s.visited|
    ensures forall v :: 0 <= v < |s.visited| && s.visited[v] ==> Step(g, s, checkParent).visited[v]
  {
  }

  /** The while loop: steps until the tree begun at the bottom frame is finished; nothing visited is unmarked. */
  method SearchTree(g: Graph, s0: Search, ghost start: nat, checkParent: bool) returns (s: Search)
    requires Inv(g, s0, start, checkParent) && Linked(g, s0)
    ensures Inv(g, s, start, checkParent) && Linked(g, s) && s.stack == []
    ensures |s.visited| == |s0.visited| && forall v :: 0 <= v < |s0.visited| && s0.visited[v] ==> s.visited[v]
  {
    s := s0;
    while s.stack != []
      invariant Inv(g, s, start, checkParent) && Linked(g, s)
      invariant |s.visited| == |s0.visited| && forall v :: 0 <= v < |s0.visited| && s0.visited[v] ==> s.visited[v]
      decreases Unvisited(s.visited), Remaining(g, s.stack), |s.stack|
    {
      StepKeepsInv(g, s, start, checkParent);
      StepKeepsLinked(g, s, start, checkParent);
      StepKeepsVisited(g, s, checkParent);
      s := Step(g, s, checkParent);
    }
  }

  /** The search state before the first vertex: nothing visited, no parents, no children, no points. */
  function Initial(n: nat): (s: Search)
    ensures |s.visited| == n && |s.disc| == n && |s.low| == n && |s.parent| == n && |s.childCount| == n
  {
    Search(seq(n, _ => false), seq(n, _ => 0), seq(n, _ => 0), seq(n, _ => -1), seq(n, _ => 0), 0, [], [])
  }

  lemma InitialInv(g: Graph, checkParent: bool)
    requires InRange(g)
    ensures Inv(g, Initial(|g|), 0, checkParent) && Linked(g, Initial(|g|))
  {
    InitialForest(g);
    InitialRules(g, checkParent);
  }

  /** The initial state: the clock at zero, no vertex visited, no parent, no child counted. */
  lemma InitialForest(g: Graph)
    requires InRange(g)
    ensures var s := Initial(|g|); Sized(g, s) && Discovered(g, s) && Tree(g, s) && Counted(g, s) && Frames(g, s)
  {
    var n := |g|;
    var s := Initial(n);
    UnvisitedNone(n);
    forall u: nat | u < n
      ensures s.childCount[u] == Children(s.parent, u)
    {
      ChildrenNone(n, u);
    }
  }

  /** The initial state: no frame, nothing finished, nothing before time zero, no point reported. */
  lemma InitialRules(g: Graph, checkParent: bool)
    requires InRange(g)
    ensures var s := Initial(|g|);
      Sized(g, s) && Frames(g, s) && Scanned(g, s) && Chain(g, s, 0) && FinishedScanned(g, s) && Closed(g, s, 0)
      && RootsClosed(g, s) && LowBound(g, s, 0) && RootChildLow(g, s) && Recorded(g, s, checkParent)
  {
    var s := Initial(|g|);
    assert Verts(s.stack) == [];
  }

  /** One turn of the outer loop: a new tree at vertex i unless it is already visited. */
  method VisitFrom(g: Graph, s0: Search, ghost start0: nat, checkParent: bool, i: nat) returns (s: Search, ghost start: nat)
    requires Inv(g, s0, start0, checkParent) && Linked(g, s0) && s0.stack == [] && i < |g|
    requires forall v :: 0 <= v < i ==> s0.visited[v]
    ensures Inv(g, s, start, checkParent) && Linked(g, s) && s.stack == []
    ensures forall v :: 0 <= v <= i ==> s.visited[v]
  {
    s, start := s0, start0;
    if !s.visited[i] {
      RootKeepsInv(g, s, start, checkParent, i);
      RootLinked(g, s, i);
      start := s.time;
      s := Root(s, i);
      assert forall v :: 0 <= v <= i ==> s.visited[v];
      s := SearchTree(g, s, start, checkParent);
    }
  }

  /** The search from a fresh state: every vertex in turn, a new tree at each one not yet visited. */
  method Run(g: Graph, checkParent: bool) returns (points: seq<nat>, ghost s: Search)
    requires InRange(g)
    ensures Outcome(g, s, points, checkParent)
  {
    var n := |g|;
    var search := Initial(n);
    InitialInv(g, checkParent);
    ghost var start := 0;
    for i := 0 to n
      invariant Inv(g, search, start, checkParent) && Linked(g, search) && search.stack == []
      invariant forall v :: 0 <= v < i ==> search.visited[v]
    {
      search, start := VisitFrom(g, search, start, checkParent, i);
    }
    FinalOutcome(g, search, start, checkParent);
    points := search.points;
    s := search;
  }

  /**
   * The low-link of u once the search is over: the least of u's own time,
   * the times of u's neighbours other than its parent, and the low-links of
   * its children. Children are discovered later, so this fixes every
   * low-link from the forest and the discovery times (LowLinksDetermined).
   */
  predicate LowLink(g: Graph, s: Search, u: nat)
    requires Sized(g, s) && u < |g|
  {
    && s.low[u] <= s.disc[u]
    && (forall j :: 0 <= j < |g[u]| && g[u][j] != s.parent[u] ==> s.low[u] <= s.disc[g[u][j]])
    && (forall c :: 0 <= c < |g| && s.parent[c] == u ==> s.low[u] <= s.low[c])
    && (|| s.low[u] == s.disc[u]
        || (exists j :: 0 <= j < |g[u]| && g[u][j] != s.parent[u] && s.low[u] == s.disc[g[u][j]])
        || (exists c :: 0 <= c < |g| && s.parent[c] == u && s.low[u] == s.low[c]))
  }

  /**
   * The forest the search leaves: every vertex discovered at a distinct time
   * below the vertex count, vertex 0 first, each parent a neighbour
   * discovered earlier, children counted, and each root's tree meeting no
   * vertex discovered before the root.
   */
  ghost predicate SearchForest(g: Graph, s: Search)
  {
    && Sized(g, s) && Tree(g, s) && Counted(g, s)
    && (forall v :: 0 <= v < |g| ==> s.visited[v] && s.disc[v] < |g|)
    && (forall a, b :: 0 <= a < b < |g| ==> s.disc[a] != s.disc[b])
    && (|g| > 0 ==> s.disc[0] == 0)
    && (forall r, w :: 0 <= r < |g| && 0 <= w < |g| && s.parent[r] == -1 && s.disc[w] < s.disc[r] ==>
          forall x :: x in g[w] ==> s.disc[x] < s.disc[r])
  }

  /**
   * Distinct points that are exactly the roots with more than one child and
   * the parents with a child whose low-link is at least their own time
   * (non-roots only, when checkParent holds).
   */
  ghost predicate PointsReported(g: Graph, s: Search, points: seq<nat>, checkParent: bool)
    requires Sized(g, s)
  {
    && (forall i, j :: 0 <= i < j < |points| ==> points[i] != points[j])
    && (forall p :: p in points ==> p < |g|)
    && (forall p :: 0 <= p < |g| ==>
          (p in points <==>
             || (s.parent[p] == -1 && s.childCount[p] > 1)
             || exists u :: 0 <= u < |g| && s.parent[u] == p && (checkParent ==> s.parent[p] != -1) && s.low[u] >= s.disc[p]))
  }

  /**
   * What the search leaves: its forest, each low-link the least value
   * LowLink names, in an undirected graph no low-link of a root's child
   * below the root's time, and the points the two rules report.
   */
  ghost predicate Outcome(g: Graph, s: Search, points: seq<nat>, checkParent: bool)
  {
    && SearchForest(g, s)
    && (forall u :: 0 <= u < |g| ==> LowLink(g, s, u))
    && (Symmetric(g) ==>
          forall r :: 0 <= r < |g| && s.parent[r] == -1 ==> forall u :: 0 <= u < |g| && s.parent[u] == r ==> s.low[u] >= s.disc[r])
    && PointsReported(g, s, points, checkParent)
  }

  lemma FinalOutcome(g: Graph, s: Search, start: nat, checkParent: bool)
    requires Inv(g, s, start, checkParent) && Linked(g, s) && s.stack == [] && forall v :: 0 <= v < |g| ==> s.visited[v]
    ensures Outcome(g, s, s.points, checkParent)
  {
    assert s.time == |g| by {
      UnvisitedAll(s.visited);
    }
    FinalForest(g, s);
    FinalLowLinks(g, s);
    FinalPoints(g, s, checkParent);
  }

  /** Once every vertex is finished, the rule at each vertex is over all its neighbours and all its children. */
  lemma FinalLowLinks(g: Graph, s: Search)
    requires Sized(g, s) && Frames(g, s) && Linked(g, s) && s.stack == [] && forall v :: 0 <= v < |g| ==> s.visited[v]
    ensures forall u :: 0 <= u < |g| ==> LowLink(g, s, u)
  {
    assert forall v :: 0 <= v < |g| ==> Finished(s, v);
    forall u | 0 <= u < |g|
      ensures LowLink(g, s, u)
    {
      assert LowRule(g, s, u, |g[u]|);
    }
  }

  /** Once every vertex is visited, the forest covers the graph and each root's tree meets no earlier vertex. */
  lemma FinalForest(g: Graph, s: Search)
    requires Sized(g, s) && Discovered(g, s) && RootsClosed(g, s) && s.time == |g|
    requires forall v :: 0 <= v < |g| ==> s.visited[v]
    ensures forall v :: 0 <= v < |g| ==> s.disc[v] < |g| && s.low[v] <= s.disc[v]
    ensures forall a, b :: 0 <= a < b < |g| ==> s.disc[a] != s.disc[b]
    ensures |g| > 0 ==> s.disc[0] == 0
    ensures forall r, w :: 0 <= r < |g| && 0 <= w < |g| && s.parent[r] == -1 && s.disc[w] < s.disc[r] ==>
      forall x :: x in g[w] ==> s.disc[x] < s.disc[r]
  {
    forall r, w, x | 0 <= r < |g| && 0 <= w < |g| && s.parent[r] == -1 && s.disc[w] < s.disc[r] && x in g[w]
      ensures s.disc[x] < s.disc[r]
    {
      assert Closed(g, s, s.disc[r]);
      var j :| 0 <= j < |g[w]| && g[w][j] == x;
    }
  }

  /** Once every vertex is finished, the rules over finished vertices are the rules over all of them. */
  lemma FinalPoints(g: Graph, s: Search, checkParent: bool)
    requires Sized(g, s) && Recorded(g, s, checkParent) && s.stack == [] && forall v :: 0 <= v < |g| ==> s.visited[v]
    ensures forall p :: 0 <= p < |g| ==>
      (p in s.points <==>
         || (s.parent[p] == -1 && s.childCount[p] > 1)
         || exists u :: 0 <= u < |g| && s.parent[u] == p && (checkParent ==> s.parent[p] != -1) && s.low[u] >= s.disc[p])
  {
    assert forall v :: 0 <= v < |g| ==> Finished(s, v);
  }

  /**
   * As written, the parent rule also fires at a root: in an undirected
   * graph every root with a child is reported, because no child of a root
   * has a low-link below the root's time.
   */
  lemma RootWithChildReported(g: Graph, s: Search, points: seq<nat>, r: nat)
    requires Outcome(g, s, points, false) && Symmetric(g)
    requires r < |g| && s.parent[r] == -1 && s.childCount[r] > 0
    ensures r in points
  {
    ChildrenWitness(s.parent, r);
    var u :| 0 <= u < |s.parent| && s.parent[u] == r;
    assert s.low[u] >= s.disc[r];
  }

  /** With the parent check, a root is reported exactly when it has more than one child. */
  lemma RootRuleCorrected(g: Graph, s: Search, points: seq<nat>, r: nat)
    requires Outcome(g, s, points, true) && r < |g| && s.parent[r] == -1
    ensures r in points <==> s.childCount[r] > 1
  {
  }

  /** The search of the single edge 0 - 1: 0 is the root, discovered first, and 1 its only child. */
  lemma SingleEdgeForest(s: Search, points: seq<nat>, checkParent: bool)
    requires Outcome([[1], [0]], s, points, checkParent)
    ensures s.parent == [-1, 0] && s.childCount == [1, 0]
  {
    var g: Graph := [[1], [0]];
    assert s.disc[1] == 1;
    assert s.parent[0] == -1;
    assert 1 in g[0];
    assert s.parent[1] == 0;
    assert s.parent == [-1, 0];
    EdgeChildren();
  }

  lemma EdgeChildren()
    ensures Children([-1, 0], 0) == 1 && Children([-1, 0], 1) == 0
  {
    assert [-1, 0][..1] == [-1] && [-1][..0] == [];
  }

  /** A distinct sequence that holds q and nothing else is [q]. */
  lemma OnlyMember(points: seq<nat>, q: nat)
    requires forall i, j :: 0 <= i < j < |points| ==> points[i] != points[j]
    requires q in points && forall p :: p in points ==> p == q
    ensures points == [q]
  {
    FirstTwo(points);
  }

  /** The first two entries of a distinct sequence are two different members of it. */
  lemma FirstTwo(points: seq<nat>)
    requires forall i, j :: 0 <= i < j < |points| ==> points[i] != points[j]
    ensures |points| >= 2 ==> points[0] in points && points[1] in points && points[0] != points[1]
  {
  }

  /** A non-empty sequence has a member. */
  lemma SomeMember(points: seq<nat>)
    ensures points != [] ==> points[0] in points
  {
  }

  lemma SingleEdgeAsWritten(s: Search, points: seq<nat>)
    requires Outcome([[1], [0]], s, points, false)
    ensures points == [0]
  {
    SingleEdgeForest(s, points, false);
    assert s.parent[1] == 0 && s.low[1] >= s.disc[0];
    assert 0 in points;
    assert forall u :: 0 <= u < 2 ==> s.parent[u] != 1;
    assert 1 !in points;
    OnlyMember(points, 0);
  }

  lemma SingleEdgeCorrected(s: Search, points: seq<nat>)
    requires Outcome([[1], [0]], s, points, true)
    ensures points == []
  {
    SingleEdgeForest(s, points, true);
    assert forall u :: 0 <= u < 2 ==> s.parent[u] != 1;
    assert 0 !in points && 1 !in points;
    SomeMember(points);
  }

  /**
   * On the single edge 0 - 1, which has no articulation point, the search
   * as written reports the root 0; with the parent check it reports nothing.
   */
  method SingleEdge() returns (asWritten: seq<nat>, corrected: seq<nat>)
    ensures asWritten == [0] && corrected == []
  {
    var g: Graph := [[1], [0]];
    ghost var s, t;
    asWritten, s := Run(g, false);
    SingleEdgeAsWritten(s, asWritten);
    corrected, t := Run(g, true);
    SingleEdgeCorrected(t, corrected);
  }

  /**
   * The search of the path 0 - 1 - 2: 0 is the root, 1 its child and 2 the
   * child of 1, discovered in that order, and no vertex reaches back above
   * itself.
   */
  lemma PathForest(s: Search, points: seq<nat>, checkParent: bool)
    requires Outcome([[1], [0, 2], [1]], s, points, checkParent)
    ensures s.parent == [-1, 0, 1] && s.disc == [0, 1, 2] && s.low == [0, 1, 2]
  {
    PathTree(s);
    PathLowLinks(s);
  }

  lemma PathTree(s: Search)
    requires SearchForest([[1], [0, 2], [1]], s)
    ensures s.parent == [-1, 0, 1] && s.disc == [0, 1, 2]
  {
    var g: Graph := [[1], [0, 2], [1]];
    assert s.disc[0] == 0 && 1 in g[0] && 2 in g[1];
    assert s.parent[0] == -1;
    assert s.parent[1] == 0;
    assert s.parent[2] == 1;
    assert s.parent == [-1, 0, 1];
  }

  lemma PathLowLinks(s: Search)
    requires Sized([[1], [0, 2], [1]], s) && s.parent == [-1, 0, 1] && s.disc == [0, 1, 2]
    requires forall u :: 0 <= u < 3 ==> LowLink([[1], [0, 2], [1]], s, u)
    ensures s.low == [0, 1, 2]
  {
    var g: Graph := [[1], [0, 2], [1]];
    assert LowLink(g, s, 0) && LowLink(g, s, 1) && LowLink(g, s, 2);
    assert forall c :: 0 <= c < 3 ==> s.parent[c] != 2;
    assert s.low[2] == 2;
    assert s.low[1] <= s.disc[g[1][1]];
  }

  lemma PathChildren()
    ensures Children([-1, 0, 1], 0) == 1
  {
    assert [-1, 0, 1][..2] == [-1, 0] && [-1, 0][..1] == [-1] && [-1][..0] == [];
  }

  /** On the path's forest, 1 is reported, 2 is not, and 0 exactly when the root is not exempt from the parent rule. */
  lemma PathReported(s: Search, points: seq<nat>, checkParent: bool)
    requires Sized([[1], [0, 2], [1]], s) && PointsReported([[1], [0, 2], [1]], s, points, checkParent)
    requires s.parent == [-1, 0, 1] && s.disc == [0, 1, 2] && s.low == [0, 1, 2] && s.childCount[0] == 1
    ensures forall p :: p in points <==> p == 1 || (p == 0 && !checkParent)
  {
    assert s.parent[2] == 1 && s.low[2] >= s.disc[1];
    assert 1 in points;
    assert forall u :: 0 <= u < 3 ==> s.parent[u] != 2;
    assert 2 !in points;
    assert s.parent[1] == 0 && s.low[1] >= s.disc[0];
    assert 0 in points <==> !checkParent;
  }

  lemma PathAsWritten(s: Search, points: seq<nat>)
    requires Outcome([[1], [0, 2], [1]], s, points, false)
    ensures forall p :: p in points <==> p == 0 || p == 1
  {
    PathForest(s, points, false);
    PathChildren();
    PathReported(s, points, false);
  }

  lemma PathCorrected(s: Search, points: seq<nat>)
    requires Outcome([[1], [0, 2], [1]], s, points, true)
    ensures points == [1]
  {
    PathForest(s, points, true);
    PathChildren();
    PathReported(s, points, true);
    OnlyMember(points, 1);
  }

  /**
   * On the path 0 - 1 - 2, whose only articulation point is 1, the search
   * as written reports 1 and the root 0; with the parent check it reports
   * 1 alone.
   */
  method Path() returns (asWritten: seq<nat>, corrected: seq<nat>)
    ensures (forall p :: p in asWritten <==> p == 0 || p == 1) && corrected == [1]
  {
    var g: Graph := [[1], [0, 2], [1]];
    ghost var s, t;
    asWritten, s := Run(g, false);
    PathAsWritten(s, asWritten);
    corrected, t := Run(g, true);
    PathCorrected(t, corrected);
  }

  /**
   * Two outcomes over the same forest and the same times have the same
   * low-links, and so report the same points under the same rule.
   */
  lemma LowLinksDetermined(g: Graph, s: Search, t: Search, ps: seq<nat>, pt: seq<nat>, checkParent: bool)
    requires Outcome(g, s, ps, checkParent) && Outcome(g, t, pt, checkParent)
    requires s.parent == t.parent && s.disc == t.disc
    ensures s.low == t.low
    ensures forall p :: p in ps <==> p in pt
  {
    forall u | 0 <= u < |g|
      ensures s.low[u] == t.low[u]
    {
      LowLinkUnique(g, s, t, u);
    }
    SamePoints(g, s, t, ps, pt, checkParent);
  }

  /** Points reported over the same forest, times and low-links are the same. */
  lemma SamePoints(g: Graph, s: Search, t: Search, ps: seq<nat>, pt: seq<nat>, checkParent: bool)
    requires Sized(g, s) && Sized(g, t) && Counted(g, s) && Counted(g, t)
    requires PointsReported(g, s, ps, checkParent) && PointsReported(g, t, pt, checkParent)
    requires s.parent == t.parent && s.disc == t.disc && s.low == t.low
    ensures forall p :: p in ps <==> p in pt
  {
    assert s.childCount == t.childCount;
  }

  /** By induction down the forest: children are discovered later, and their low-links agree first. */
  lemma {:induction false} LowLinkUnique(g: Graph, s: Search, t: Search, u: nat)
    requires Sized(g, s) && Sized(g, t) && Tree(g, s) && s.parent == t.parent && s.disc == t.disc
    requires forall v :: 0 <= v < |g| ==> s.disc[v] < |g| && LowLink(g, s, v) && LowLink(g, t, v)
    requires u < |g|
    ensures s.low[u] == t.low[u]
    decreases |g| - s.disc[u]
  {
    forall c | 0 <= c < |g| && s.parent[c] == u
      ensures s.low[c] == t.low[c]
    {
      LowLinkUnique(g, s, t, c);
    }
    LowLinkBelow(g, s, t, u);
    LowLinkBelow(g, t, s, u);
  }

  /** When the children agree, t's low-link at u is at most s's: s's is one of the values t's is at most. */
  lemma LowLinkBelow(g: Graph, s: Search, t: Search, u: nat)
    requires Sized(g, s) && Sized(g, t) && s.parent == t.parent && s.disc == t.disc && u < |g|
    requires LowLink(g, s, u) && LowLink(g, t, u)
    requires forall c :: 0 <= c < |g| && s.parent[c] == u ==> s.low[c] == t.low[c]
    ensures t.low[u] <= s.low[u]
  {
    if s.low[u] != s.disc[u] {
      if exists j :: 0 <= j < |g[u]| && g[u][j] != s.parent[u] && s.low[u] == s.disc[g[u][j]] {
        var j :| 0 <= j < |g[u]| && g[u][j] != s.parent[u] && s.low[u] == s.disc[g[u][j]];
        assert t.low[u] <= t.disc[g[u][j]];
      } else {
        var c :| 0 <= c < |g| && s.parent[c] == u && s.low[u] == s.low[c];
        assert t.low[u] <= t.low[c];
      }
    }
  }

  lemma {:induction false} UnvisitedAll(vs: seq<bool>)
    requires forall v :: 0 <= v < |vs| ==> vs[v]
    ensures Unvisited(vs) == 0
    decreases |vs|
  {
    if vs != [] {
      UnvisitedAll(vs[..|vs| - 1]);
    }
  }
}
