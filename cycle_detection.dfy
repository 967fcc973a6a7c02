/**
 * Cycle detection of the catalogue: a recursive depth-first search over a
 * directed graph given as adjacency lists, which reports a cycle when an
 * edge leads back into the current recursion path; and a walk along a
 * linked list that reports a cycle when it meets a node it has seen.
 */
module CycleDetection {

  /** Vertex u's list of successors is graph[u]; the vertices are 0 .. |graph| - 1. */
  type Graph = seq<seq<nat>>

  /** Every listed successor is a vertex of the graph. */
  predicate InRange(g: Graph)
  {
    forall u, k :: 0 <= u < |g| && 0 <= k < |g[u]| ==> g[u][k] < |g|
  }

  /** The numbers below n. */
  function Below(n: nat): (r: set<nat>)
    ensures forall u: nat :: u in r <==> u < n
  {
    if n == 0 then {} else Below(n - 1) + {n - 1}
  }

  function AllVertices(g: Graph): set<nat>
  {
    Below(|g|)
  }

  /** p is a sequence of vertices each of whose successors in p is listed in its adjacency. */
  predicate IsPath(g: Graph, p: seq<nat>)
  {
    && (forall i :: 0 <= i < |p| ==> p[i] < |g|)
    && (forall i :: 0 <= i < |p| - 1 ==> p[i + 1] in g[p[i]])
  }

  /** Some path of at least one edge returns to its first vertex; a self-loop is one. */
  ghost predicate HasCycle(g: Graph)
  {
    exists p :: IsPath(g, p) && |p| >= 2 && p[0] == p[|p| - 1]
  }

  /** An edge from the end of a path back to one of its vertices closes a cycle. */
  lemma CycleThroughPath(g: Graph, p: seq<nat>, w: nat)
    requires IsPath(g, p) && |p| > 0 && w in p && w in g[p[|p| - 1]]
    ensures HasCycle(g)
  {
    var k :| 0 <= k < |p| && p[k] == w;
    var c := p[k..] + [w];
    assert IsPath(g, c);
    assert c[0] == c[|c| - 1];
  }

  /**
   * The finished vertices, each with a finishing time: every successor of a
   * finished vertex is finished, and earlier.
   */
  ghost predicate Ranked(g: Graph, finished: set<nat>, fin: map<nat, nat>)
  {
    forall u :: u in finished ==> u in fin && u < |g| && forall w :: w in g[u] ==> w in finished && w in fin && fin[w] < fin[u]
  }

  lemma {:induction false} RankDescends(g: Graph, finished: set<nat>, fin: map<nat, nat>, p: seq<nat>)
    requires Ranked(g, finished, fin) && IsPath(g, p) && |p| >= 2 && p[0] in finished
    ensures p[|p| - 1] in finished && fin[p[|p| - 1]] < fin[p[0]]
    decreases |p|
  {
    assert p[1] in g[p[0]];
    if |p| > 2 {
      RankDescends(g, finished, fin, p[1..]);
    }
  }

  /** A ranking of every vertex leaves no room for a cycle. */
  lemma RankedAcyclic(g: Graph, fin: map<nat, nat>)
    requires Ranked(g, AllVertices(g), fin)
    ensures !HasCycle(g)
  {
    if HasCycle(g) {
      var p :| IsPath(g, p) && |p| >= 2 && p[0] == p[|p| - 1];
      assert p[0] in AllVertices(g);
      RankDescends(g, AllVertices(g), fin, p);
    }
  }

  /**
   * dfsDetectCycle(vertex): mark vertex visited and on the path, search each
   * unvisited successor, report a cycle at a successor on the path, and take
   * vertex off the path when nothing was found. stack is the recursion path
   * above vertex; fin and time give the finishing order of the search.
   */
  method DfsDetectCycle(g: Graph, vertex: nat, visited0: set<nat>, inPath0: set<nat>, ghost stack: seq<nat>,
                        ghost fin0: map<nat, nat>, ghost time0: nat)
    returns (found: bool, visited: set<nat>, inPath: set<nat>, ghost fin: map<nat, nat>, ghost time: nat)
    requires InRange(g) && vertex < |g| && vertex !in visited0 && visited0 <= AllVertices(g)
    requires IsPath(g, stack + [vertex]) && inPath0 == (set x | x in stack) && inPath0 <= visited0
    requires Ranked(g, visited0 - inPath0, fin0) && forall u :: u in fin0 ==> fin0[u] < time0
    ensures found ==> HasCycle(g)
    ensures !found ==>
      && inPath == inPath0 && vertex in visited && visited0 <= visited <= AllVertices(g)
      && Ranked(g, visited - inPath, fin) && forall u :: u in fin ==> fin[u] < time
    decreases AllVertices(g) - visited0
  {
    visited := visited0 + {vertex};
    inPath := inPath0 + {vertex};
    ghost var path := stack + [vertex];
    assert inPath == set x | x in path;
    fin, time := fin0, time0;
    var successors := g[vertex];
    var i := 0;
    while i < |successors|
      invariant 0 <= i <= |successors|
      invariant inPath == inPath0 + {vertex} && visited0 + {vertex} <= visited <= AllVertices(g)
      invariant Ranked(g, visited - inPath, fin) && forall u :: u in fin ==> fin[u] < time
      invariant forall k :: 0 <= k < i ==> successors[k] in visited - inPath
    {
      var neighbor := successors[i];
      if neighbor !in visited {
        assert IsPath(g, path + [neighbor]);
        found, visited, inPath, fin, time := DfsDetectCycle(g, neighbor, visited, inPath, path, fin, time);
        if found {
          return;
        }
      } else if neighbor in inPath {
        CycleThroughPath(g, path, neighbor);
        return true, visited, inPath, fin, time;
      }
      i := i + 1;
    }
    assert forall w :: w in g[vertex] ==> w in visited - inPath;
    fin := fin[vertex := time];
    time := time + 1;
    inPath := inPath - {vertex};
    found := false;
  }

  /**
   * hasCycleInGraph: false for the empty graph; otherwise a search from each
   * vertex not yet visited, true as soon as one finds a cycle.
   */
  method HasCycleInGraph(g: Graph) returns (r: bool)
    requires InRange(g)
    ensures r <==> HasCycle(g)
  {
    var n := |g|;
    if n == 0 {
      assert AllVertices(g) == {};
      RankedAcyclic(g, map[]);
      return false;
    }
    var visited: set<nat> := {};
    var inPath: set<nat> := {};
    ghost var fin: map<nat, nat> := map[];
    ghost var time: nat := 0;
    for i := 0 to n
      invariant visited <= AllVertices(g) && inPath == {}
      invariant Ranked(g, visited - inPath, fin) && forall u :: u in fin ==> fin[u] < time
      invariant forall u :: 0 <= u < i ==> u in visited
    {
      if i !in visited {
        var found;
        assert IsPath(g, [] + [i]);
        found, visited, inPath, fin, time := DfsDetectCycle(g, i, visited, inPath, [], fin, time);
        if found {
          return true;
        }
      }
    }
    assert visited - inPath == AllVertices(g);
    RankedAcyclic(g, fin);
    return false;
  }

  class ListNode {
    var val: int
    var next: ListNode?

    constructor(val: int)
      ensures this.val == val && next == null
    {
      this.val := val;
      next := null;
    }
  }

  /** A set of nodes that holds the successor of each of its nodes. */
  ghost predicate Closed(nodes: set<ListNode>)
    reads nodes
  {
    forall n :: n in nodes ==> n.next == null || n.next in nodes
  }

  /** The node k steps along the list from head, null once the list has ended. */
  ghost function Nth(head: ListNode?, k: nat, nodes: set<ListNode>): (r: ListNode?)
    requires Closed(nodes) && (head == null || head in nodes)
    reads nodes
    ensures r == null || r in nodes
    decreases k
  {
    if head == null then null else if k == 0 then head else Nth(head.next, k - 1, nodes)
  }

  lemma {:induction false} NthNext(head: ListNode?, k: nat, nodes: set<ListNode>)
    requires Closed(nodes) && (head == null || head in nodes)
    ensures var n := Nth(head, k, nodes); Nth(head, k + 1, nodes) == if n == null then null else n.next
    decreases k
  {
    if head != null && k > 0 {
      NthNext(head.next, k - 1, nodes);
    }
  }

  lemma {:induction false} NullStays(head: ListNode?, k: nat, j: nat, nodes: set<ListNode>)
    requires Closed(nodes) && (head == null || head in nodes) && Nth(head, k, nodes) == null && k <= j
    ensures Nth(head, j, nodes) == null
    decreases j - k
  {
    if k < j {
      NthNext(head, k, nodes);
      NullStays(head, k + 1, j, nodes);
    }
  }

  /** Walking from head reaches some node twice. */
  ghost predicate ReachedTwice(head: ListNode?, nodes: set<ListNode>)
    requires Closed(nodes) && (head == null || head in nodes)
    reads nodes
  {
    exists i: nat, j: nat :: i < j && Nth(head, i, nodes) != null && Nth(head, i, nodes) == Nth(head, j, nodes)
  }

  /**
   * detectCycle(node): false at the end of the list, true at a node already
   * in the visited set, otherwise record the node and go on to its next.
   * node is k steps from head, and visited holds the k distinct nodes before it.
   */
  method DetectCycle(ghost head: ListNode?, node: ListNode?, visited: set<ListNode>, ghost k: nat, ghost nodes: set<ListNode>)
    returns (r: bool)
    requires Closed(nodes) && (head == null || head in nodes) && visited <= nodes
    requires node == Nth(head, k, nodes)
    requires visited == set i: nat | i < k :: Nth(head, i, nodes)
    requires forall i: nat :: i < k ==> Nth(head, i, nodes) != null
    requires forall i: nat, j: nat :: i < j < k ==> Nth(head, i, nodes) != Nth(head, j, nodes)
    ensures r <==> ReachedTwice(head, nodes)
    decreases nodes - visited
  {
    if node == null {
      forall i: nat, j: nat | i < j && Nth(head, i, nodes) != null
        ensures Nth(head, i, nodes) != Nth(head, j, nodes)
      {
        if k <= i {
          NullStays(head, k, i, nodes);
        } else if k <= j {
          NullStays(head, k, j, nodes);
        }
      }
      return false;
    }
    if node in visited {
      ghost var i: nat :| i < k && Nth(head, i, nodes) == node;
      assert Nth(head, i, nodes) == Nth(head, k, nodes);
      return true;
    }
    NthNext(head, k, nodes);
    assert visited + {node} == set i: nat | i < k + 1 :: Nth(head, i, nodes);
    r := DetectCycle(head, node.next, visited + {node}, k + 1, nodes);
  }

  /**
   * hasCycleInLinkedList(head): the walk from head with an empty visited set.
   * nodes is any set of nodes that holds head and is closed under next, such
   * as all nodes of the heap.
   */
  method HasCycleInLinkedList(head: ListNode?, ghost nodes: set<ListNode>) returns (r: bool)
    requires Closed(nodes) && (head == null || head in nodes)
    ensures r <==> ReachedTwice(head, nodes)
  {
    assert (set i: nat | i < 0 :: Nth(head, i, nodes)) == {};
    r := DetectCycle(head, head, {}, 0, nodes);
  }

  /** A single node linked to nothing is reached once. */
  lemma SingleNode(a: ListNode)
    requires a.next == null
    ensures !ReachedTwice(a, {a})
  {
    assert Nth(a, 1, {a}) == null;
    forall i: nat, j: nat | i < j
      ensures Nth(a, i, {a}) == null || Nth(a, i, {a}) != Nth(a, j, {a})
    {
      NullStays(a, 1, j, {a});
    }
  }

  /** The empty list and a single node have no cycle; a node linked to itself has one. */
  method SmallListFixtures() returns (none: bool, single: bool, loop: bool)
    ensures !none && !single && loop
  {
    none := HasCycleInLinkedList(null, {});
    var a := new ListNode(1);
    single := HasCycleInLinkedList(a, {a});
    SingleNode(a);
    a.next := a;
    loop := HasCycleInLinkedList(a, {a});
    assert Nth(a, 1, {a}) == a;
  }
}
