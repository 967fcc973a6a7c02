/**
 * isSameTree of the catalogue: a queue of node pairs, compared front first;
 * two nulls are skipped, one null or two different values end the
 * comparison with false, and otherwise both pairs of children are queued.
 */
module TreeCompare {
  import opened BinaryTree

  /** Same shape and the same value at every position. */
  predicate Same(a: Tree, b: Tree)
  {
    match (a, b)
    case (Nil, Nil) => true
    case (Node(l1, v1, r1), Node(l2, v2, r2)) => v1 == v2 && Same(l1, l2) && Same(r1, r2)
    case _ => false
  }

  /** Sameness of shape and values is equality of the trees. */
  lemma {:induction false} SameIsEqual(a: Tree, b: Tree)
    ensures Same(a, b) <==> a == b
  {
    if a.Node? && b.Node? {
      SameIsEqual(a.left, b.left);
      SameIsEqual(a.right, b.right);
    }
  }

  lemma {:induction false} SameReflexive(a: Tree)
    ensures Same(a, a)
  {
    if a.Node? {
      SameReflexive(a.left);
      SameReflexive(a.right);
    }
  }

  lemma {:induction false} SameSymmetric(a: Tree, b: Tree)
    ensures Same(a, b) ==> Same(b, a)
  {
    if a.Node? && b.Node? {
      SameSymmetric(a.left, b.left);
      SameSymmetric(a.right, b.right);
    }
  }

  /** Every queued pair holds two equal trees. */
  predicate AllPairsEqual(queue: seq<(Tree, Tree)>)
  {
    forall i :: 0 <= i < |queue| ==> queue[i].0 == queue[i].1
  }

  /** The work left in a queue: one per pair plus the nodes of both trees. */
  function Weight(queue: seq<(Tree, Tree)>): nat
  {
    if queue == [] then 0 else Size(queue[0].0) + Size(queue[0].1) + 1 + Weight(queue[1..])
  }

  lemma {:induction false} WeightAppend(queue: seq<(Tree, Tree)>, p: (Tree, Tree))
    ensures Weight(queue + [p]) == Weight(queue) + Size(p.0) + Size(p.1) + 1
    decreases |queue|
  {
    if queue == [] {
      assert [] + [p] == [p];
    } else {
      assert (queue + [p])[1..] == queue[1..] + [p];
      WeightAppend(queue[1..], p);
    }
  }

  /** All pairs are equal exactly when the front one and the rest are. */
  lemma PairsFront(queue: seq<(Tree, Tree)>)
    requires queue != []
    ensures AllPairsEqual(queue) <==> queue[0].0 == queue[0].1 && AllPairsEqual(queue[1..])
  {
    var rest := queue[1..];
    assert forall i :: 0 <= i < |rest| ==> rest[i] == queue[i + 1];
  }

  lemma PairsAppend(rest: seq<(Tree, Tree)>, l: (Tree, Tree), r: (Tree, Tree))
    ensures AllPairsEqual(rest + [l] + [r]) <==> AllPairsEqual(rest) && l.0 == l.1 && r.0 == r.1
  {
    var longer := rest + [l] + [r];
    assert forall i :: 0 <= i < |rest| ==> longer[i] == rest[i];
    assert longer[|rest|] == l && longer[|rest| + 1] == r;
  }

  /** isSameTree(p, q): true exactly when the trees have the same shape and values. */
  method IsSameTree(p: Tree, q: Tree) returns (same: bool)
    ensures same <==> Same(p, q)
  {
    SameIsEqual(p, q);
    var queue := [(p, q)];
    while |queue| > 0
      invariant (p == q) <==> AllPairsEqual(queue)
      decreases Weight(queue)
    {
      var (node1, node2) := queue[0];
      PairsFront(queue);
      if node1 == Nil && node2 == Nil {
        queue := queue[1..];
        continue;
      }
      if node1 == Nil || node2 == Nil {
        return false;
      }
      if node1.val != node2.val {
        return false;
      }
      PairsAppend(queue[1..], (node1.left, node2.left), (node1.right, node2.right));
      WeightAppend(queue[1..], (node1.left, node2.left));
      WeightAppend(queue[1..] + [(node1.left, node2.left)], (node1.right, node2.right));
      queue := queue[1..] + [(node1.left, node2.left)] + [(node1.right, node2.right)];
    }
    return true;
  }

  /** [1,2,3] and [1,2,null,3] differ: the second has 3 below 2 and no right child. */
  method DifferentShapesFixture() returns (same: bool)
    ensures !same
  {
    var t1 := Node(Node(Nil, 2, Nil), 1, Node(Nil, 3, Nil));
    var t2 := Node(Node(Node(Nil, 3, Nil), 2, Nil), 1, Nil);
    same := IsSameTree(t1, t2);
  }
}
