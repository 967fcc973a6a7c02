/**
 * Binary trees of integers, the TreeNode{val, left, right} shape shared by
 * the search-tree, traversal and comparison entries of the catalogue; a null
 * child is Nil.
 */
module BinaryTree {

  datatype Tree = Nil | Node(left: Tree, val: int, right: Tree)

  /** The values held, with multiplicity. */
  function Elems(t: Tree): multiset<int>
  {
    match t
    case Nil => multiset{}
    case Node(l, v, r) => Elems(l) + multiset{v} + Elems(r)
  }

  function Size(t: Tree): nat
  {
    match t
    case Nil => 0
    case Node(l, _, r) => Size(l) + 1 + Size(r)
  }

  /** Left subtree, root, right subtree. */
  function InOrder(t: Tree): seq<int>
  {
    match t
    case Nil => []
    case Node(l, v, r) => InOrder(l) + [v] + InOrder(r)
  }

  /** Root, left subtree, right subtree. */
  function PreOrder(t: Tree): seq<int>
  {
    match t
    case Nil => []
    case Node(l, v, r) => [v] + PreOrder(l) + PreOrder(r)
  }

  /** Left subtree, right subtree, root. */
  function PostOrder(t: Tree): seq<int>
  {
    match t
    case Nil => []
    case Node(l, v, r) => PostOrder(l) + PostOrder(r) + [v]
  }

  /** The number of values held is the number of nodes. */
  lemma {:induction false} ElemsSize(t: Tree)
    ensures |Elems(t)| == Size(t)
  {
    if t.Node? {
      ElemsSize(t.left);
      ElemsSize(t.right);
    }
  }

  /** The in-order listing holds exactly the values of the tree. */
  lemma {:induction false} InOrderElems(t: Tree)
    ensures multiset(InOrder(t)) == Elems(t)
  {
    if t.Node? {
      InOrderElems(t.left);
      InOrderElems(t.right);
      assert InOrder(t) == InOrder(t.left) + [t.val] + InOrder(t.right);
    }
  }

  /** Every value held is below v. */
  predicate AllBelow(t: Tree, v: int)
  {
    match t
    case Nil => true
    case Node(l, x, r) => x < v && AllBelow(l, v) && AllBelow(r, v)
  }

  /** Every value held is at least v. */
  predicate AllAtLeast(t: Tree, v: int)
  {
    match t
    case Nil => true
    case Node(l, x, r) => x >= v && AllAtLeast(l, v) && AllAtLeast(r, v)
  }

  /** Every value held is at most v. */
  predicate AllAtMost(t: Tree, v: int)
  {
    match t
    case Nil => true
    case Node(l, x, r) => x <= v && AllAtMost(l, v) && AllAtMost(r, v)
  }

  /**
   * The search-tree order of the catalogue: values smaller than a node go
   * left, values equal to or greater than it go right.
   */
  predicate IsBst(t: Tree)
  {
    match t
    case Nil => true
    case Node(l, v, r) => AllBelow(l, v) && AllAtLeast(r, v) && IsBst(l) && IsBst(r)
  }

  /**
   * The non-strict order: nothing greater than a node on its left, nothing
   * smaller on its right; rotations over equal keys keep this order only.
   */
  predicate IsOrdered(t: Tree)
  {
    match t
    case Nil => true
    case Node(l, v, r) => AllAtMost(l, v) && AllAtLeast(r, v) && IsOrdered(l) && IsOrdered(r)
  }

  lemma {:induction false} BelowAtMost(t: Tree, v: int)
    requires AllBelow(t, v)
    ensures AllAtMost(t, v)
  {
    if t.Node? {
      BelowAtMost(t.left, v);
      BelowAtMost(t.right, v);
    }
  }

  /** The strict order implies the non-strict one. */
  lemma {:induction false} BstOrdered(t: Tree)
    requires IsBst(t)
    ensures IsOrdered(t)
  {
    if t.Node? {
      BelowAtMost(t.left, t.val);
      BstOrdered(t.left);
      BstOrdered(t.right);
    }
  }

  /** A lower bound may be lowered. */
  lemma {:induction false} AtLeastWeaken(t: Tree, v: int, w: int)
    requires AllAtLeast(t, v) && w <= v
    ensures AllAtLeast(t, w)
  {
    if t.Node? {
      AtLeastWeaken(t.left, v, w);
      AtLeastWeaken(t.right, v, w);
    }
  }

  /** An upper bound may be raised. */
  lemma {:induction false} BelowWeaken(t: Tree, v: int, w: int)
    requires AllBelow(t, v) && v <= w
    ensures AllBelow(t, w)
  {
    if t.Node? {
      BelowWeaken(t.left, v, w);
      BelowWeaken(t.right, v, w);
    }
  }

  lemma {:induction false} AtMostWeaken(t: Tree, v: int, w: int)
    requires AllAtMost(t, v) && v <= w
    ensures AllAtMost(t, w)
  {
    if t.Node? {
      AtMostWeaken(t.left, v, w);
      AtMostWeaken(t.right, v, w);
    }
  }

  /** A bound holds of a tree whatever the grouping of its two top nodes. */
  lemma RegroupBounds(a: Tree, x: int, b: Tree, y: int, c: Tree, bound: int)
    ensures AllAtMost(Node(Node(a, x, b), y, c), bound) <==> AllAtMost(Node(a, x, Node(b, y, c)), bound)
    ensures AllAtLeast(Node(Node(a, x, b), y, c), bound) <==> AllAtLeast(Node(a, x, Node(b, y, c)), bound)
  {
  }

  /** Some node holds k. */
  predicate Contains(t: Tree, k: int)
  {
    match t
    case Nil => false
    case Node(l, x, r) => x == k || Contains(l, k) || Contains(r, k)
  }

  lemma {:induction false} ContainsElems(t: Tree, k: int)
    ensures Contains(t, k) <==> k in Elems(t)
  {
    if t.Node? {
      ContainsElems(t.left, k);
      ContainsElems(t.right, k);
    }
  }

  /** A held value respects every bound the tree respects. */
  lemma {:induction false} BoundContains(t: Tree, v: int, k: int)
    requires Contains(t, k)
    ensures AllBelow(t, v) ==> k < v
    ensures AllAtMost(t, v) ==> k <= v
    ensures AllAtLeast(t, v) ==> k >= v
  {
    if t.val != k {
      if Contains(t.left, k) {
        BoundContains(t.left, v, k);
      } else {
        BoundContains(t.right, v, k);
      }
    }
  }

  /** In an ordered tree a held key other than the root's lies on the side a search takes. */
  lemma OrderedStep(t: Tree, key: int)
    requires t.Node? && IsOrdered(t) && Contains(t, key) && key != t.val
    ensures key < t.val ==> Contains(t.left, key)
    ensures key > t.val ==> Contains(t.right, key)
  {
    if Contains(t.left, key) {
      BoundContains(t.left, t.val, key);
    }
    if Contains(t.right, key) {
      BoundContains(t.right, t.val, key);
    }
  }

  /** Non-decreasing. */
  predicate Sorted(s: seq<int>)
  {
    forall i, j :: 0 <= i < j < |s| ==> s[i] <= s[j]
  }

  /** A bound holds of a tree exactly when it holds of every entry of its in-order listing. */
  lemma {:induction false} AtMostInOrder(t: Tree, v: int)
    ensures AllAtMost(t, v) <==> forall i :: 0 <= i < |InOrder(t)| ==> InOrder(t)[i] <= v
  {
    if t.Node? {
      AtMostInOrder(t.left, v);
      AtMostInOrder(t.right, v);
      var a, b := InOrder(t.left), InOrder(t.right);
      var s := InOrder(t);
      assert s == a + [t.val] + b;
      if AllAtMost(t, v) {
        assert AllAtMost(t.left, v) && AllAtMost(t.right, v);
        assert forall k :: 0 <= k < |InOrder(t.left)| ==> InOrder(t.left)[k] <= v;
        assert forall k :: 0 <= k < |InOrder(t.right)| ==> InOrder(t.right)[k] <= v;
        forall i | 0 <= i < |s|
          ensures s[i] <= v
        {
          if i < |a| {
            assert s[i] == a[i];
          } else if |a| < i {
            assert s[i] == b[i - |a| - 1];
          } else {
            assert s[i] == t.val;
          }
        }
      }
      if forall i :: 0 <= i < |s| ==> s[i] <= v {
        assert forall k :: 0 <= k < |a| ==> a[k] == s[k];
        assert forall k :: 0 <= k < |b| ==> b[k] == s[|a| + 1 + k];
        assert s[|a|] == t.val;
      }
    }
  }

  lemma {:induction false} AtLeastInOrder(t: Tree, v: int)
    ensures AllAtLeast(t, v) <==> forall i :: 0 <= i < |InOrder(t)| ==> InOrder(t)[i] >= v
  {
    if t.Node? {
      AtLeastInOrder(t.left, v);
      AtLeastInOrder(t.right, v);
      var a, b := InOrder(t.left), InOrder(t.right);
      var s := InOrder(t);
      assert s == a + [t.val] + b;
      if AllAtLeast(t, v) {
        assert AllAtLeast(t.left, v) && AllAtLeast(t.right, v);
        assert forall k :: 0 <= k < |InOrder(t.left)| ==> InOrder(t.left)[k] >= v;
        assert forall k :: 0 <= k < |InOrder(t.right)| ==> InOrder(t.right)[k] >= v;
        forall i | 0 <= i < |s|
          ensures s[i] >= v
        {
          if i < |a| {
            assert s[i] == a[i];
          } else if |a| < i {
            assert s[i] == b[i - |a| - 1];
          } else {
            assert s[i] == t.val;
          }
        }
      }
      if forall i :: 0 <= i < |s| ==> s[i] >= v {
        assert forall k :: 0 <= k < |a| ==> a[k] == s[k];
        assert forall k :: 0 <= k < |b| ==> b[k] == s[|a| + 1 + k];
        assert s[|a|] == t.val;
      }
    }
  }

  /** A listing with a middle element is sorted exactly when both sides are and they lie on the right sides of it. */
  lemma SortedSplit(a: seq<int>, x: int, b: seq<int>)
    ensures Sorted(a + [x] + b) <==>
      Sorted(a) && Sorted(b) && (forall i :: 0 <= i < |a| ==> a[i] <= x) && (forall i :: 0 <= i < |b| ==> b[i] >= x)
  {
    if Sorted(a) && Sorted(b) && (forall i :: 0 <= i < |a| ==> a[i] <= x) && (forall i :: 0 <= i < |b| ==> b[i] >= x) {
      SortedJoin(a, x, b);
    }
    if Sorted(a + [x] + b) {
      SortedParts(a, x, b);
    }
  }

  lemma SortedJoin(a: seq<int>, x: int, b: seq<int>)
    requires Sorted(a) && Sorted(b) && (forall i :: 0 <= i < |a| ==> a[i] <= x) && (forall i :: 0 <= i < |b| ==> b[i] >= x)
    ensures Sorted(a + [x] + b)
  {
    var s := a + [x] + b;
    forall i, j | 0 <= i < j < |s|
      ensures s[i] <= s[j]
    {
      if j < |a| {
        assert s[i] == a[i] && s[j] == a[j];
      } else if i < |a| {
        assert s[i] == a[i] <= x;
        if j > |a| {
          assert s[j] == b[j - |a| - 1];
        }
      } else if i > |a| {
        assert s[i] == b[i - |a| - 1] && s[j] == b[j - |a| - 1];
      } else if j > |a| {
        assert s[j] == b[j - |a| - 1];
      }
    }
  }

  lemma SortedParts(a: seq<int>, x: int, b: seq<int>)
    requires Sorted(a + [x] + b)
    ensures Sorted(a) && Sorted(b) && (forall i :: 0 <= i < |a| ==> a[i] <= x) && (forall i :: 0 <= i < |b| ==> b[i] >= x)
  {
    var s := a + [x] + b;
    assert s[|a|] == x;
    forall i, j | 0 <= i < j < |a|
      ensures a[i] <= a[j]
    {
      assert s[i] == a[i] && s[j] == a[j];
    }
    forall i | 0 <= i < |a|
      ensures a[i] <= x
    {
      assert s[i] == a[i];
    }
    forall i, j | 0 <= i < j < |b|
      ensures b[i] <= b[j]
    {
      assert s[|a| + 1 + i] == b[i] && s[|a| + 1 + j] == b[j];
    }
    forall i | 0 <= i < |b|
      ensures b[i] >= x
    {
      assert s[|a| + 1 + i] == b[i];
    }
  }

  /** The non-strict order holds exactly when the in-order listing is sorted. */
  lemma {:induction false} OrderedSorted(t: Tree)
    ensures IsOrdered(t) <==> Sorted(InOrder(t))
  {
    if t.Node? {
      OrderedSorted(t.left);
      OrderedSorted(t.right);
      AtMostInOrder(t.left, t.val);
      AtLeastInOrder(t.right, t.val);
      SortedSplit(InOrder(t.left), t.val, InOrder(t.right));
    }
  }
}
