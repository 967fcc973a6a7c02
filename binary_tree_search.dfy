/**
 * Search, insertion and deletion in an unbalanced binary search tree where
 * equal keys go right: search walks down from the root, insert attaches a
 * new leaf below the last node of that walk, and deleteNode replaces the
 * first node on the walk holding the key by its only child or, with two
 * children, copies in the in-order successor and unlinks it.
 */
module BinaryTreeSearch {
  import opened BinaryTree

  /** In a search tree a held key other than the root's lies on the side the walk takes. */
  lemma SearchStep(t: Tree, key: int)
    requires t.Node? && IsBst(t) && Contains(t, key) && key != t.val
    ensures key < t.val ==> Contains(t.left, key)
    ensures key > t.val ==> Contains(t.right, key)
  {
    if Contains(t.left, key) {
      BoundContains(t.left, t.val, key);
    }
    if Contains(t.right, key) {
      BoundContains(t.right, t.val, key);
    }
  }

  /** search(root, key): follows left on smaller keys and right otherwise. */
  method Search(root: Tree, key: int) returns (found: bool)
    ensures found ==> key in Elems(root)
    ensures IsBst(root) ==> (found <==> key in Elems(root))
  {
    ContainsElems(root, key);
    var current := root;
    while current.Node?
      invariant Contains(current, key) ==> Contains(root, key)
      invariant IsBst(root) ==> IsBst(current) && (Contains(root, key) ==> Contains(current, key))
      decreases current
    {
      if current.val == key {
        return true;
      }
      if IsBst(root) && Contains(root, key) {
        SearchStep(current, key);
      }
      if key < current.val {
        current := current.left;
      } else {
        current := current.right;
      }
    }
    return false;
  }

  /** insert(root, key): the new leaf hangs below the last node the walk passes; a non-empty root stays the root. */
  function Insert(t: Tree, key: int): (r: Tree)
    ensures r.Node? && Elems(r) == Elems(t) + multiset{key}
    ensures t.Node? ==> r.val == t.val
    ensures t == Nil ==> r == Node(Nil, key, Nil)
  {
    match t
    case Nil => Node(Nil, key, Nil)
    case Node(l, v, rt) =>
      if key < v then Node(Insert(l, key), v, rt) else Node(l, v, Insert(rt, key))
  }

  /** Inserting a key on the right side of a bound keeps every value on that side. */
  lemma {:induction false} InsertBound(t: Tree, key: int, v: int)
    ensures AllBelow(t, v) && key < v ==> AllBelow(Insert(t, key), v)
    ensures AllAtMost(t, v) && key <= v ==> AllAtMost(Insert(t, key), v)
    ensures AllAtLeast(t, v) && key >= v ==> AllAtLeast(Insert(t, key), v)
  {
    if t.Node? {
      if key < t.val {
        InsertBound(t.left, key, v);
      } else {
        InsertBound(t.right, key, v);
      }
    }
  }

  /** Insertion keeps the search-tree order. */
  lemma {:induction false} InsertBst(t: Tree, key: int)
    requires IsBst(t)
    ensures IsBst(Insert(t, key))
  {
    if t.Node? {
      if key < t.val {
        InsertBst(t.left, key);
        InsertBound(t.left, key, t.val);
      } else {
        InsertBst(t.right, key);
        InsertBound(t.right, key, t.val);
      }
    }
  }

  /** Insertion keeps the non-strict order too. */
  lemma {:induction false} InsertOrdered(t: Tree, key: int)
    requires IsOrdered(t)
    ensures IsOrdered(Insert(t, key))
  {
    if t.Node? {
      if key < t.val {
        InsertOrdered(t.left, key);
        InsertBound(t.left, key, t.val);
      } else {
        InsertOrdered(t.right, key);
        InsertBound(t.right, key, t.val);
      }
    }
  }

  /** After insert(root, key), search finds key. */
  method InsertThenSearch(t: Tree, key: int) returns (found: bool)
    requires IsBst(t)
    ensures found
  {
    InsertBst(t, key);
    found := Search(Insert(t, key), key);
  }

  /** Unlinking the leftmost node of a non-empty tree: its value and what remains. */
  function RemoveMin(t: Tree): (res: (int, Tree))
    requires t.Node?
    ensures Elems(t) == Elems(res.1) + multiset{res.0}
  {
    if t.left == Nil then (t.val, t.right)
    else
      var (m, l) := RemoveMin(t.left);
      (m, Node(l, t.val, t.right))
  }

  /** Unlinking the leftmost node keeps every bound the tree respects. */
  lemma {:induction false} RemoveMinBound(t: Tree, v: int)
    requires t.Node?
    ensures AllBelow(t, v) ==> AllBelow(RemoveMin(t).1, v)
    ensures AllAtLeast(t, v) ==> AllAtLeast(RemoveMin(t).1, v)
  {
    if t.left != Nil {
      RemoveMinBound(t.left, v);
    }
  }

  /** In a search tree the leftmost value is the least, and unlinking it keeps the order. */
  lemma {:induction false} RemoveMinBst(t: Tree)
    requires t.Node? && IsBst(t)
    ensures AllAtLeast(t, RemoveMin(t).0)
    ensures IsBst(RemoveMin(t).1)
  {
    if t.left != Nil {
      RemoveMinBst(t.left);
      RemoveMinBound(t.left, t.val);
      var m := RemoveMin(t.left).0;
      ContainsElems(t.left, m);
      BoundContains(t.left, t.val, m);
      AtLeastWeaken(t.right, t.val, m);
    }
  }

  /** removeNode: an absent child is replaced by the other; two children take the in-order successor. */
  function RemoveNode(n: Tree): (r: Tree)
    requires n.Node?
    ensures Elems(r) == Elems(n) - multiset{n.val}
  {
    if n.left == Nil then n.right
    else if n.right == Nil then n.left
    else
      var (m, rt) := RemoveMin(n.right);
      Node(n.left, m, rt)
  }

  lemma RemoveNodeBst(n: Tree)
    requires n.Node? && IsBst(n)
    ensures IsBst(RemoveNode(n))
  {
    if n.left != Nil && n.right != Nil {
      RemoveMinBst(n.right);
      var m := RemoveMin(n.right).0;
      RemoveMinBound(n.right, m);
      ContainsElems(n.right, m);
      BoundContains(n.right, n.val, m);
      BelowWeaken(n.left, n.val, m);
    }
  }

  lemma RemoveNodeBound(n: Tree, v: int)
    requires n.Node?
    ensures AllBelow(n, v) ==> AllBelow(RemoveNode(n), v)
    ensures AllAtLeast(n, v) ==> AllAtLeast(RemoveNode(n), v)
  {
    if n.left != Nil && n.right != Nil {
      RemoveMinBound(n.right, v);
      var m := RemoveMin(n.right).0;
      ContainsElems(n.right, m);
      BoundContains(n.right, v, m);
    }
  }

  /**
   * deleteNode(root, key): the first node on the search walk that holds key
   * is replaced by removeNode; when no node on the walk holds it the tree is
   * returned as it was.
   */
  function DeleteNode(t: Tree, key: int): Tree
  {
    match t
    case Nil => Nil
    case Node(l, v, r) =>
      if v == key then RemoveNode(t)
      else if key < v then Node(DeleteNode(l, key), v, r)
      else Node(l, v, DeleteNode(r, key))
  }

  /** Deleting a key that is not held changes nothing. */
  lemma {:induction false} DeleteAbsent(t: Tree, key: int)
    requires key !in Elems(t)
    ensures DeleteNode(t, key) == t
  {
    if t.Node? {
      if key < t.val {
        DeleteAbsent(t.left, key);
      } else if key > t.val {
        DeleteAbsent(t.right, key);
      }
    }
  }

  lemma {:induction false} DeleteBound(t: Tree, key: int, v: int)
    ensures AllBelow(t, v) ==> AllBelow(DeleteNode(t, key), v)
    ensures AllAtLeast(t, v) ==> AllAtLeast(DeleteNode(t, key), v)
  {
    if t.Node? {
      if t.val == key {
        RemoveNodeBound(t, v);
      } else if key < t.val {
        DeleteBound(t.left, key, v);
      } else {
        DeleteBound(t.right, key, v);
      }
    }
  }

  /** Taking one occurrence out of a part takes it out of the whole. */
  lemma TakeOne(a: multiset<int>, b: multiset<int>, k: int)
    requires k in a
    ensures (a - multiset{k}) + b == (a + b) - multiset{k}
    ensures b + (a - multiset{k}) == (b + a) - multiset{k}
  {
  }

  /** One occurrence taken out of a subtree is taken out of the tree. */
  lemma TakeOneLeft(t: Tree, d: Tree, key: int)
    requires t.Node? && key in Elems(t.left) && Elems(d) == Elems(t.left) - multiset{key}
    ensures Elems(Node(d, t.val, t.right)) == Elems(t) - multiset{key}
  {
    TakeOne(Elems(t.left), multiset{t.val} + Elems(t.right), key);
  }

  lemma TakeOneRight(t: Tree, d: Tree, key: int)
    requires t.Node? && key in Elems(t.right) && Elems(d) == Elems(t.right) - multiset{key}
    ensures Elems(Node(t.left, t.val, d)) == Elems(t) - multiset{key}
  {
    TakeOne(Elems(t.right), Elems(t.left) + multiset{t.val}, key);
  }

  /** Deleting a held key from a search tree removes exactly one occurrence of it. */
  lemma {:induction false} DeletePresent(t: Tree, key: int)
    requires IsBst(t) && Contains(t, key)
    ensures Elems(DeleteNode(t, key)) == Elems(t) - multiset{key}
  {
    if t.val == key {
      assert DeleteNode(t, key) == RemoveNode(t);
    } else if key < t.val {
      SearchStep(t, key);
      var d := DeleteNode(t.left, key);
      assert DeleteNode(t, key) == Node(d, t.val, t.right);
      DeletePresent(t.left, key);
      ContainsElems(t.left, key);
      TakeOneLeft(t, d, key);
    } else {
      SearchStep(t, key);
      var d := DeleteNode(t.right, key);
      assert DeleteNode(t, key) == Node(t.left, t.val, d);
      DeletePresent(t.right, key);
      ContainsElems(t.right, key);
      TakeOneRight(t, d, key);
    }
  }

  /** Deletion keeps the search-tree order. */
  lemma {:induction false} DeleteBst(t: Tree, key: int)
    requires IsBst(t)
    ensures IsBst(DeleteNode(t, key))
  {
    if t.Node? {
      if t.val == key {
        RemoveNodeBst(t);
      } else if key < t.val {
        DeleteBst(t.left, key);
        DeleteBound(t.left, key, t.val);
      } else {
        DeleteBst(t.right, key);
        DeleteBound(t.right, key, t.val);
      }
    }
  }
}
