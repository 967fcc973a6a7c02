/**
 * The recursive AVL tree of the catalogue. Every node stores its height;
 * insertion is the search-tree insertion (equal keys go right) followed, on
 * the way back up, by a height update and one of four rotation cases chosen
 * by the balance factor and by comparing the inserted value with the child's
 * value. A rotation that dereferences a missing child throws in the source;
 * here it yields None.
 */
module Avl {
  import opened Wrappers
  import BinaryTree

  datatype Tree = Leaf | Node(left: Tree, value: int, right: Tree, height: int)

  function Max(a: int, b: int): int
  {
    if a >= b then a else b
  }

  /** getHeight: the stored height, 0 for a missing node. */
  function GetHeight(t: Tree): int
  {
    if t.Leaf? then 0 else t.height
  }

  /** getBalance: left height minus right height, 0 for a missing node. */
  function GetBalance(t: Tree): int
  {
    if t.Leaf? then 0 else GetHeight(t.left) - GetHeight(t.right)
  }

  /** The number of nodes on the longest downward path. */
  function Height(t: Tree): nat
  {
    match t
    case Leaf => 0
    case Node(l, _, r, _) =>
      var hl := Height(l);
      var hr := Height(r);
      1 + (if hl >= hr then hl else hr)
  }

  /** Every stored height is one more than the larger stored height below it. */
  predicate HeightsOk(t: Tree)
  {
    match t
    case Leaf => true
    case Node(l, _, r, h) => h == 1 + Max(GetHeight(l), GetHeight(r)) && HeightsOk(l) && HeightsOk(r)
  }

  /** Every balance factor lies in [-1, 1]. */
  predicate Balanced(t: Tree)
  {
    match t
    case Leaf => true
    case Node(l, _, r, _) => -1 <= GetBalance(t) <= 1 && Balanced(l) && Balanced(r)
  }

  /** The keys and shape without the stored heights. */
  function ToTree(t: Tree): BinaryTree.Tree
  {
    match t
    case Leaf => BinaryTree.Nil
    case Node(l, v, r, _) => BinaryTree.Node(ToTree(l), v, ToTree(r))
  }

  function Elems(t: Tree): multiset<int>
  {
    BinaryTree.Elems(ToTree(t))
  }

  function InOrder(t: Tree): seq<int>
  {
    BinaryTree.InOrder(ToTree(t))
  }

  /** Consistent heights, balance, and the non-strict search-tree order. */
  predicate IsAvl(t: Tree)
  {
    HeightsOk(t) && Balanced(t) && BinaryTree.IsOrdered(ToTree(t))
  }

  lemma InOrderNode(t: Tree)
    requires t.Node?
    ensures InOrder(t) == InOrder(t.left) + [t.value] + InOrder(t.right)
  {
  }

  /** With consistent stored heights, getHeight is the height of the tree. */
  lemma {:induction false} StoredHeight(t: Tree)
    requires HeightsOk(t)
    ensures GetHeight(t) == Height(t)
  {
    if t.Node? {
      StoredHeight(t.left);
      StoredHeight(t.right);
    }
  }

  /** rightRotate(y): y's left child x becomes the root, y takes x's right subtree; heights recomputed bottom-up. */
  function RightRotate(y: Tree): (r: Option<Tree>)
    ensures r.Some? <==> y.Node? && y.left.Node?
    ensures r.Some? ==> r.value.Node? && InOrder(r.value) == InOrder(y)
  {
    if y.Leaf? || y.left.Leaf? then None
    else
      var x := y.left;
      var t2 := x.right;
      var y2 := Node(t2, y.value, y.right, Max(GetHeight(t2), GetHeight(y.right)) + 1);
      InOrderNode(y);
      InOrderNode(x);
      InOrderNode(y2);
      InOrderNode(Node(x.left, x.value, y2, 0));
      Some(Node(x.left, x.value, y2, Max(GetHeight(x.left), GetHeight(y2)) + 1))
  }

  /** leftRotate(x): x's right child y becomes the root, x takes y's left subtree; heights recomputed bottom-up. */
  function LeftRotate(x: Tree): (r: Option<Tree>)
    ensures r.Some? <==> x.Node? && x.right.Node?
    ensures r.Some? ==> r.value.Node? && InOrder(r.value) == InOrder(x)
  {
    if x.Leaf? || x.right.Leaf? then None
    else
      var y := x.right;
      var t2 := y.left;
      var x2 := Node(x.left, x.value, t2, Max(GetHeight(x.left), GetHeight(t2)) + 1);
      InOrderNode(x);
      InOrderNode(y);
      InOrderNode(x2);
      InOrderNode(Node(x2, y.value, y.right, 0));
      Some(Node(x2, y.value, y.right, Max(GetHeight(x2), GetHeight(y.right)) + 1))
  }

  /** The value compared against in the rotation cases, 0 for a missing child. */
  function ValueOrZero(t: Tree): int
  {
    if t.Node? then t.value else 0
  }

  /** The four rotation cases of insertNode, tried in the source's order, after the height update. */
  function Rebalance(n: Tree, v: int): (r: Option<Tree>)
    requires n.Node?
    ensures r.Some? ==> r.value.Node? && InOrder(r.value) == InOrder(n)
  {
    var balance := GetBalance(n);
    if balance > 1 && v < ValueOrZero(n.left) then
      RightRotate(n)
    else if balance < -1 && v > ValueOrZero(n.right) then
      LeftRotate(n)
    else if balance > 1 && v > ValueOrZero(n.left) then
      match LeftRotate(n.left)
      case None => None
      case Some(l) => RightRotate(n.(left := l))
    else if balance < -1 && v < ValueOrZero(n.right) then
      match RightRotate(n.right)
      case None => None
      case Some(r) => LeftRotate(n.(right := r))
    else
      Some(n)
  }

  /** insertNode(node, value): None when a rotation meets a missing child. */
  function InsertNode(t: Tree, v: int): (r: Option<Tree>)
    ensures r.Some? ==> r.value.Node?
  {
    match t
    case Leaf => Some(Node(Leaf, v, Leaf, 1))
    case Node(l, x, rt, _) =>
      if v < x then
        match InsertNode(l, v)
        case None => None
        case Some(l2) => Rebalance(Node(l2, x, rt, 1 + Max(GetHeight(l2), GetHeight(rt))), v)
      else
        match InsertNode(rt, v)
        case None => None
        case Some(r2) => Rebalance(Node(l, x, r2, 1 + Max(GetHeight(l), GetHeight(r2))), v)
  }

  /** searchNode(node, value): the first node on the search walk holding value. */
  function SearchNode(t: Tree, v: int): (r: Option<Tree>)
    ensures r.Some? ==> r.value.Node? && r.value.value == v && v in Elems(t)
  {
    match t
    case Leaf => None
    case Node(l, x, rt, _) =>
      if x == v then Some(t)
      else if v < x then SearchNode(l, v)
      else SearchNode(rt, v)
  }

  lemma ElemsNode(l: Tree, x: int, r: Tree, h: int)
    ensures Elems(Node(l, x, r, h)) == Elems(l) + multiset{x} + Elems(r)
  {
  }

  lemma BoundsNode(l: Tree, x: int, r: Tree, h: int, b: int)
    ensures BinaryTree.AllAtMost(ToTree(Node(l, x, r, h)), b) <==> x <= b && BinaryTree.AllAtMost(ToTree(l), b) && BinaryTree.AllAtMost(ToTree(r), b)
    ensures BinaryTree.AllAtLeast(ToTree(Node(l, x, r, h)), b) <==> x >= b && BinaryTree.AllAtLeast(ToTree(l), b) && BinaryTree.AllAtLeast(ToTree(r), b)
  {
  }

  /** Rebalancing keeps the values. */
  lemma RebalanceElems(n: Tree, v: int)
    requires n.Node? && Rebalance(n, v).Some?
    ensures Elems(Rebalance(n, v).value) == Elems(n)
  {
    BinaryTree.InOrderElems(ToTree(n));
    BinaryTree.InOrderElems(ToTree(Rebalance(n, v).value));
  }

  /** insertNode adds exactly one occurrence of the value. */
  lemma {:induction false} InsertElems(t: Tree, v: int)
    requires InsertNode(t, v).Some?
    ensures Elems(InsertNode(t, v).value) == Elems(t) + multiset{v}
  {
    if t.Node? {
      if v < t.value {
        var l2 := InsertNode(t.left, v).value;
        var n := Node(l2, t.value, t.right, 1 + Max(GetHeight(l2), GetHeight(t.right)));
        assert InsertNode(t, v) == Rebalance(n, v);
        InsertElems(t.left, v);
        RebalanceElems(n, v);
        ElemsNode(l2, t.value, t.right, n.height);
        ElemsNode(t.left, t.value, t.right, t.height);
      } else {
        var r2 := InsertNode(t.right, v).value;
        var n := Node(t.left, t.value, r2, 1 + Max(GetHeight(t.left), GetHeight(r2)));
        assert InsertNode(t, v) == Rebalance(n, v);
        InsertElems(t.right, v);
        RebalanceElems(n, v);
        ElemsNode(t.left, t.value, r2, n.height);
        ElemsNode(t.left, t.value, t.right, t.height);
      }
    }
  }

  /**
   * The tree seen from the unchanged root object after insertNode throws.
   * The calls below the failing level have finished, so the node there has
   * its new child and its updated height; the failing rotation throws before
   * it writes anything, and every node above keeps its old child and height.
   */
  function ThrownTree(t: Tree, v: int): Tree
  {
    match t
    case Leaf => Leaf
    case Node(l, x, rt, h) =>
      if v < x then
        match InsertNode(l, v)
        case None => Node(ThrownTree(l, v), x, rt, h)
        case Some(l2) => Node(l2, x, rt, 1 + Max(GetHeight(l2), GetHeight(rt)))
      else
        match InsertNode(rt, v)
        case None => Node(l, x, ThrownTree(rt, v), h)
        case Some(r2) => Node(l, x, r2, 1 + Max(GetHeight(l), GetHeight(r2)))
  }

  /** When insertNode throws, the in-place writes made before the throw already hold the new value. */
  lemma {:induction false} ThrownElems(t: Tree, v: int)
    requires InsertNode(t, v).None?
    ensures Elems(ThrownTree(t, v)) == Elems(t) + multiset{v}
  {
    if t.Node? {
      if v < t.value {
        if InsertNode(t.left, v).None? {
          ThrownElems(t.left, v);
        }
        ThrownLeft(t, v);
      } else {
        if InsertNode(t.right, v).None? {
          ThrownElems(t.right, v);
        }
        ThrownRight(t, v);
      }
    }
  }

  /** The step of ThrownElems for a value that goes left. */
  lemma ThrownLeft(t: Tree, v: int)
    requires t.Node? && v < t.value
    requires InsertNode(t.left, v).None? ==> Elems(ThrownTree(t.left, v)) == Elems(t.left) + multiset{v}
    ensures Elems(ThrownTree(t, v)) == Elems(t) + multiset{v}
  {
    if InsertNode(t.left, v).None? {
      ChildGrew(t.left, ThrownTree(t.left, v), t.value, t.right, t.height, t.height, v);
    } else {
      var l2 := InsertNode(t.left, v).value;
      InsertElems(t.left, v);
      ChildGrew(t.left, l2, t.value, t.right, t.height, 1 + Max(GetHeight(l2), GetHeight(t.right)), v);
    }
  }

  /** The step of ThrownElems for a value that goes right. */
  lemma ThrownRight(t: Tree, v: int)
    requires t.Node? && v >= t.value
    requires InsertNode(t.right, v).None? ==> Elems(ThrownTree(t.right, v)) == Elems(t.right) + multiset{v}
    ensures Elems(ThrownTree(t, v)) == Elems(t) + multiset{v}
  {
    if InsertNode(t.right, v).None? {
      ChildGrew(t.right, ThrownTree(t.right, v), t.value, t.left, t.height, t.height, v);
    } else {
      var r2 := InsertNode(t.right, v).value;
      InsertElems(t.right, v);
      ChildGrew(t.right, r2, t.value, t.left, t.height, 1 + Max(GetHeight(t.left), GetHeight(r2)), v);
    }
  }

  /** A node one of whose children gained v gained v, whichever side the child is on. */
  lemma ChildGrew(c: Tree, c2: Tree, x: int, o: Tree, h: int, h2: int, v: int)
    requires Elems(c2) == Elems(c) + multiset{v}
    ensures Elems(Node(c2, x, o, h2)) == Elems(Node(c, x, o, h)) + multiset{v}
    ensures Elems(Node(o, x, c2, h2)) == Elems(Node(o, x, c, h)) + multiset{v}
  {
    ElemsNode(c2, x, o, h2);
    ElemsNode(c, x, o, h);
    ElemsNode(o, x, c2, h2);
    ElemsNode(o, x, c, h);
  }

  /**
   * Four zeros build a right spine that no rotation case matches; inserting
   * -1 then reaches the right-left case, whose right rotation meets a missing
   * child. The root has already taken -1 as its left child.
   */
  lemma SpineThrows()
    ensures var spine := Node(Leaf, 0, Node(Leaf, 0, Node(Leaf, 0, Node(Leaf, 0, Leaf, 1), 2), 3), 4);
      && InsertNode(Leaf, 0) == Some(Node(Leaf, 0, Leaf, 1))
      && InsertNode(Node(Leaf, 0, Leaf, 1), 0) == Some(Node(Leaf, 0, Node(Leaf, 0, Leaf, 1), 2))
      && InsertNode(Node(Leaf, 0, Node(Leaf, 0, Leaf, 1), 2), 0) == Some(spine.right)
      && InsertNode(spine.right, 0) == Some(spine)
      && InsertNode(spine, -1).None?
      && ThrownTree(spine, -1) == spine.(left := Node(Leaf, -1, Leaf, 1))
  {
  }

  /** The shapes a rotation maps between, without heights. */
  lemma RightRotateShape(t: Tree)
    requires RightRotate(t).Some?
    ensures ToTree(t) == BinaryTree.Node(BinaryTree.Node(ToTree(t.left.left), t.left.value, ToTree(t.left.right)), t.value, ToTree(t.right))
    ensures ToTree(RightRotate(t).value) == BinaryTree.Node(ToTree(t.left.left), t.left.value, BinaryTree.Node(ToTree(t.left.right), t.value, ToTree(t.right)))
  {
  }

  lemma LeftRotateShape(t: Tree)
    requires LeftRotate(t).Some?
    ensures ToTree(t) == BinaryTree.Node(ToTree(t.left), t.value, BinaryTree.Node(ToTree(t.right.left), t.right.value, ToTree(t.right.right)))
    ensures ToTree(LeftRotate(t).value) == BinaryTree.Node(BinaryTree.Node(ToTree(t.left), t.value, ToTree(t.right.left)), t.right.value, ToTree(t.right.right))
  {
  }

  /** Rotations keep every bound the tree respects. */
  lemma RotateBounds(t: Tree, b: int)
    ensures RightRotate(t).Some? && BinaryTree.AllAtMost(ToTree(t), b) ==> BinaryTree.AllAtMost(ToTree(RightRotate(t).value), b)
    ensures RightRotate(t).Some? && BinaryTree.AllAtLeast(ToTree(t), b) ==> BinaryTree.AllAtLeast(ToTree(RightRotate(t).value), b)
    ensures LeftRotate(t).Some? && BinaryTree.AllAtMost(ToTree(t), b) ==> BinaryTree.AllAtMost(ToTree(LeftRotate(t).value), b)
    ensures LeftRotate(t).Some? && BinaryTree.AllAtLeast(ToTree(t), b) ==> BinaryTree.AllAtLeast(ToTree(LeftRotate(t).value), b)
  {
    if RightRotate(t).Some? {
      RightRotateShape(t);
      BinaryTree.RegroupBounds(ToTree(t.left.left), t.left.value, ToTree(t.left.right), t.value, ToTree(t.right), b);
    }
    if LeftRotate(t).Some? {
      LeftRotateShape(t);
      BinaryTree.RegroupBounds(ToTree(t.left), t.value, ToTree(t.right.left), t.right.value, ToTree(t.right.right), b);
    }
  }

  /** Rotations keep the non-strict search-tree order. */
  lemma RotateOrdered(t: Tree)
    requires BinaryTree.IsOrdered(ToTree(t))
    ensures RightRotate(t).Some? ==> BinaryTree.IsOrdered(ToTree(RightRotate(t).value))
    ensures LeftRotate(t).Some? ==> BinaryTree.IsOrdered(ToTree(LeftRotate(t).value))
  {
    if RightRotate(t).Some? {
      RightRotateShape(t);
      BinaryTree.AtLeastWeaken(ToTree(t.right), t.value, t.left.value);
    }
    if LeftRotate(t).Some? {
      LeftRotateShape(t);
      BinaryTree.AtMostWeaken(ToTree(t.left), t.value, t.right.value);
    }
  }

  lemma RebalanceBounds(n: Tree, v: int, b: int)
    requires n.Node? && Rebalance(n, v).Some?
    ensures BinaryTree.AllAtMost(ToTree(n), b) ==> BinaryTree.AllAtMost(ToTree(Rebalance(n, v).value), b)
    ensures BinaryTree.AllAtLeast(ToTree(n), b) ==> BinaryTree.AllAtLeast(ToTree(Rebalance(n, v).value), b)
  {
    RotateBounds(n, b);
    RotateBounds(n.left, b);
    RotateBounds(n.right, b);
    if LeftRotate(n.left).Some? {
      RotateBounds(n.(left := LeftRotate(n.left).value), b);
    }
    if RightRotate(n.right).Some? {
      RotateBounds(n.(right := RightRotate(n.right).value), b);
    }
  }

  lemma RebalanceOrdered(n: Tree, v: int)
    requires n.Node? && Rebalance(n, v).Some? && BinaryTree.IsOrdered(ToTree(n))
    ensures BinaryTree.IsOrdered(ToTree(Rebalance(n, v).value))
  {
    RotateOrdered(n);
    var balance := GetBalance(n);
    if !(balance > 1 && v < ValueOrZero(n.left)) && !(balance < -1 && v > ValueOrZero(n.right)) {
      if balance > 1 && v > ValueOrZero(n.left) {
        var l := LeftRotate(n.left).value;
        RotateOrdered(n.left);
        RotateBounds(n.left, n.value);
        RotateOrdered(n.(left := l));
      } else if balance < -1 && v < ValueOrZero(n.right) {
        var r := RightRotate(n.right).value;
        RotateOrdered(n.right);
        RotateBounds(n.right, n.value);
        RotateOrdered(n.(right := r));
      }
    }
  }

  /** Inserting a value on the right side of a bound keeps the tree on that side. */
  lemma {:induction false} InsertBounds(t: Tree, v: int, b: int)
    requires InsertNode(t, v).Some?
    ensures BinaryTree.AllAtMost(ToTree(t), b) && v <= b ==> BinaryTree.AllAtMost(ToTree(InsertNode(t, v).value), b)
    ensures BinaryTree.AllAtLeast(ToTree(t), b) && v >= b ==> BinaryTree.AllAtLeast(ToTree(InsertNode(t, v).value), b)
  {
    if t.Node? {
      if v < t.value {
        var l2 := InsertNode(t.left, v).value;
        var n := Node(l2, t.value, t.right, 1 + Max(GetHeight(l2), GetHeight(t.right)));
        assert InsertNode(t, v) == Rebalance(n, v);
        InsertBounds(t.left, v, b);
        RebalanceBounds(n, v, b);
        BoundsNode(l2, t.value, t.right, n.height, b);
        BoundsNode(t.left, t.value, t.right, t.height, b);
      } else {
        var r2 := InsertNode(t.right, v).value;
        var n := Node(t.left, t.value, r2, 1 + Max(GetHeight(t.left), GetHeight(r2)));
        assert InsertNode(t, v) == Rebalance(n, v);
        InsertBounds(t.right, v, b);
        RebalanceBounds(n, v, b);
        BoundsNode(t.left, t.value, r2, n.height, b);
        BoundsNode(t.left, t.value, t.right, t.height, b);
      }
    }
  }

  /** insertNode keeps the non-strict search-tree order. */
  lemma {:induction false} InsertOrdered(t: Tree, v: int)
    requires InsertNode(t, v).Some? && BinaryTree.IsOrdered(ToTree(t))
    ensures BinaryTree.IsOrdered(ToTree(InsertNode(t, v).value))
  {
    if t.Node? {
      if v < t.value {
        var l2 := InsertNode(t.left, v).value;
        var n := Node(l2, t.value, t.right, 1 + Max(GetHeight(l2), GetHeight(t.right)));
        assert InsertNode(t, v) == Rebalance(n, v);
        InsertOrdered(t.left, v);
        InsertBounds(t.left, v, t.value);
        RebalanceOrdered(n, v);
      } else {
        var r2 := InsertNode(t.right, v).value;
        var n := Node(t.left, t.value, r2, 1 + Max(GetHeight(t.left), GetHeight(r2)));
        assert InsertNode(t, v) == Rebalance(n, v);
        InsertOrdered(t.right, v);
        InsertBounds(t.right, v, t.value);
        RebalanceOrdered(n, v);
      }
    }
  }

  lemma HeightNonNeg(t: Tree)
    requires HeightsOk(t)
    ensures GetHeight(t) >= 0
    ensures t.Node? ==> GetHeight(t) >= 1
  {
    StoredHeight(t);
  }

  /** A rotation recomputes the height of every node it moves. */
  lemma RotateHeights(t: Tree)
    requires t.Node? && HeightsOk(t.left) && HeightsOk(t.right)
    ensures RightRotate(t).Some? ==> HeightsOk(RightRotate(t).value)
    ensures LeftRotate(t).Some? ==> HeightsOk(LeftRotate(t).value)
  {
  }

  lemma RebalanceHeights(n: Tree, v: int)
    requires n.Node? && HeightsOk(n) && Rebalance(n, v).Some?
    ensures HeightsOk(Rebalance(n, v).value)
  {
    RotateHeights(n);
    if n.left.Node? {
      RotateHeights(n.left);
      if LeftRotate(n.left).Some? {
        RotateHeights(n.(left := LeftRotate(n.left).value));
      }
    }
    if n.right.Node? {
      RotateHeights(n.right);
      if RightRotate(n.right).Some? {
        RotateHeights(n.(right := RightRotate(n.right).value));
      }
    }
  }

  /** After insertNode every stored height is one more than the larger below it. */
  lemma {:induction false} InsertHeights(t: Tree, v: int)
    requires HeightsOk(t) && InsertNode(t, v).Some?
    ensures HeightsOk(InsertNode(t, v).value)
  {
    if t.Node? {
      if v < t.value {
        var l2 := InsertNode(t.left, v).value;
        var n := Node(l2, t.value, t.right, 1 + Max(GetHeight(l2), GetHeight(t.right)));
        assert InsertNode(t, v) == Rebalance(n, v);
        InsertHeights(t.left, v);
        RebalanceHeights(n, v);
      } else {
        var r2 := InsertNode(t.right, v).value;
        var n := Node(t.left, t.value, r2, 1 + Max(GetHeight(t.left), GetHeight(r2)));
        assert InsertNode(t, v) == Rebalance(n, v);
        InsertHeights(t.right, v);
        RebalanceHeights(n, v);
      }
    }
  }

  /** Left-left case: the left child is two taller and leans left; one right rotation balances. */
  lemma RotateLeftLeft(n: Tree)
    requires n.Node? && n.left.Node? && HeightsOk(n.left) && HeightsOk(n.right)
    requires Balanced(n.left) && Balanced(n.right)
    requires GetHeight(n.left) == GetHeight(n.right) + 2 && GetBalance(n.left) == 1
    ensures RightRotate(n).Some?
    ensures Balanced(RightRotate(n).value) && GetHeight(RightRotate(n).value) == GetHeight(n.right) + 2
  {
    HeightNonNeg(n.left.left);
    HeightNonNeg(n.left.right);
  }

  /** Left-right case: the left child is two taller and leans right; two rotations balance. */
  lemma RotateLeftRight(n: Tree)
    requires n.Node? && n.left.Node? && HeightsOk(n.left) && HeightsOk(n.right)
    requires Balanced(n.left) && Balanced(n.right)
    requires GetHeight(n.left) == GetHeight(n.right) + 2 && GetBalance(n.left) == -1
    ensures LeftRotate(n.left).Some?
    ensures var m := n.(left := LeftRotate(n.left).value);
      RightRotate(m).Some? && Balanced(RightRotate(m).value) && GetHeight(RightRotate(m).value) == GetHeight(n.right) + 2
  {
    HeightNonNeg(n.right);
    HeightNonNeg(n.left.left);
    var b := n.left.right;
    HeightNonNeg(b.left);
    HeightNonNeg(b.right);
  }

  /** Right-right case, the mirror of the left-left case. */
  lemma RotateRightRight(n: Tree)
    requires n.Node? && n.right.Node? && HeightsOk(n.right) && HeightsOk(n.left)
    requires Balanced(n.right) && Balanced(n.left)
    requires GetHeight(n.right) == GetHeight(n.left) + 2 && GetBalance(n.right) == -1
    ensures LeftRotate(n).Some?
    ensures Balanced(LeftRotate(n).value) && GetHeight(LeftRotate(n).value) == GetHeight(n.left) + 2
  {
    HeightNonNeg(n.right.left);
    HeightNonNeg(n.right.right);
  }

  /** Right-left case, the mirror of the left-right case. */
  lemma RotateRightLeft(n: Tree)
    requires n.Node? && n.right.Node? && HeightsOk(n.right) && HeightsOk(n.left)
    requires Balanced(n.right) && Balanced(n.left)
    requires GetHeight(n.right) == GetHeight(n.left) + 2 && GetBalance(n.right) == 1
    ensures RightRotate(n.right).Some?
    ensures var m := n.(right := RightRotate(n.right).value);
      LeftRotate(m).Some? && Balanced(LeftRotate(m).value) && GetHeight(LeftRotate(m).value) == GetHeight(n.left) + 2
  {
    HeightNonNeg(n.left);
    HeightNonNeg(n.right.right);
    var b := n.right.left;
    HeightNonNeg(b.left);
    HeightNonNeg(b.right);
  }

  /**
   * What insertNode achieves on a balanced tree: it succeeds, the result is
   * balanced with consistent heights, at most one taller, and when a
   * non-empty tree grows its root is kept and leans toward the inserted side.
   */
  ghost predicate InsertSpec(t: Tree, v: int)
  {
    InsertNode(t, v).Some? &&
    var r := InsertNode(t, v).value;
    HeightsOk(r) && Balanced(r) && GetHeight(t) <= GetHeight(r) <= GetHeight(t) + 1 &&
    (t.Node? && GetHeight(r) == GetHeight(t) + 1 ==> r.value == t.value && GetBalance(r) == (if v < t.value then 1 else -1))
  }

  /** One level of insertNode on the left, given what the insertion below achieved. */
  lemma InsertStepLeft(t: Tree, v: int)
    requires t.Node? && v < t.value && HeightsOk(t) && Balanced(t)
    requires !BinaryTree.Contains(ToTree(t), v) && InsertSpec(t.left, v)
    ensures InsertSpec(t, v)
  {
    var l, x, rt := t.left, t.value, t.right;
    var l2 := InsertNode(l, v).value;
    var n := Node(l2, x, rt, 1 + Max(GetHeight(l2), GetHeight(rt)));
    assert InsertNode(t, v) == Rebalance(n, v);
    HeightNonNeg(l);
    HeightNonNeg(rt);
    RebalanceHeights(n, v);
    if GetHeight(l2) == GetHeight(rt) + 2 {
      assert l.Node? && l2.value == l.value;
      assert v != l.value;
      if v < l.value {
        RotateLeftLeft(n);
        assert Rebalance(n, v) == RightRotate(n);
      } else {
        RotateLeftRight(n);
      }
    } else {
      assert Rebalance(n, v) == Some(n);
    }
  }

  /** One level of insertNode on the right, given what the insertion below achieved. */
  lemma InsertStepRight(t: Tree, v: int)
    requires t.Node? && v > t.value && HeightsOk(t) && Balanced(t)
    requires !BinaryTree.Contains(ToTree(t), v) && InsertSpec(t.right, v)
    ensures InsertSpec(t, v)
  {
    var l, x, rt := t.left, t.value, t.right;
    var r2 := InsertNode(rt, v).value;
    var n := Node(l, x, r2, 1 + Max(GetHeight(l), GetHeight(r2)));
    assert InsertNode(t, v) == Rebalance(n, v);
    HeightNonNeg(l);
    HeightNonNeg(rt);
    RebalanceHeights(n, v);
    if GetHeight(r2) == GetHeight(l) + 2 {
      assert rt.Node? && r2.value == rt.value;
      assert v != rt.value;
      if v > rt.value {
        RotateRightRight(n);
        assert Rebalance(n, v) == LeftRotate(n);
      } else {
        RotateRightLeft(n);
      }
    } else {
      assert Rebalance(n, v) == Some(n);
    }
  }

  /** With a key not yet held, insertNode keeps a balanced tree balanced. */
  lemma {:induction false} InsertBalanced(t: Tree, v: int)
    requires HeightsOk(t) && Balanced(t) && !BinaryTree.Contains(ToTree(t), v)
    ensures InsertSpec(t, v)
  {
    if t.Node? {
      if v < t.value {
        InsertBalanced(t.left, v);
        InsertHeights(t.left, v);
        InsertStepLeft(t, v);
      } else {
        assert v != t.value;
        InsertBalanced(t.right, v);
        InsertHeights(t.right, v);
        InsertStepRight(t, v);
      }
    }
  }

  /**
   * insertNode on a search tree with a key not yet held: it succeeds, the
   * result is again a search tree with consistent heights and balance, it
   * holds the old keys plus the new one, and it is at most one level taller.
   */
  lemma InsertAvl(t: Tree, v: int)
    requires IsAvl(t) && v !in Elems(t)
    ensures InsertNode(t, v).Some?
    ensures IsAvl(InsertNode(t, v).value)
    ensures Elems(InsertNode(t, v).value) == Elems(t) + multiset{v}
    ensures Height(t) <= Height(InsertNode(t, v).value) <= Height(t) + 1
  {
    BinaryTree.ContainsElems(ToTree(t), v);
    InsertBalanced(t, v);
    InsertOrdered(t, v);
    InsertElems(t, v);
    StoredHeight(t);
    StoredHeight(InsertNode(t, v).value);
  }

  /**
   * An equal key goes right and no rotation case compares equal, so
   * inserting 2, 1, 1 leaves the root with balance factor 2.
   */
  lemma EqualKeyNoRotation()
    ensures InsertNode(Leaf, 2) == Some(Node(Leaf, 2, Leaf, 1))
    ensures InsertNode(Node(Leaf, 2, Leaf, 1), 1) == Some(Node(Node(Leaf, 1, Leaf, 1), 2, Leaf, 2))
    ensures InsertNode(Node(Node(Leaf, 1, Leaf, 1), 2, Leaf, 2), 1)
         == Some(Node(Node(Leaf, 1, Node(Leaf, 1, Leaf, 1), 2), 2, Leaf, 3))
    ensures GetBalance(Node(Node(Leaf, 1, Node(Leaf, 1, Leaf, 1), 2), 2, Leaf, 3)) == 2
  {
  }

  /** searchNode on an ordered tree finds a node exactly when the value is held. */
  lemma SearchFinds(t: Tree, v: int)
    requires BinaryTree.IsOrdered(ToTree(t))
    ensures SearchNode(t, v).Some? <==> v in Elems(t)
  {
    SearchContains(t, v);
    BinaryTree.ContainsElems(ToTree(t), v);
  }

  lemma {:induction false} SearchContains(t: Tree, v: int)
    requires BinaryTree.IsOrdered(ToTree(t))
    ensures SearchNode(t, v).Some? <==> BinaryTree.Contains(ToTree(t), v)
  {
    if t.Node? && t.value != v {
      if BinaryTree.Contains(ToTree(t), v) {
        BinaryTree.OrderedStep(ToTree(t), v);
      }
      if v < t.value {
        SearchContains(t.left, v);
      } else {
        SearchContains(t.right, v);
      }
    }
  }

  /** The AVLTree class: its root, replaced by each insert. */
  class AvlTree {
    var root: Tree

    constructor()
      ensures root == Leaf
    {
      root := Leaf;
    }

    /** insert(value); thrown stands for the exception a rotation on a missing child raises. */
    method Insert(value: int) returns (thrown: bool)
      modifies this
      ensures thrown <==> InsertNode(old(root), value).None?
      ensures !thrown ==> root == InsertNode(old(root), value).value
      ensures thrown ==> root == ThrownTree(old(root), value)
      ensures thrown ==> Elems(root) == Elems(old(root)) + multiset{value}
      ensures IsAvl(old(root)) && value !in Elems(old(root)) ==>
        !thrown && IsAvl(root) && Elems(root) == Elems(old(root)) + multiset{value}
    {
      if IsAvl(root) && value !in Elems(root) {
        InsertAvl(root, value);
      }
      match InsertNode(root, value)
      case None =>
        ThrownElems(root, value);
        root := ThrownTree(root, value);
        thrown := true;
      case Some(r) =>
        root := r;
        thrown := false;
    }

    /** search(value): the node holding value, found exactly when value is held by an ordered tree. */
    method Search(value: int) returns (node: Option<Tree>)
      ensures node == SearchNode(root, value)
      ensures node.Some? ==> node.value.Node? && node.value.value == value
      ensures BinaryTree.IsOrdered(ToTree(root)) ==> (node.Some? <==> value in Elems(root))
    {
      if BinaryTree.IsOrdered(ToTree(root)) {
        SearchFinds(root, value);
      }
      node := SearchNode(root, value);
    }
  }

  /** The trees the recursive-solution test builds by inserting 40, 20, 10, 25, 30, 22. */
  lemma FixtureTrees()
    ensures InsertNode(Leaf, 40) == Some(Node(Leaf, 40, Leaf, 1))
    ensures InsertNode(Node(Leaf, 40, Leaf, 1), 20) == Some(Node(Node(Leaf, 20, Leaf, 1), 40, Leaf, 2))
    ensures InsertNode(Node(Node(Leaf, 20, Leaf, 1), 40, Leaf, 2), 10)
         == Some(Node(Node(Leaf, 10, Leaf, 1), 20, Node(Leaf, 40, Leaf, 1), 2))
    ensures InsertNode(Node(Node(Leaf, 10, Leaf, 1), 20, Node(Leaf, 40, Leaf, 1), 2), 25)
         == Some(Node(Node(Leaf, 10, Leaf, 1), 20, Node(Node(Leaf, 25, Leaf, 1), 40, Leaf, 2), 3))
    ensures InsertNode(Node(Node(Leaf, 10, Leaf, 1), 20, Node(Node(Leaf, 25, Leaf, 1), 40, Leaf, 2), 3), 30)
         == Some(Node(Node(Leaf, 10, Leaf, 1), 20, Node(Node(Leaf, 25, Leaf, 1), 30, Node(Leaf, 40, Leaf, 1), 2), 3))
    ensures InsertNode(Node(Node(Leaf, 10, Leaf, 1), 20, Node(Node(Leaf, 25, Leaf, 1), 30, Node(Leaf, 40, Leaf, 1), 2), 3), 22)
         == Some(Node(Node(Node(Leaf, 10, Leaf, 1), 20, Node(Leaf, 22, Leaf, 1), 2), 25,
                      Node(Leaf, 30, Node(Leaf, 40, Leaf, 1), 2), 3))
  {
  }

  /** Where searchNode finds 25, 22 and 30 in the tree the test builds. */
  lemma FixtureSearches(t: Tree)
    requires t == Node(Node(Node(Leaf, 10, Leaf, 1), 20, Node(Leaf, 22, Leaf, 1), 2), 25,
                       Node(Leaf, 30, Node(Leaf, 40, Leaf, 1), 2), 3)
    ensures SearchNode(t, 25) == Some(t)
    ensures SearchNode(t, 22) == Some(Node(Leaf, 22, Leaf, 1))
    ensures SearchNode(t, 30) == Some(Node(Leaf, 30, Node(Leaf, 40, Leaf, 1), 2))
  {
  }

  /** The recursive-solution test: six inserts, then 25, 22 and 30 are found. */
  method InsertSearchFixture() returns (f25: Option<Tree>, f22: Option<Tree>, f30: Option<Tree>)
    ensures f25.Some? && f25.value.Node? && f25.value.value == 25
    ensures f22.Some? && f22.value.Node? && f22.value.value == 22
    ensures f30.Some? && f30.value.Node? && f30.value.value == 30
  {
    FixtureTrees();
    var tree := new AvlTree();
    var thrown := tree.Insert(40);
    assert tree.root == Node(Leaf, 40, Leaf, 1);
    thrown := tree.Insert(20);
    assert tree.root == Node(Node(Leaf, 20, Leaf, 1), 40, Leaf, 2);
    thrown := tree.Insert(10);
    assert tree.root == Node(Node(Leaf, 10, Leaf, 1), 20, Node(Leaf, 40, Leaf, 1), 2);
    thrown := tree.Insert(25);
    assert tree.root == Node(Node(Leaf, 10, Leaf, 1), 20, Node(Node(Leaf, 25, Leaf, 1), 40, Leaf, 2), 3);
    thrown := tree.Insert(30);
    assert tree.root == Node(Node(Leaf, 10, Leaf, 1), 20, Node(Node(Leaf, 25, Leaf, 1), 30, Node(Leaf, 40, Leaf, 1), 2), 3);
    thrown := tree.Insert(22);
    FixtureSearches(tree.root);
    f25 := tree.Search(25);
    f22 := tree.Search(22);
    f30 := tree.Search(30);
  }
}
