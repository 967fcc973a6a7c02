/**
 * The iterative red-black tree of the catalogue. Insertion walks down from
 * the root as in a search tree (equal keys go right), hangs a red node where
 * the walk ends, then runs the fixup loop: while the current node's parent
 * is red, either recolour parent, uncle and grandparent and move up two
 * levels (red uncle), or rotate once or twice and stop (black or missing
 * uncle). Finally the root is coloured black.
 *
 * Parent links are replaced by a zipper: the current node `z` is a
 * subtree and `path` lists, from z's parent up to the root, each ancestor's
 * colour, value and other child.
 */
module RedBlack {
  import opened Wrappers
  import BinaryTree
  import BinaryTreeSearch

  datatype Color = Red | Black

  datatype Tree = Nil | Node(color: Color, left: Tree, value: int, right: Tree)

  /** One ancestor as seen from below: we are its left child, or its right child. */
  datatype Frame =
    | LeftOf(color: Color, value: int, sibling: Tree)
    | RightOf(color: Color, sibling: Tree, value: int)

  /** The keys and shape without the colours. */
  function ToTree(t: Tree): BinaryTree.Tree
  {
    match t
    case Nil => BinaryTree.Nil
    case Node(_, l, v, r) => BinaryTree.Node(ToTree(l), v, ToTree(r))
  }

  function InOrder(t: Tree): seq<int>
  {
    BinaryTree.InOrder(ToTree(t))
  }

  function Elems(t: Tree): multiset<int>
  {
    BinaryTree.Elems(ToTree(t))
  }

  lemma InOrderNode(t: Tree)
    requires t.Node?
    ensures InOrder(t) == InOrder(t.left) + [t.value] + InOrder(t.right)
  {
  }

  predicate IsRed(t: Tree)
  {
    t.Node? && t.color == Red
  }

  /** No red node has a red child. */
  predicate NoRedRed(t: Tree)
  {
    match t
    case Nil => true
    case Node(c, l, _, r) => (c == Red ==> !IsRed(l) && !IsRed(r)) && NoRedRed(l) && NoRedRed(r)
  }

  /** The ancestor's subtree once the hole is filled with t. */
  function Fill(f: Frame, t: Tree): Tree
  {
    match f
    case LeftOf(c, v, s) => Node(c, t, v, s)
    case RightOf(c, s, v) => Node(c, s, v, t)
  }

  /** The whole tree around the focus t. */
  function Plug(t: Tree, path: seq<Frame>): Tree
    decreases |path|
  {
    if path == [] then t else Plug(Fill(path[0], t), path[1..])
  }

  lemma PlugCons(t: Tree, f: Frame, path: seq<Frame>)
    ensures Plug(t, [f] + path) == Plug(Fill(f, t), path)
  {
    assert ([f] + path)[1..] == path;
  }

  /** Replacing the focus by a subtree with the same listing keeps the listing of the whole tree. */
  lemma {:induction false} PlugInOrder(t1: Tree, t2: Tree, path: seq<Frame>)
    requires InOrder(t1) == InOrder(t2)
    ensures InOrder(Plug(t1, path)) == InOrder(Plug(t2, path))
    decreases |path|
  {
    if path != [] {
      assert InOrder(Fill(path[0], t1)) == InOrder(Fill(path[0], t2));
      PlugInOrder(Fill(path[0], t1), Fill(path[0], t2), path[1..]);
    }
  }

  /** leftRotate(x): x's right child takes x's place; a missing right child leaves x as it is. */
  function LeftRotate(x: Tree): (r: Tree)
    requires x.Node?
    ensures InOrder(r) == InOrder(x)
  {
    if x.right.Nil? then x
    else
      var y := x.right;
      var x2 := Node(x.color, x.left, x.value, y.left);
      InOrderNode(x);
      InOrderNode(y);
      InOrderNode(x2);
      InOrderNode(Node(y.color, x2, y.value, y.right));
      Node(y.color, x2, y.value, y.right)
  }

  /** rightRotate(y): y's left child takes y's place; a missing left child leaves y as it is. */
  function RightRotate(y: Tree): (r: Tree)
    requires y.Node?
    ensures InOrder(r) == InOrder(y)
  {
    if y.left.Nil? then y
    else
      var x := y.left;
      var y2 := Node(y.color, x.right, y.value, y.right);
      InOrderNode(x);
      InOrderNode(y);
      InOrderNode(y2);
      InOrderNode(Node(x.color, x.left, x.value, y2));
      Node(x.color, x.left, x.value, y2)
  }

  /** Search-tree insertion of a red node, the tree insert builds before the fixup. */
  function LeafInsert(t: Tree, v: int): Tree
  {
    match t
    case Nil => Node(Red, Nil, v, Nil)
    case Node(c, l, x, r) =>
      if v < x then Node(c, LeafInsert(l, v), x, r) else Node(c, l, x, LeafInsert(r, v))
  }

  /** Without its colours, the red leaf insertion is the search-tree insertion. */
  lemma {:induction false} LeafInsertProjects(t: Tree, v: int)
    ensures ToTree(LeafInsert(t, v)) == BinaryTreeSearch.Insert(ToTree(t), v)
  {
    if t.Node? {
      LeafInsertProjects(t.left, v);
      LeafInsertProjects(t.right, v);
    }
  }

  /** Every ancestor on the path is one the search walk for v passes through. */
  predicate Guides(path: seq<Frame>, v: int)
  {
    forall i :: 0 <= i < |path| ==>
      (path[i].LeftOf? ==> v < path[i].value) && (path[i].RightOf? ==> path[i].value <= v)
  }

  /** Inserting at the focus of a path the walk for v follows is inserting into the whole tree. */
  lemma {:induction false} PlugInsert(x: Tree, path: seq<Frame>, v: int)
    requires Guides(path, v)
    ensures Plug(LeafInsert(x, v), path) == LeafInsert(Plug(x, path), v)
    decreases |path|
  {
    if path != [] {
      assert Fill(path[0], LeafInsert(x, v)) == LeafInsert(Fill(path[0], x), v);
      assert Guides(path[1..], v) by {
        forall i | 0 <= i < |path[1..]|
          ensures (path[1..][i].LeftOf? ==> v < path[1..][i].value) && (path[1..][i].RightOf? ==> path[1..][i].value <= v)
        {
          assert path[1..][i] == path[i + 1];
        }
      }
      PlugInsert(Fill(path[0], x), path[1..], v);
    }
  }

  /**
   * The red-black conditions around the focus during the fixup: the focus is
   * red and free of red-red pairs, every sibling on the path is too, and the
   * only red node that may have a red child is the focus's parent.
   */
  ghost predicate PathOk(path: seq<Frame>)
  {
    forall i :: 0 <= i < |path| ==>
      NoRedRed(path[i].sibling) &&
      (path[i].color == Red ==> !IsRed(path[i].sibling)) &&
      (i + 1 < |path| && path[i].color == Red ==> path[i + 1].color == Black)
  }

  /** The topmost frame, the root, is black. */
  predicate RootBlack(path: seq<Frame>)
  {
    path != [] ==> path[|path| - 1].color == Black
  }

  ghost predicate FixState(z: Tree, path: seq<Frame>)
  {
    IsRed(z) && NoRedRed(z) && PathOk(path)
  }

  /** Around a focus that is not red below a red parent, the whole tree has no red-red pair. */
  lemma {:induction false} PlugNoRedRed(t: Tree, path: seq<Frame>)
    requires NoRedRed(t) && PathOk(path)
    requires path != [] && path[0].color == Red ==> !IsRed(t)
    ensures NoRedRed(Plug(t, path))
    decreases |path|
  {
    if path != [] {
      var rest := path[1..];
      assert PathOk(rest) by {
        forall i | 0 <= i < |rest|
          ensures NoRedRed(rest[i].sibling) && (rest[i].color == Red ==> !IsRed(rest[i].sibling)) &&
                  (i + 1 < |rest| && rest[i].color == Red ==> rest[i + 1].color == Black)
        {
          assert rest[i] == path[i + 1];
          if i + 1 < |rest| {
            assert rest[i + 1] == path[i + 2];
          }
        }
      }
      assert 0 < |path| ==> NoRedRed(path[0].sibling) && (path[0].color == Red ==> !IsRed(path[0].sibling));
      if |path| > 1 {
        assert path[0].color == Red ==> path[1].color == Black;
        assert rest[0] == path[1];
      }
      PlugNoRedRed(Fill(path[0], t), rest);
    }
  }

  lemma PathOkDrop(path: seq<Frame>, k: nat)
    requires PathOk(path) && k <= |path|
    ensures PathOk(path[k..])
  {
    var rest := path[k..];
    forall i | 0 <= i < |rest|
      ensures NoRedRed(rest[i].sibling) && (rest[i].color == Red ==> !IsRed(rest[i].sibling)) &&
              (i + 1 < |rest| && rest[i].color == Red ==> rest[i + 1].color == Black)
    {
      assert rest[i] == path[k + i];
      if i + 1 < |rest| {
        assert rest[i + 1] == path[k + i + 1];
      }
    }
  }

  /** A frame over a sound sibling may go on top of a sound path, if a red one has neither a red sibling nor a red parent. */
  lemma PathOkCons(f: Frame, path: seq<Frame>)
    requires PathOk(path) && NoRedRed(f.sibling)
    requires f.color == Red ==> !IsRed(f.sibling) && (path != [] ==> path[0].color == Black)
    ensures PathOk([f] + path)
  {
    var p := [f] + path;
    forall i | 0 <= i < |p|
      ensures NoRedRed(p[i].sibling) && (p[i].color == Red ==> !IsRed(p[i].sibling)) &&
              (i + 1 < |p| && p[i].color == Red ==> p[i + 1].color == Black)
    {
      if i > 0 {
        assert p[i] == path[i - 1];
        if i + 1 < |p| {
          assert p[i + 1] == path[i];
        }
      }
    }
  }

  /**
   * One iteration of insertFixup, for a focus whose parent is red and has a
   * parent: a red uncle is recoloured with the parent and the focus moves to
   * the grandparent; otherwise a triangle is first turned into a line by
   * rotating at the parent, then the parent is blackened, the grandparent
   * reddened and rotated, and the focus keeps its node below a black parent.
   */
  function FixStep(z: Tree, path: seq<Frame>): (r: (Tree, seq<Frame>))
    requires z.Node? && |path| >= 2
    ensures r.0.Node? && |r.1| < |path|
  {
    var p, g := path[0], path[1];
    var uncle := g.sibling;
    if g.LeftOf? then
      if IsRed(uncle) then
        (Node(Red, Fill(p.(color := Black), z), g.value, uncle.(color := Black)), path[2..])
      else
        var (z1, p1) :=
          if p.RightOf? then
            var r := LeftRotate(Fill(p, z));
            (r.left, LeftOf(r.color, r.value, r.right))
          else (z, p);
        var top := RightRotate(Node(Red, Fill(p1.(color := Black), z1), g.value, uncle));
        (top.left, [LeftOf(top.color, top.value, top.right)] + path[2..])
    else
      if IsRed(uncle) then
        (Node(Red, uncle.(color := Black), g.value, Fill(p.(color := Black), z)), path[2..])
      else
        var (z1, p1) :=
          if p.LeftOf? then
            var r := RightRotate(Fill(p, z));
            (r.right, RightOf(r.color, r.left, r.value))
          else (z, p);
        var top := LeftRotate(Node(Red, uncle, g.value, Fill(p1.(color := Black), z1)));
        (top.right, [RightOf(top.color, top.left, top.value)] + path[2..])
  }

  lemma PlugTwo(z: Tree, path: seq<Frame>)
    requires |path| >= 2
    ensures Plug(z, path) == Plug(Fill(path[1], Fill(path[0], z)), path[2..])
  {
    assert path[1..][1..] == path[2..];
  }

  /** A fixup step changes colours and shape only: the in-order listing of the whole tree stays. */
  lemma FixStepInOrder(z: Tree, path: seq<Frame>)
    requires z.Node? && |path| >= 2
    ensures InOrder(Plug(FixStep(z, path).0, FixStep(z, path).1)) == InOrder(Plug(z, path))
  {
    var p, g := path[0], path[1];
    var uncle := g.sibling;
    var r := FixStep(z, path);
    var t := Fill(g, Fill(p, z));
    PlugTwo(z, path);
    InOrderNode(t);
    InOrderNode(Fill(p, z));
    if IsRed(uncle) {
      if g.LeftOf? {
        assert r.0 == Node(Red, Fill(p.(color := Black), z), g.value, uncle.(color := Black));
      } else {
        assert r.0 == Node(Red, uncle.(color := Black), g.value, Fill(p.(color := Black), z));
      }
      InOrderNode(r.0);
      InOrderNode(Fill(p.(color := Black), z));
      PlugInOrder(r.0, t, path[2..]);
    } else if g.LeftOf? {
      var (z1, p1) :=
        if p.RightOf? then
          var q := LeftRotate(Fill(p, z));
          (q.left, LeftOf(q.color, q.value, q.right))
        else (z, p);
      assert InOrder(Fill(p1, z1)) == InOrder(Fill(p, z)) by {
        if p.RightOf? {
          assert Fill(p1, z1) == LeftRotate(Fill(p, z));
        }
      }
      var b := Fill(p1.(color := Black), z1);
      var gt := Node(Red, b, g.value, uncle);
      InOrderNode(b);
      InOrderNode(Fill(p1, z1));
      InOrderNode(gt);
      var top := RightRotate(gt);
      var f := LeftOf(top.color, top.value, top.right);
      assert r == (top.left, [f] + path[2..]);
      PlugCons(top.left, f, path[2..]);
      assert Fill(f, top.left) == top;
      PlugInOrder(top, t, path[2..]);
    } else {
      var (z1, p1) :=
        if p.LeftOf? then
          var q := RightRotate(Fill(p, z));
          (q.right, RightOf(q.color, q.left, q.value))
        else (z, p);
      assert InOrder(Fill(p1, z1)) == InOrder(Fill(p, z)) by {
        if p.LeftOf? {
          assert Fill(p1, z1) == RightRotate(Fill(p, z));
        }
      }
      var b := Fill(p1.(color := Black), z1);
      var gt := Node(Red, uncle, g.value, b);
      InOrderNode(b);
      InOrderNode(Fill(p1, z1));
      InOrderNode(gt);
      var top := LeftRotate(gt);
      var f := RightOf(top.color, top.left, top.value);
      assert r == (top.right, [f] + path[2..]);
      PlugCons(top.right, f, path[2..]);
      assert Fill(f, top.right) == top;
      PlugInOrder(top, t, path[2..]);
    }
  }

  /** A fixup step keeps the root frame black; a rotation case leaves the focus below a black parent. */
  lemma FixStepColors(z: Tree, path: seq<Frame>)
    requires z.Node? && |path| >= 2
    ensures RootBlack(path) ==> RootBlack(FixStep(z, path).1)
    ensures !IsRed(path[1].sibling) ==> FixStep(z, path).1 != [] && FixStep(z, path).1[0].color == Black
  {
    var r := FixStep(z, path);
    if IsRed(path[1].sibling) {
      assert r.1 == path[2..];
    } else {
      assert r.1[0].color == Black;
      if |path| > 2 {
        assert r.1[|r.1| - 1] == path[|path| - 1];
      }
    }
  }

  /** A fixup step below a red parent keeps the focus red and every other red-black condition. */
  lemma FixStepRb(z: Tree, path: seq<Frame>)
    requires |path| >= 2 && FixState(z, path) && path[0].color == Red
    ensures FixState(FixStep(z, path).0, FixStep(z, path).1)
  {
    var p, g := path[0], path[1];
    var uncle := g.sibling;
    var r := FixStep(z, path);
    assert NoRedRed(p.sibling) && !IsRed(p.sibling);
    assert NoRedRed(uncle) && g.color == Black;
    PathOkDrop(path, 2);
    if IsRed(uncle) {
    } else if g.LeftOf? {
      if p.RightOf? {
        var q := LeftRotate(Fill(p, z));
        assert r.0 == q.left;
        var f := LeftOf(Black, q.value, Node(Red, q.right, g.value, uncle));
        assert r.1 == [f] + path[2..];
        PathOkCons(f, path[2..]);
      } else {
        var f := LeftOf(Black, p.value, Node(Red, p.sibling, g.value, uncle));
        assert r.1 == [f] + path[2..];
        PathOkCons(f, path[2..]);
      }
    } else {
      if p.LeftOf? {
        var q := RightRotate(Fill(p, z));
        assert r.0 == q.right;
        var f := RightOf(Black, Node(Red, uncle, g.value, q.left), q.value);
        assert r.1 == [f] + path[2..];
        PathOkCons(f, path[2..]);
      } else {
        var f := RightOf(Black, Node(Red, uncle, g.value, p.sibling), p.value);
        assert r.1 == [f] + path[2..];
        PathOkCons(f, path[2..]);
      }
    }
  }

  /** The parent of a red focus is never the root, so the grandparent exists. */
  lemma GrandparentExists(path: seq<Frame>)
    requires RootBlack(path) && path != [] && path[0].color == Red
    ensures |path| >= 2
  {
  }

  lemma PlugNode(z: Tree, path: seq<Frame>)
    requires z.Node?
    ensures Plug(z, path).Node?
    decreases |path|
  {
    if path != [] {
      PlugNode(Fill(path[0], z), path[1..]);
    }
  }

  /**
   * The walk of insert from the root down to the empty place where value
   * goes (smaller keys left, others right), recording every node passed.
   */
  method Descend(root: Tree, value: int) returns (path: seq<Frame>)
    ensures Plug(Nil, path) == root && Guides(path, value)
    ensures root.Node? <==> path != []
    ensures root.Node? ==> path[|path| - 1].color == root.color
    ensures NoRedRed(root) ==> PathOk(path)
  {
    var x := root;
    path := [];
    while x.Node?
      invariant Plug(x, path) == root && Guides(path, value)
      invariant path == [] ==> x == root
      invariant path != [] ==> root.Node? && path[|path| - 1].color == root.color
      invariant NoRedRed(root) ==> PathOk(path) && NoRedRed(x) && (path != [] && path[0].color == Red ==> !IsRed(x))
      decreases x
    {
      var f := if value < x.value then LeftOf(x.color, x.value, x.right) else RightOf(x.color, x.left, x.value);
      if NoRedRed(root) {
        PathOkCons(f, path);
      }
      PlugCons(if value < x.value then x.left else x.right, f, path);
      assert Fill(f, if value < x.value then x.left else x.right) == x;
      x, path := if value < x.value then x.left else x.right, [f] + path;
    }
  }

  /**
   * insertFixup: while the focus's parent is red, one fixup step; then the
   * root is coloured black. The listing of the tree is unchanged, and a tree
   * whose only red-red pair is a red focus below a red parent comes out with
   * none.
   */
  method InsertFixup(z0: Tree, path0: seq<Frame>) returns (r: Tree)
    requires z0.Node? && RootBlack(path0)
    ensures r.Node? && r.color == Black
    ensures InOrder(r) == InOrder(Plug(z0, path0))
    ensures FixState(z0, path0) ==> NoRedRed(r)
  {
    var z, path := z0, path0;
    while path != [] && path[0].color == Red
      invariant z.Node? && RootBlack(path)
      invariant InOrder(Plug(z, path)) == InOrder(Plug(z0, path0))
      invariant FixState(z0, path0) ==> FixState(z, path)
      decreases |path|
    {
      GrandparentExists(path);
      FixStepInOrder(z, path);
      FixStepColors(z, path);
      if FixState(z0, path0) {
        FixStepRb(z, path);
      }
      z, path := FixStep(z, path).0, FixStep(z, path).1;
    }
    var t := Plug(z, path);
    PlugNode(z, path);
    if FixState(z0, path0) {
      PlugNoRedRed(z, path);
    }
    r := t.(color := Black);
    InOrderNode(r);
    InOrderNode(t);
  }

  /** The class invariant: a black or empty root, no red node with a red child, and the search order. */
  predicate Valid(t: Tree)
  {
    !IsRed(t) && NoRedRed(t) && BinaryTree.IsOrdered(ToTree(t))
  }

  class RedBlackTree {
    var root: Tree

    constructor()
      ensures root == Nil
    {
      root := Nil;
    }

    /**
     * insert(value): the walk, a red leaf where it ends, then the fixup. The
     * root ends black, the multiset of values gains value, and the red-black
     * conditions and the order are kept.
     */
    method Insert(value: int)
      requires Valid(root)
      modifies this
      ensures Valid(root) && root.Node? && root.color == Black
      ensures Elems(root) == old(Elems(root)) + multiset{value}
    {
      var path := Descend(root, value);
      var z := Node(Red, Nil, value, Nil);
      PlugInsert(Nil, path, value);
      assert LeafInsert(Nil, value) == z;
      assert FixState(z, path);
      var r := InsertFixup(z, path);
      InsertListing(root, value, r);
      root := r;
    }

    /** search(value): the first node on the walk that holds value. */
    method Search(value: int) returns (node: Option<Tree>)
      ensures node.Some? ==> node.value.Node? && node.value.value == value && value in Elems(root)
      ensures BinaryTree.IsOrdered(ToTree(root)) ==> (node.Some? <==> value in Elems(root))
    {
      ContainsElems(root, value);
      var current := root;
      while current.Node?
        invariant BinaryTree.Contains(ToTree(current), value) ==> BinaryTree.Contains(ToTree(root), value)
        invariant BinaryTree.IsOrdered(ToTree(root)) ==>
          BinaryTree.IsOrdered(ToTree(current)) && (BinaryTree.Contains(ToTree(root), value) ==> BinaryTree.Contains(ToTree(current), value))
        decreases current
      {
        if value == current.value {
          return Some(current);
        }
        if BinaryTree.IsOrdered(ToTree(root)) && BinaryTree.Contains(ToTree(root), value) {
          BinaryTree.OrderedStep(ToTree(current), value);
        }
        current := if value < current.value then current.left else current.right;
      }
      return None;
    }
  }

  /** A tree whose listing is that of the red leaf insertion holds one more value and keeps the order. */
  lemma InsertListing(t: Tree, v: int, r: Tree)
    requires InOrder(r) == InOrder(LeafInsert(t, v))
    ensures Elems(r) == Elems(t) + multiset{v}
    ensures BinaryTree.IsOrdered(ToTree(t)) ==> BinaryTree.IsOrdered(ToTree(r))
  {
    LeafInsertProjects(t, v);
    BinaryTree.InOrderElems(ToTree(r));
    BinaryTree.InOrderElems(ToTree(LeafInsert(t, v)));
    BinaryTree.OrderedSorted(ToTree(r));
    BinaryTree.OrderedSorted(ToTree(LeafInsert(t, v)));
    if BinaryTree.IsOrdered(ToTree(t)) {
      BinaryTreeSearch.InsertOrdered(ToTree(t), v);
    }
  }

  lemma ContainsElems(t: Tree, v: int)
    ensures BinaryTree.Contains(ToTree(t), v) <==> v in Elems(t)
  {
    BinaryTree.ContainsElems(ToTree(t), v);
  }
}
