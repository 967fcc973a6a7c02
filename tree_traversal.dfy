/**
 * The iterative traversals of the catalogue: in-order with one explicit
 * stack and a cursor, pre-order with one stack, and post-order by a
 * root-right-left pass with a stack whose output is then read backwards.
 * Each is proved to give the recursive listing of BinaryTree.
 */
module TreeTraversal {
  import opened BinaryTree

  /** Every entry is a node: nil is never pushed. */
  predicate AllNodes(stack: seq<Tree>)
  {
    forall i :: 0 <= i < |stack| ==> stack[i].Node?
  }

  /**
   * What the in-order walk still owes for a stack (top last): each saved
   * node's value followed by its right subtree, from the top down.
   */
  function InOrderOwed(stack: seq<Tree>): seq<int>
  {
    if stack == [] then []
    else
      var top := stack[|stack| - 1];
      (if top.Node? then [top.val] + InOrder(top.right) else []) + InOrderOwed(stack[..|stack| - 1])
  }

  /** Regrouping a listing around one value. */
  lemma Regroup(a: seq<int>, v: int, b: seq<int>, rest: seq<int>)
    ensures (a + [v] + b) + rest == a + ([v] + b + rest)
  {
  }

  /** Emitting the first value of what is owed. */
  lemma Emit(out: seq<int>, v: int, a: seq<int>, b: seq<int>, rest: seq<int>)
    ensures out + (([v] + a + b) + rest) == (out + [v]) + (a + (b + rest))
    ensures out + ([v] + a + rest) == (out + [v]) + (a + rest)
  {
  }

  lemma InOrderOwedPush(stack: seq<Tree>, t: Tree)
    requires t.Node?
    ensures InOrderOwed(stack + [t]) == [t.val] + InOrder(t.right) + InOrderOwed(stack)
  {
    assert (stack + [t])[..|stack|] == stack;
  }

  /** The inner loop of InOrderTraversal: push current and its left spine. */
  method PushLeftSpine(stack0: seq<Tree>, current0: Tree) returns (stack: seq<Tree>)
    requires AllNodes(stack0)
    ensures AllNodes(stack) && (current0.Node? ==> stack != [])
    ensures stack0 != [] ==> stack != []
    ensures InOrderOwed(stack) == InOrder(current0) + InOrderOwed(stack0)
  {
    stack := stack0;
    var current := current0;
    while current.Node?
      invariant AllNodes(stack) && (current0.Node? ==> stack != [] || current.Node?)
      invariant stack0 != [] ==> stack != []
      invariant InOrder(current) + InOrderOwed(stack) == InOrder(current0) + InOrderOwed(stack0)
      decreases current
    {
      InOrderOwedPush(stack, current);
      Regroup(InOrder(current.left), current.val, InOrder(current.right), InOrderOwed(stack));
      stack := stack + [current];
      current := current.left;
    }
  }

  /** Go InOrderTraversal: push the left spine, pop, emit, continue with the right subtree. */
  method InOrderTraversal(root: Tree) returns (result: seq<int>)
    ensures result == InOrder(root)
  {
    result := [];
    var stack: seq<Tree> := [];
    var current := root;
    while |stack| > 0 || current.Node?
      invariant AllNodes(stack)
      invariant result + (InOrder(current) + InOrderOwed(stack)) == InOrder(root)
      decreases |InOrder(root)| - |result|
    {
      stack := PushLeftSpine(stack, current);
      var top := stack[|stack| - 1];
      assert stack[..|stack| - 1] + [top] == stack;
      stack := stack[..|stack| - 1];
      InOrderOwedPush(stack, top);
      Emit(result, top.val, InOrder(top.right), [], InOrderOwed(stack));
      result := result + [top.val];
      current := top.right;
    }
  }

  /** The pre-order listings of the stack's trees, from the top down. */
  function PreOrderOwed(stack: seq<Tree>): seq<int>
  {
    if stack == [] then [] else PreOrder(stack[|stack| - 1]) + PreOrderOwed(stack[..|stack| - 1])
  }

  lemma PreOrderOwedPush(stack: seq<Tree>, t: Tree)
    ensures PreOrderOwed(stack + [t]) == PreOrder(t) + PreOrderOwed(stack)
  {
    assert (stack + [t])[..|stack|] == stack;
  }

  /** Pushing a child only when it is a node owes the same as pushing it always. */
  method PushIfNode(stack: seq<Tree>, t: Tree) returns (s: seq<Tree>)
    requires AllNodes(stack)
    ensures AllNodes(s)
    ensures PreOrderOwed(s) == PreOrder(t) + PreOrderOwed(stack)
    ensures PostOwed(s) == RootRightLeft(t) + PostOwed(stack)
  {
    s := stack;
    if t.Node? {
      PreOrderOwedPush(stack, t);
      PostOwedPush(stack, t);
      s := stack + [t];
    }
  }

  /** Go PreOrderTraversal: pop, emit, push the right child, then the left child. */
  method PreOrderTraversal(root: Tree) returns (result: seq<int>)
    ensures result == PreOrder(root)
  {
    result := [];
    if root == Nil {
      return;
    }
    var stack := [root];
    PreOrderOwedPush([], root);
    while |stack| > 0
      invariant AllNodes(stack)
      invariant result + PreOrderOwed(stack) == PreOrder(root)
      decreases |PreOrder(root)| - |result|
    {
      var node := stack[|stack| - 1];
      stack := stack[..|stack| - 1];
      assert PreOrderOwed(stack + [node]) == PreOrder(node) + PreOrderOwed(stack) by {
        PreOrderOwedPush(stack, node);
      }
      Emit(result, node.val, PreOrder(node.left), PreOrder(node.right), PreOrderOwed(stack));
      result := result + [node.val];
      stack := PushIfNode(stack, node.right);
      stack := PushIfNode(stack, node.left);
    }
  }

  /** Root, right subtree, left subtree: the order the first stack of the post-order walk emits. */
  function RootRightLeft(t: Tree): seq<int>
  {
    match t
    case Nil => []
    case Node(l, v, r) => [v] + RootRightLeft(r) + RootRightLeft(l)
  }

  function PostOwed(stack: seq<Tree>): seq<int>
  {
    if stack == [] then [] else RootRightLeft(stack[|stack| - 1]) + PostOwed(stack[..|stack| - 1])
  }

  lemma PostOwedPush(stack: seq<Tree>, t: Tree)
    ensures PostOwed(stack + [t]) == RootRightLeft(t) + PostOwed(stack)
  {
    assert (stack + [t])[..|stack|] == stack;
  }

  function Reverse(s: seq<int>): (r: seq<int>)
    ensures |r| == |s|
  {
    if s == [] then [] else Reverse(s[1..]) + [s[0]]
  }

  lemma {:induction false} ReverseConcat(a: seq<int>, b: seq<int>)
    ensures Reverse(a + b) == Reverse(b) + Reverse(a)
    decreases |a|
  {
    if a == [] {
      assert a + b == b;
    } else {
      assert (a + b)[1..] == a[1..] + b;
      ReverseConcat(a[1..], b);
    }
  }

  /** Reading root-right-left backwards gives left, right, root. */
  lemma {:induction false} ReverseRootRightLeft(t: Tree)
    ensures Reverse(RootRightLeft(t)) == PostOrder(t)
  {
    if t.Node? {
      ReverseRootRightLeft(t.left);
      ReverseRootRightLeft(t.right);
      ReverseConcat([t.val] + RootRightLeft(t.right), RootRightLeft(t.left));
      ReverseConcat([t.val], RootRightLeft(t.right));
    }
  }

  /** The first stack of PostOrderTraversal: pop, emit, push the left child, then the right child. */
  method RootRightLeftPass(root: Tree) returns (output: seq<int>)
    requires root.Node?
    ensures output == RootRightLeft(root)
  {
    var stack := [root];
    output := [];
    PostOwedPush([], root);
    while |stack| > 0
      invariant AllNodes(stack)
      invariant output + PostOwed(stack) == RootRightLeft(root)
      decreases |RootRightLeft(root)| - |output|
    {
      var node := stack[|stack| - 1];
      stack := stack[..|stack| - 1];
      PostOwedPush(stack, node);
      Emit(output, node.val, RootRightLeft(node.right), RootRightLeft(node.left), PostOwed(stack));
      output := output + [node.val];
      stack := PushIfNode(stack, node.left);
      stack := PushIfNode(stack, node.right);
    }
  }

  /** The closing loop of PostOrderTraversal: output read from its last entry down. */
  method ReadBackwards(output: seq<int>) returns (result: seq<int>)
    ensures result == Reverse(output)
  {
    result := [];
    var i := |output| - 1;
    while i >= 0
      invariant -1 <= i < |output|
      invariant result == Reverse(output[i + 1..])
    {
      assert output[i..][1..] == output[i + 1..];
      result := result + [output[i]];
      i := i - 1;
    }
    assert output[0..] == output;
  }

  /** Go PostOrderTraversal: a root-right-left pass into output, then output read from its end. */
  method PostOrderTraversal(root: Tree) returns (result: seq<int>)
    ensures result == PostOrder(root)
  {
    result := [];
    if root == Nil {
      return;
    }
    var output := RootRightLeftPass(root);
    result := ReadBackwards(output);
    ReverseRootRightLeft(root);
  }

  /** Every traversal lists each node once: its length is the node count. */
  lemma {:induction false} TraversalLengths(t: Tree)
    ensures |InOrder(t)| == Size(t) && |PreOrder(t)| == Size(t) && |PostOrder(t)| == Size(t)
  {
    if t.Node? {
      TraversalLengths(t.left);
      TraversalLengths(t.right);
    }
  }
}
