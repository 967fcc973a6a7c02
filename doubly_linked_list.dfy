/**
 * The doubly linked list of the catalogue: nodes with data, prev and next,
 * a head, a tail and a size. The ghost sequence nodes lists the nodes from
 * head to tail, and contents their data: Valid says the links run both
 * ways along that sequence and the ends are head and tail.
 */
module DoublyLinkedList {
  import opened Wrappers

  /** The position of the first occurrence of x. */
  function FirstIndex<T(==)>(s: seq<T>, x: T): (r: Option<nat>)
    ensures r.Some? ==> r.value < |s| && s[r.value] == x && forall j :: 0 <= j < r.value ==> s[j] != x
    ensures r.None? <==> x !in s
  {
    if s == [] then None
    else if s[0] == x then Some(0)
    else
      match FirstIndex(s[1..], x)
      case None => None
      case Some(i) => Some(i + 1)
  }

  /** s without its first occurrence of x; s itself when x does not occur. */
  function RemoveFirst<T(==)>(s: seq<T>, x: T): seq<T>
  {
    match FirstIndex(s, x)
    case None => s
    case Some(i) => s[..i] + s[i + 1..]
  }

  /** Removing the first occurrence takes exactly one x out of the multiset, and nothing when there is none. */
  lemma RemoveFirstCount<T>(s: seq<T>, x: T)
    ensures x in s ==> |RemoveFirst(s, x)| == |s| - 1 && multiset(RemoveFirst(s, x)) == multiset(s) - multiset{x}
    ensures x !in s ==> RemoveFirst(s, x) == s
  {
    if x in s {
      var i := FirstIndex(s, x).value;
      assert s == s[..i] + [x] + s[i + 1..];
    }
  }

  /** The order of the others is kept: the entries before the occurrence, then those after it. */
  lemma RemoveFirstOrder<T>(s: seq<T>, x: T)
    requires x in s
    ensures var i := FirstIndex(s, x).value;
      forall j :: 0 <= j < |s| - 1 ==> RemoveFirst(s, x)[j] == s[if j < i then j else j + 1]
  {
  }

  function Reverse<T>(s: seq<T>): (r: seq<T>)
    ensures |r| == |s| && forall i :: 0 <= i < |s| ==> r[i] == s[|s| - 1 - i]
  {
    if s == [] then [] else Reverse(s[1..]) + [s[0]]
  }

  class Node<T> {
    var data: T
    var prev: Node?<T>
    var next: Node?<T>

    constructor(data: T)
      ensures this.data == data && prev == null && next == null
    {
      this.data := data;
      prev := null;
      next := null;
    }
  }

  class List<T(==)> {
    var head: Node?<T>
    var tail: Node?<T>
    var size: int
    ghost var nodes: seq<Node<T>>
    ghost var contents: seq<T>

    /** The node at position k of ns has the data, prev and next the list order gives it. */
    ghost predicate LinkedAt(ns: seq<Node<T>>, cs: seq<T>, k: nat)
      requires k < |ns| && |cs| == |ns|
      reads ns[k]
    {
      && ns[k].data == cs[k]
      && ns[k].prev == (if k == 0 then null else ns[k - 1])
      && ns[k].next == (if k + 1 == |ns| then null else ns[k + 1])
    }

    ghost predicate Valid()
      reads this, nodes
    {
      && size == |nodes| && |contents| == |nodes|
      && head == (if nodes == [] then null else nodes[0])
      && tail == (if nodes == [] then null else nodes[|nodes| - 1])
      && (forall k :: 0 <= k < |nodes| ==> LinkedAt(nodes, contents, k))
      && (forall i, j :: 0 <= i < j < |nodes| ==> nodes[i] != nodes[j])
    }

    constructor()
      ensures Valid() && contents == []
    {
      head := null;
      tail := null;
      size := 0;
      nodes := [];
      contents := [];
    }

    /** append(data): a new node after the tail. */
    method Append(data: T)
      requires Valid()
      modifies this, nodes
      ensures Valid() && contents == old(contents) + [data] && size == old(size) + 1
    {
      ghost var n0 := nodes;
      if n0 != [] {
        assert LinkedAt(n0, contents, |n0| - 1);
      }
      var newNode := new Node(data);
      if head == null {
        head := newNode;
        tail := newNode;
      } else {
        newNode.prev := tail;
        tail.next := newNode;
        tail := newNode;
      }
      size := size + 1;
      nodes := nodes + [newNode];
      contents := contents + [data];
      forall k | 0 <= k < |nodes|
        ensures LinkedAt(nodes, contents, k)
      {
        if k < |n0| {
          assert old(LinkedAt(n0, contents, k));
        }
      }
    }

    /** prepend(data): a new node before the head. */
    method Prepend(data: T)
      requires Valid()
      modifies this, nodes
      ensures Valid() && contents == [data] + old(contents) && size == old(size) + 1
    {
      ghost var n0 := nodes;
      if n0 != [] {
        assert LinkedAt(n0, contents, 0);
      }
      var newNode := new Node(data);
      if head == null {
        head := newNode;
        tail := newNode;
      } else {
        newNode.next := head;
        head.prev := newNode;
        head := newNode;
      }
      size := size + 1;
      nodes := [newNode] + nodes;
      contents := [data] + contents;
      forall k | 0 <= k < |nodes|
        ensures LinkedAt(nodes, contents, k)
      {
        if k > 0 {
          assert old(LinkedAt(n0, contents, k - 1));
        }
      }
    }

    /**
     * delete(data): unlink the first node holding data, repairing head or
     * tail when it was at an end, and shrink the size; otherwise nothing.
     */
    method Delete(data: T)
      requires Valid()
      modifies this, nodes
      ensures Valid() && contents == RemoveFirst(old(contents), data)
      ensures size == old(size) - (if data in old(contents) then 1 else 0)
    {
      var current := head;
      ghost var i := 0;
      while current != null
        invariant 0 <= i <= |nodes| && current == (if i < |nodes| then nodes[i] else null)
        invariant forall j :: 0 <= j < i ==> contents[j] != data
        decreases |nodes| - i
      {
        assert LinkedAt(nodes, contents, i);
        if current.data == data {
          assert FirstIndex(contents, data) == Some(i);
          Unlink(current, i);
          return;
        }
        current := current.next;
        i := i + 1;
      }
    }

    /** The unlinking step of delete, for the node at position i: the head's case and the others'. */
    method Unlink(current: Node<T>, ghost i: nat)
      requires Valid() && i < |nodes| && current == nodes[i]
      modifies this, nodes
      ensures Valid() && size == old(size) - 1
      ensures nodes == old(nodes[..i] + nodes[i + 1..]) && contents == old(contents[..i] + contents[i + 1..])
    {
      if current.prev != null {
        UnlinkInner(current, i);
      } else {
        assert LinkedAt(nodes, contents, i);
        assert nodes[..i] + nodes[i + 1..] == nodes[1..] && contents[..i] + contents[i + 1..] == contents[1..];
        UnlinkHead(current);
      }
    }

    /** A node with a predecessor: the predecessor's next skips it; its successor's prev, or the tail, goes back. */
    method UnlinkInner(current: Node<T>, ghost i: nat)
      requires Valid() && i < |nodes| && current == nodes[i] && current.prev != null
      modifies this, nodes
      ensures Valid() && size == old(size) - 1
      ensures nodes == old(nodes[..i] + nodes[i + 1..]) && contents == old(contents[..i] + contents[i + 1..])
    {
      ghost var n0 := nodes;
      ghost var ns := nodes[..i] + nodes[i + 1..];
      ghost var cs := contents[..i] + contents[i + 1..];
      assert forall k :: 0 <= k < |ns| ==> ns[k] == n0[if k < i then k else k + 1];
      assert LinkedAt(n0, contents, i);
      assert i > 0 && current.prev == n0[i - 1];
      assert i + 1 < |n0| ==> current.next == n0[i + 1];
      var before := current.prev;
      var after := current.next;
      before.next := after;
      if after != null {
        after.prev := before;
      } else {
        tail := before;
      }
      size := size - 1;
      nodes := ns;
      contents := cs;
      forall k | 0 <= k < |ns|
        ensures LinkedAt(ns, cs, k)
      {
        var j := if k < i then k else k + 1;
        assert old(LinkedAt(n0, contents, j));
        assert j != i - 1 ==> n0[j] != n0[i - 1];
        assert j != i + 1 && i + 1 < |n0| ==> n0[j] != n0[i + 1];
      }
    }

    /** The head: the list starts at its successor, whose prev is cleared, or becomes empty. */
    method UnlinkHead(current: Node<T>)
      requires Valid() && nodes != [] && current == nodes[0]
      modifies this, nodes
      ensures Valid() && size == old(size) - 1
      ensures nodes == old(nodes[1..]) && contents == old(contents[1..])
    {
      assert LinkedAt(nodes, contents, 0);
      ghost var n0 := nodes;
      ghost var ns := nodes[1..];
      ghost var cs := contents[1..];
      assert 1 < |n0| ==> current.next == n0[1];
      var after := current.next;
      head := after;
      if after != null {
        after.prev := null;
      } else {
        tail := null;
      }
      size := size - 1;
      nodes := ns;
      contents := cs;
      forall k | 0 <= k < |ns|
        ensures LinkedAt(ns, cs, k)
      {
        assert old(LinkedAt(n0, contents, k + 1));
        assert k > 0 ==> n0[k + 1] != n0[1];
      }
    }

    /** find(data): the first node holding data, or null. */
    method Find(data: T) returns (r: Node?<T>)
      requires Valid()
      ensures r == null <==> data !in contents
      ensures r != null ==> r.data == data && r == nodes[FirstIndex(contents, data).value]
    {
      var current := head;
      ghost var i := 0;
      while current != null
        invariant 0 <= i <= |nodes| && current == (if i < |nodes| then nodes[i] else null)
        invariant forall j :: 0 <= j < i ==> contents[j] != data
        decreases |nodes| - i
      {
        assert LinkedAt(nodes, contents, i);
        if current.data == data {
          assert FirstIndex(contents, data) == Some(i);
          return current;
        }
        current := current.next;
        i := i + 1;
      }
      return null;
    }

    /** The walk of printForward: the data from head to tail along next. */
    method Forward() returns (result: seq<T>)
      requires Valid()
      ensures result == contents
    {
      result := [];
      var current := head;
      ghost var i := 0;
      while current != null
        invariant 0 <= i <= |nodes| && current == (if i < |nodes| then nodes[i] else null)
        invariant result == contents[..i]
        decreases |nodes| - i
      {
        assert LinkedAt(nodes, contents, i);
        assert contents[..i + 1] == contents[..i] + [current.data];
        result := result + [current.data];
        current := current.next;
        i := i + 1;
      }
      assert contents[..i] == contents;
    }

    /** The walk of printBackward: the data from tail to head along prev, the reverse of the forward walk. */
    method Backward() returns (result: seq<T>)
      requires Valid()
      ensures result == Reverse(contents)
    {
      result := [];
      var current := tail;
      ghost var i := |nodes|;
      while current != null
        invariant 0 <= i <= |nodes| && current == (if i > 0 then nodes[i - 1] else null)
        invariant |result| == |nodes| - i
        invariant forall k :: 0 <= k < |result| ==> result[k] == contents[|nodes| - 1 - k]
        decreases i
      {
        assert LinkedAt(nodes, contents, i - 1);
        result := result + [current.data];
        current := current.prev;
        i := i - 1;
      }
    }
  }
}
