/**
 * The bounded queue of the catalogue: singly linked nodes from front to
 * rear, a count and a capacity that is unbounded unless given. The ghost
 * sequence nodes lists the nodes from front to rear, and contents their
 * data.
 */
module LinkedQueue {
  import opened Wrappers

  class Node<T> {
    var data: T
    var next: Node?<T>

    constructor(data: T)
      ensures this.data == data && next == null
    {
      this.data := data;
      next := null;
    }
  }

  class Queue<T> {
    var front: Node?<T>
    var rear: Node?<T>
    var count: int
    /** None stands for the default capacity, float('inf'). */
    const capacity: Option<nat>
    ghost var nodes: seq<Node<T>>
    ghost var contents: seq<T>

    /** The node at position k of ns holds the k-th item and links to the next one, the last to nothing. */
    ghost predicate LinkedAt(ns: seq<Node<T>>, cs: seq<T>, k: nat)
      requires k < |ns| && |cs| == |ns|
      reads ns[k]
    {
      ns[k].data == cs[k] && ns[k].next == (if k + 1 == |ns| then null else ns[k + 1])
    }

    ghost predicate Valid()
      reads this, nodes
    {
      && count == |nodes| && |contents| == |nodes|
      && (capacity.Some? ==> count <= capacity.value)
      && front == (if nodes == [] then null else nodes[0])
      && rear == (if nodes == [] then null else nodes[|nodes| - 1])
      && (forall k :: 0 <= k < |nodes| ==> LinkedAt(nodes, contents, k))
      && (forall i, j :: 0 <= i < j < |nodes| ==> nodes[i] != nodes[j])
    }

    constructor(capacity: Option<nat>)
      ensures Valid() && contents == [] && this.capacity == capacity
    {
      front := null;
      rear := null;
      count := 0;
      this.capacity := capacity;
      nodes := [];
      contents := [];
    }

    /** enqueue(item): "Queue is full" once count reaches the capacity; otherwise a new rear node. */
    method Enqueue(item: T) returns (r: Result<(), string>)
      requires Valid()
      modifies this, nodes
      ensures Valid()
      ensures old(IsFull()) ==> r == Err("Queue is full") && contents == old(contents) && count == old(count)
      ensures !old(IsFull()) ==> r.Ok? && contents == old(contents) + [item] && count == old(count) + 1
    {
      if capacity.Some? && count >= capacity.value {
        return Err("Queue is full");
      }
      ghost var n0 := nodes;
      if n0 != [] {
        assert LinkedAt(n0, contents, |n0| - 1);
      }
      var newNode := new Node(item);
      if count == 0 {
        front := newNode;
        rear := newNode;
      } else {
        rear.next := newNode;
        rear := newNode;
      }
      count := count + 1;
      nodes := nodes + [newNode];
      contents := contents + [item];
      forall k | 0 <= k < |nodes|
        ensures LinkedAt(nodes, contents, k)
      {
        if k < |n0| {
          assert old(LinkedAt(n0, contents, k));
        }
      }
      return Ok(());
    }

    /** dequeue(): None when empty; otherwise the front item, the front moving on and the rear cleared when nothing is left. */
    method Dequeue() returns (r: Option<T>)
      requires Valid()
      modifies this
      ensures Valid()
      ensures old(contents) == [] ==> r == None && contents == [] && count == 0
      ensures old(contents) != [] ==> r == Some(old(contents)[0]) && contents == old(contents)[1..] && count == old(count) - 1
    {
      if count == 0 {
        return None;
      }
      assert LinkedAt(nodes, contents, 0);
      var item := front.data;
      front := front.next;
      count := count - 1;
      nodes := nodes[1..];
      contents := contents[1..];
      if count == 0 {
        rear := null;
      }
      forall k | 0 <= k < |nodes|
        ensures LinkedAt(nodes, contents, k)
      {
        assert old(LinkedAt(nodes, contents, k + 1));
      }
      return Some(item);
    }

    /** peek(): the front item, or None when empty. */
    method Peek() returns (r: Option<T>)
      requires Valid()
      ensures contents == [] ==> r == None
      ensures contents != [] ==> r == Some(contents[0])
    {
      if count == 0 {
        return None;
      }
      assert LinkedAt(nodes, contents, 0);
      return Some(front.data);
    }

    ghost predicate IsFull()
      reads this
    {
      capacity.Some? && count >= capacity.value
    }

    method IsEmptyQueue() returns (empty: bool)
      requires Valid()
      ensures empty <==> contents == []
    {
      return count == 0;
    }

    /** is_full(): the count has reached a given capacity; never for the unbounded default. */
    method IsFullQueue() returns (full: bool)
      requires Valid()
      ensures full <==> capacity.Some? && |contents| == capacity.value
      ensures full <==> IsFull()
    {
      return capacity.Some? && count == capacity.value;
    }

    method Size() returns (n: int)
      requires Valid()
      ensures n == |contents|
    {
      return count;
    }
  }
}
