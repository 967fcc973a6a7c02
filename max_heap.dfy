/**
 * The max-heap of the catalogue: an array kept so that every parent is at
 * least its children. The constructor adopts the given array and heapifies
 * each parent from the last one back to the root; heapify sinks an entry
 * below its largest child recursively, heapifyUp raises a new last entry
 * recursively, and extractMax moves the last entry to the root and heapifies.
 */
module MaxHeap {
  import opened Wrappers
  import opened HeapShape

  /** The edges from parents at or after lo, among the first n slots, are ordered. */
  predicate HeapFrom(h: seq<int>, n: nat, lo: nat)
    requires n <= |h|
  {
    forall c :: 0 < c < n && Parent(c) >= lo ==> h[Parent(c)] >= h[c]
  }

  /** Every parent is at least its children. */
  predicate IsMaxHeap(h: seq<int>)
  {
    HeapFrom(h, |h|, 0)
  }

  /** The root of a max-heap is at least every entry. */
  lemma {:induction false} RootIsMax(h: seq<int>, i: nat)
    requires IsMaxHeap(h) && i < |h|
    ensures h[0] >= h[i]
    decreases i
  {
    if i > 0 {
      RootIsMax(h, Parent(i));
    }
  }

  lemma RootIsMaxAll(h: seq<int>)
    requires IsMaxHeap(h) && |h| > 0
    ensures forall x :: x in multiset(h) ==> h[0] >= x
  {
    forall x | x in multiset(h)
      ensures h[0] >= x
    {
      var i :| 0 <= i < |h| && h[i] == x;
      RootIsMax(h, i);
    }
  }

  /** No slot of the second half has a child: heapify starts from the last parent. */
  lemma LeavesOrdered(h: seq<int>)
    ensures HeapFrom(h, |h|, |h| / 2)
  {
  }

  /**
   * While raising from k: every edge is ordered except the one above k, and
   * k's parent is at least k's children.
   */
  predicate UpInv(h: seq<int>, k: nat)
  {
    && k < |h|
    && (forall c :: 0 < c < |h| && c != k ==> h[Parent(c)] >= h[c])
    && (k > 0 ==> forall c :: 0 < c < |h| && Parent(c) == k ==> h[Parent(k)] >= h[c])
  }

  lemma AppendUpInv(h: seq<int>, value: int)
    requires IsMaxHeap(h)
    ensures UpInv(h + [value], |h|)
  {
    var h2 := h + [value];
    forall c | 0 < c < |h2| && c != |h|
      ensures h2[Parent(c)] >= h2[c]
    {
    }
  }

  /** One swap with a smaller parent moves the defect one level up. */
  lemma UpStep(h: seq<int>, k: nat)
    requires UpInv(h, k) && k > 0 && h[k] > h[Parent(k)]
    ensures UpInv(Swapped(h, k, Parent(k)), Parent(k))
  {
    var p := Parent(k);
    var h2 := Swapped(h, k, p);
    forall c | 0 < c < |h| && c != p
      ensures h2[Parent(c)] >= h2[c]
    {
      if c != k && Parent(c) == p {
        assert h[p] >= h[c];
      }
    }
    if p > 0 {
      forall c | 0 < c < |h| && Parent(c) == p
        ensures h2[Parent(p)] >= h2[c]
      {
        assert h[Parent(p)] >= h[p];
      }
    }
  }

  /**
   * While heapifying down from k, for the slots whose parents are at or
   * after lo: every edge is ordered except those below k, and k's parent is
   * at least k's children.
   */
  predicate DownInv(h: seq<int>, n: nat, lo: nat, k: nat)
  {
    && n <= |h| && lo <= k < n
    && (forall c :: 0 < c < n && Parent(c) >= lo && Parent(c) != k ==> h[Parent(c)] >= h[c])
    && (k > lo ==> Parent(k) >= lo && forall c :: 0 < c < n && Parent(c) == k ==> h[Parent(k)] >= h[c])
  }

  /** The slot heapify picks: the left child if larger, then the right child if larger still. */
  function Largest(h: seq<int>, n: nat, k: nat): (m: nat)
    requires n <= |h| && k < n
    ensures m == k || (m > 0 && Parent(m) == k && m < n && h[m] > h[k])
    ensures forall c :: 0 < c < n && Parent(c) == k ==> h[m] >= h[c]
  {
    var left := 2 * k + 1;
    var right := 2 * k + 2;
    var s := if left < n && h[left] > h[k] then left else k;
    forall c | 0 < c < n
      ensures Parent(c) == k <==> c == left || c == right
    {
      ParentChildren(c, k);
    }
    if right < n && h[right] > h[s] then right else s
  }

  lemma DownStep(h: seq<int>, n: nat, lo: nat, k: nat)
    requires DownInv(h, n, lo, k) && Largest(h, n, k) != k
    ensures DownInv(Swapped(h, k, Largest(h, n, k)), n, lo, Largest(h, n, k))
  {
    var m := Largest(h, n, k);
    var h2 := Swapped(h, k, m);
    forall c | 0 < c < n && Parent(c) >= lo && Parent(c) != m
      ensures h2[Parent(c)] >= h2[c]
    {
      if c == k {
        assert h[Parent(k)] >= h[m];
      } else if Parent(c) == k && c != m {
        assert h[m] >= h[c];
      }
    }
    forall c | 0 < c < n && Parent(c) == m
      ensures h2[k] >= h2[c]
    {
      assert h[m] >= h[c];
    }
  }

  lemma DownDone(h: seq<int>, n: nat, lo: nat, k: nat)
    requires DownInv(h, n, lo, k) && Largest(h, n, k) == k
    ensures HeapFrom(h, n, lo)
  {
  }

  class MaxHeap {
    var heap: seq<int>

    ghost predicate Valid()
      reads this
    {
      IsMaxHeap(heap)
    }

    /** constructor(array): adopt the given entries and build a heap of its entries. */
    constructor(items: seq<int>)
      ensures Valid() && multiset(heap) == multiset(items)
    {
      heap := items;
      new;
      BuildMaxHeap();
    }

    /** buildMaxHeap: heapify every parent, from the last one back to the root. */
    method BuildMaxHeap()
      modifies this
      ensures IsMaxHeap(heap) && multiset(heap) == old(multiset(heap))
    {
      var n := |heap|;
      var i := n / 2 - 1;
      LeavesOrdered(heap);
      while i >= 0
        invariant -1 <= i < n / 2 && n == |heap|
        invariant HeapFrom(heap, n, i + 1) && multiset(heap) == old(multiset(heap))
      {
        Heapify(n, i, i);
        i := i - 1;
      }
    }

    method Swap(i: nat, j: nat)
      requires i < |heap| && j < |heap|
      modifies this
      ensures heap == Swapped(old(heap), i, j)
    {
      heap := heap[i := heap[j]][j := heap[i]];
    }

    /**
     * heapify(n, i): when the subtrees below i, within the first n slots, are
     * heaps, swap i with its largest child and heapify there, until i is at
     * least its children.
     */
    method Heapify(n: nat, i: nat, ghost lo: nat)
      requires DownInv(heap, n, lo, i)
      modifies this
      ensures |heap| == old(|heap|) && HeapFrom(heap, n, lo) && multiset(heap) == old(multiset(heap))
      decreases n - i
    {
      var largest: nat := i;
      var left: nat := 2 * i + 1;
      var right: nat := 2 * i + 2;
      if left < n && heap[left] > heap[largest] {
        largest := left;
      }
      if right < n && heap[right] > heap[largest] {
        largest := right;
      }
      assert largest == Largest(heap, n, i);
      if largest != i {
        DownStep(heap, n, lo, i);
        Swap(i, largest);
        Heapify(n, largest, lo);
      } else {
        DownDone(heap, n, lo, i);
      }
    }

    /** insert(value): push, then raise from the last slot. */
    method Insert(value: int)
      requires Valid()
      modifies this
      ensures Valid() && multiset(heap) == old(multiset(heap)) + multiset{value}
    {
      AppendUpInv(heap, value);
      heap := heap + [value];
      HeapifyUp(|heap| - 1);
    }

    /** heapifyUp(i): while the parent is smaller, swap with it and continue there. */
    method HeapifyUp(i: nat)
      requires UpInv(heap, i)
      modifies this
      ensures IsMaxHeap(heap) && multiset(heap) == old(multiset(heap))
      decreases i
    {
      if i > 0 && heap[i] > heap[Parent(i)] {
        var parent := Parent(i);
        UpStep(heap, i);
        Swap(i, parent);
        HeapifyUp(parent);
      }
    }

    /**
     * extractMax(): undefined for an empty heap; otherwise the root, which is
     * the maximum, taken out while the heap stays a heap of the other entries.
     */
    method ExtractMax() returns (r: Option<int>)
      requires Valid()
      modifies this
      ensures Valid() && |heap| == if old(heap) == [] then 0 else old(|heap|) - 1
      ensures old(heap) == [] ==> r == None && heap == []
      ensures old(heap) != [] ==>
        && r == Some(old(heap)[0])
        && (forall x :: x in old(multiset(heap)) ==> r.value >= x)
        && multiset(heap) == old(multiset(heap)) - multiset{r.value}
    {
      if |heap| == 0 {
        return None;
      }
      RootIsMaxAll(heap);
      if |heap| == 1 {
        var last := heap[0];
        assert heap == [last];
        heap := [];
        return Some(last);
      }
      var max := heap[0];
      LastToRoot(heap);
      ghost var h0 := heap;
      var last := heap[|heap| - 1];
      heap := heap[..|heap| - 1];
      heap := heap[0 := last];
      assert forall c :: 0 < c < |heap| && Parent(c) > 0 ==> heap[c] == h0[c] && heap[Parent(c)] == h0[Parent(c)];
      Heapify(|heap|, 0, 0);
      return Some(max);
    }

    /** peek(): the root, which is the maximum, or undefined when empty. */
    method Peek() returns (r: Option<int>)
      requires Valid()
      ensures r.None? <==> heap == []
      ensures r.Some? ==> r.value == heap[0] && forall x :: x in multiset(heap) ==> r.value >= x
    {
      if |heap| == 0 {
        return None;
      }
      RootIsMaxAll(heap);
      return Some(heap[0]);
    }

    method Size() returns (n: nat)
      ensures n == |heap|
    {
      return |heap|;
    }
  }
}
