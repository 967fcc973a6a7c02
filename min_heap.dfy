/**
 * The min-heap of the catalogue: a list kept so that every parent is at most
 * its children; insert appends and bubbles the new entry up, extract_min
 * moves the last entry to the root and sinks it down.
 */
module MinHeap {
  import opened Wrappers
  import opened HeapShape

  /** The edges from parents at or after lo, among the first n slots, are ordered. */
  predicate HeapFrom(h: seq<int>, n: nat, lo: nat)
    requires n <= |h|
  {
    forall c :: 0 < c < n && Parent(c) >= lo ==> h[Parent(c)] <= h[c]
  }

  /** Every parent is at most its children. */
  predicate IsMinHeap(h: seq<int>)
  {
    HeapFrom(h, |h|, 0)
  }

  /** The root of a min-heap is at most every entry. */
  lemma {:induction false} RootIsMin(h: seq<int>, i: nat)
    requires IsMinHeap(h) && i < |h|
    ensures h[0] <= h[i]
    decreases i
  {
    if i > 0 {
      RootIsMin(h, Parent(i));
    }
  }

  lemma RootIsMinAll(h: seq<int>)
    requires IsMinHeap(h) && |h| > 0
    ensures forall x :: x in multiset(h) ==> h[0] <= x
  {
    forall x | x in multiset(h)
      ensures h[0] <= x
    {
      var i :| 0 <= i < |h| && h[i] == x;
      RootIsMin(h, i);
    }
  }

  /**
   * While bubbling up from k: every edge is ordered except the one above k,
   * and k's parent is at most k's children.
   */
  predicate UpInv(h: seq<int>, k: nat)
  {
    && k < |h|
    && (forall c :: 0 < c < |h| && c != k ==> h[Parent(c)] <= h[c])
    && (k > 0 ==> forall c :: 0 < c < |h| && Parent(c) == k ==> h[Parent(k)] <= h[c])
  }

  /** A new last entry of a heap may be out of place only against its parent. */
  lemma AppendUpInv(h: seq<int>, value: int)
    requires IsMinHeap(h)
    ensures UpInv(h + [value], |h|)
  {
    var h2 := h + [value];
    forall c | 0 < c < |h2| && c != |h|
      ensures h2[Parent(c)] <= h2[c]
    {
    }
  }

  /** One swap with a larger parent moves the defect one level up. */
  lemma UpStep(h: seq<int>, k: nat)
    requires UpInv(h, k) && k > 0 && h[k] < h[Parent(k)]
    ensures UpInv(Swapped(h, k, Parent(k)), Parent(k))
  {
    var p := Parent(k);
    var h2 := Swapped(h, k, p);
    forall c | 0 < c < |h| && c != p
      ensures h2[Parent(c)] <= h2[c]
    {
      if c != k && Parent(c) == p {
        assert h[p] <= h[c];
      }
    }
    if p > 0 {
      forall c | 0 < c < |h| && Parent(c) == p
        ensures h2[Parent(p)] <= h2[c]
      {
        assert h[Parent(p)] <= h[p];
      }
    }
  }

  /**
   * While sinking down from k, for the slots whose parents are at or after
   * lo: every edge is ordered except those below k, and k's parent is at
   * most k's children.
   */
  predicate DownInv(h: seq<int>, n: nat, lo: nat, k: nat)
  {
    && n <= |h| && lo <= k < n
    && (forall c :: 0 < c < n && Parent(c) >= lo && Parent(c) != k ==> h[Parent(c)] <= h[c])
    && (k > lo ==> Parent(k) >= lo && forall c :: 0 < c < n && Parent(c) == k ==> h[Parent(k)] <= h[c])
  }

  /** The child sink_down picks: the left one if smaller, then the right one if smaller still. */
  function Smallest(h: seq<int>, n: nat, k: nat): (m: nat)
    requires n <= |h| && k < n
    ensures m == k || (m > 0 && Parent(m) == k && m < n && h[m] < h[k])
    ensures forall c :: 0 < c < n && Parent(c) == k ==> h[m] <= h[c]
  {
    var left := 2 * k + 1;
    var right := 2 * k + 2;
    var s := if left < n && h[left] < h[k] then left else k;
    forall c | 0 < c < n
      ensures Parent(c) == k <==> c == left || c == right
    {
      ParentChildren(c, k);
    }
    if right < n && h[right] < h[s] then right else s
  }

  /** One swap with the smallest child moves the defect one level down. */
  lemma DownStep(h: seq<int>, n: nat, lo: nat, k: nat)
    requires DownInv(h, n, lo, k) && Smallest(h, n, k) != k
    ensures DownInv(Swapped(h, k, Smallest(h, n, k)), n, lo, Smallest(h, n, k))
  {
    var m := Smallest(h, n, k);
    var h2 := Swapped(h, k, m);
    forall c | 0 < c < n && Parent(c) >= lo && Parent(c) != m
      ensures h2[Parent(c)] <= h2[c]
    {
      if c == k {
        assert h[Parent(k)] <= h[m];
      } else if Parent(c) == k && c != m {
        assert h[m] <= h[c];
      }
    }
    forall c | 0 < c < n && Parent(c) == m
      ensures h2[k] <= h2[c]
    {
      assert h[m] <= h[c];
    }
  }

  /** When no child is smaller, the sinking is over. */
  lemma DownDone(h: seq<int>, n: nat, lo: nat, k: nat)
    requires DownInv(h, n, lo, k) && Smallest(h, n, k) == k
    ensures HeapFrom(h, n, lo)
  {
  }

  class MinHeap {
    var heap: seq<int>

    ghost predicate Valid()
      reads this
    {
      IsMinHeap(heap)
    }

    constructor()
      ensures Valid() && heap == []
    {
      heap := [];
    }

    method Swap(i: nat, j: nat)
      requires i < |heap| && j < |heap|
      modifies this
      ensures heap == Swapped(old(heap), i, j)
    {
      heap := heap[i := heap[j]][j := heap[i]];
    }

    /** bubble_up(index): swap with the parent while the parent is larger. */
    method BubbleUp(index0: nat)
      requires UpInv(heap, index0)
      modifies this
      ensures IsMinHeap(heap) && multiset(heap) == old(multiset(heap)) && |heap| == old(|heap|)
    {
      var index := index0;
      while index > 0
        invariant UpInv(heap, index) && multiset(heap) == old(multiset(heap)) && |heap| == old(|heap|)
        decreases index
      {
        var parentIndex := Parent(index);
        if heap[index] < heap[parentIndex] {
          UpStep(heap, index);
          Swap(index, parentIndex);
          index := parentIndex;
        } else {
          break;
        }
      }
    }

    /** sink_down(index): swap with the smallest child while one is smaller. */
    method SinkDown(index0: nat)
      requires DownInv(heap, |heap|, index0, index0)
      modifies this
      ensures HeapFrom(heap, |heap|, index0) && multiset(heap) == old(multiset(heap)) && |heap| == old(|heap|)
    {
      var index := index0;
      while true
        invariant DownInv(heap, |heap|, index0, index) && multiset(heap) == old(multiset(heap)) && |heap| == old(|heap|)
        decreases |heap| - index
      {
        var smallest := SmallestChild(index);
        if smallest != index {
          DownStep(heap, |heap|, index0, index);
          Swap(index, smallest);
          index := smallest;
        } else {
          DownDone(heap, |heap|, index0, index);
          break;
        }
      }
    }

    /** The comparisons of sink_down: the left child if smaller, then the right child if smaller still. */
    method SmallestChild(index: nat) returns (smallest: nat)
      requires index < |heap|
      ensures smallest == Smallest(heap, |heap|, index)
    {
      smallest := index;
      var leftChildIndex: nat := 2 * index + 1;
      var rightChildIndex: nat := 2 * index + 2;
      if leftChildIndex < |heap| && heap[leftChildIndex] < heap[smallest] {
        smallest := leftChildIndex;
      }
      if rightChildIndex < |heap| && heap[rightChildIndex] < heap[smallest] {
        smallest := rightChildIndex;
      }
    }

    /** insert(value): append, then bubble up from the last slot. */
    method Insert(value: int)
      requires Valid()
      modifies this
      ensures Valid() && multiset(heap) == old(multiset(heap)) + multiset{value} && |heap| == old(|heap|) + 1
    {
      AppendUpInv(heap, value);
      heap := heap + [value];
      BubbleUp(|heap| - 1);
    }

    /**
     * extract_min(): None for an empty heap; otherwise the root, which is the
     * minimum, taken out while the heap stays a heap of the other entries.
     */
    method ExtractMin() returns (r: Option<int>)
      requires Valid()
      modifies this
      ensures Valid() && |heap| == if old(heap) == [] then 0 else old(|heap|) - 1
      ensures old(heap) == [] ==> r == None && heap == []
      ensures old(heap) != [] ==>
        && r == Some(old(heap)[0])
        && (forall x :: x in old(multiset(heap)) ==> r.value <= x)
        && multiset(heap) == old(multiset(heap)) - multiset{r.value}
    {
      if |heap| == 0 {
        return None;
      }
      RootIsMinAll(heap);
      if |heap| == 1 {
        var last := heap[0];
        assert heap == [last];
        heap := [];
        return Some(last);
      }
      var minVal := heap[0];
      LastToRoot(heap);
      ghost var h0 := heap;
      var last := heap[|heap| - 1];
      heap := heap[..|heap| - 1];
      heap := heap[0 := last];
      assert forall c :: 0 < c < |heap| && Parent(c) > 0 ==> heap[c] == h0[c] && heap[Parent(c)] == h0[Parent(c)];
      SinkDown(0);
      return Some(minVal);
    }

    /** peek(): the root, which is the minimum, or None when empty. */
    method Peek() returns (r: Option<int>)
      requires Valid()
      ensures r.None? <==> heap == []
      ensures r.Some? ==> r.value == heap[0] && forall x :: x in multiset(heap) ==> r.value <= x
    {
      if |heap| == 0 {
        return None;
      }
      RootIsMinAll(heap);
      return Some(heap[0]);
    }

    method Size() returns (n: nat)
      ensures n == |heap|
    {
      return |heap|;
    }
  }
}
