/**
 * The sorting routines and the iterative binary search that the algorithm
 * seed stores as TypeScript / JavaScript source text. The sorts work in place
 * on the caller's array; merge sort builds new arrays.
 */
module SeedSorts {

  predicate Sorted(s: seq<int>)
  {
    forall i, j :: 0 <= i < j < |s| ==> s[i] <= s[j]
  }

  /** Two sorted arrangements of the same multiset are the same sequence. */
  lemma {:induction false} SortedPermutationUnique(a: seq<int>, b: seq<int>)
    requires Sorted(a) && Sorted(b) && multiset(a) == multiset(b)
    ensures a == b
  {
    if |a| == 0 {
      assert |multiset(b)| == 0;
    } else {
      assert |b| == |multiset(b)| == |a|;
      assert a[0] in multiset(b);
      assert b[0] in multiset(a);
      assert a[0] == b[0] by {
        var i :| 0 <= i < |b| && b[i] == a[0];
        var j :| 0 <= j < |a| && a[j] == b[0];
        assert b[0] <= a[0] && a[0] <= b[0];
      }
      assert a == [a[0]] + a[1..];
      assert b == [b[0]] + b[1..];
      assert multiset(a) == multiset{a[0]} + multiset(a[1..]);
      assert multiset(b) == multiset{b[0]} + multiset(b[1..]);
      assert multiset(a[1..]) == multiset(a) - multiset{a[0]};
      assert multiset(b[1..]) == multiset(b) - multiset{b[0]};
      SortedPermutationUnique(a[1..], b[1..]);
    }
  }

  /** arr[lo..hi) is in ascending order. */
  ghost predicate SortedIn(arr: array<int>, lo: int, hi: int)
    reads arr
  {
    forall k, l :: 0 <= lo <= k < l < hi <= arr.Length ==> arr[k] <= arr[l]
  }

  /** Every element of arr[0..m) is at most every element of arr[m..n). */
  ghost predicate SplitAt(arr: array<int>, m: int, n: int)
    reads arr
  {
    forall k, l :: 0 <= k < m <= l < n <= arr.Length ==> arr[k] <= arr[l]
  }

  /** bubbleSort: adjacent out-of-order pairs are swapped on each pass. */
  method BubbleSort(arr: array<int>)
    modifies arr
    ensures Sorted(arr[..])
    ensures multiset(arr[..]) == multiset(old(arr[..]))
  {
    var n := arr.Length;
    var i := 0;
    while i < n - 1
      invariant 0 <= i <= if n == 0 then 0 else n - 1
      invariant SortedIn(arr, n - i, n)
      invariant SplitAt(arr, n - i, n)
      invariant multiset(arr[..]) == multiset(old(arr[..]))
    {
      BubblePass(arr, n - i);
      i := i + 1;
    }
    assert SortedIn(arr, 0, n);
  }

  /** The destructuring swap `[arr[i], arr[j]] = [arr[j], arr[i]]`. */
  method Swap(arr: array<int>, i: int, j: int)
    requires 0 <= i < arr.Length && 0 <= j < arr.Length
    modifies arr
    ensures arr[i] == old(arr[j]) && arr[j] == old(arr[i])
    ensures forall k :: 0 <= k < arr.Length && k != i && k != j ==> arr[k] == old(arr[k])
    ensures multiset(arr[..]) == multiset(old(arr[..]))
  {
    arr[i], arr[j] := arr[j], arr[i];
  }

  /** One pass of the inner loop over arr[0..m): the largest element ends at m - 1. */
  method BubblePass(arr: array<int>, m: int)
    requires 1 < m <= arr.Length
    requires SortedIn(arr, m, arr.Length) && SplitAt(arr, m, arr.Length)
    modifies arr
    ensures SortedIn(arr, m - 1, arr.Length) && SplitAt(arr, m - 1, arr.Length)
    ensures multiset(arr[..]) == multiset(old(arr[..]))
  {
    var j := 0;
    while j < m - 1
      invariant 0 <= j <= m - 1
      invariant forall k :: 0 <= k < j ==> arr[k] <= arr[j]
      invariant SortedIn(arr, m, arr.Length) && SplitAt(arr, m, arr.Length)
      invariant multiset(arr[..]) == multiset(old(arr[..]))
    {
      if arr[j] > arr[j + 1] {
        Swap(arr, j, j + 1);
      }
      j := j + 1;
    }
  }

  /** selectionSort: the first minimum of the unsorted suffix is swapped to position i. */
  method SelectionSort(arr: array<int>)
    modifies arr
    ensures Sorted(arr[..])
    ensures multiset(arr[..]) == multiset(old(arr[..]))
  {
    var n := arr.Length;
    var i := 0;
    while i < n - 1
      invariant 0 <= i <= if n == 0 then 0 else n - 1
      invariant SortedIn(arr, 0, i) && SplitAt(arr, i, n)
      invariant multiset(arr[..]) == multiset(old(arr[..]))
    {
      var minIdx := MinIndexFrom(arr, i);
      if minIdx != i {
        Swap(arr, i, minIdx);
      }
      i := i + 1;
    }
    assert SortedIn(arr, 0, n);
  }

  /** The inner loop of selectionSort: the first index of a minimum of arr[i..]. */
  method MinIndexFrom(arr: array<int>, i: int) returns (minIdx: int)
    requires 0 <= i < arr.Length
    ensures i <= minIdx < arr.Length
    ensures forall k :: i <= k < arr.Length ==> arr[minIdx] <= arr[k]
    ensures forall k :: i <= k < minIdx ==> arr[minIdx] < arr[k]
  {
    minIdx := i;
    var j := i + 1;
    while j < arr.Length
      invariant i <= minIdx < j <= arr.Length
      invariant forall k :: i <= k < j ==> arr[minIdx] <= arr[k]
      invariant forall k :: i <= k < minIdx ==> arr[minIdx] < arr[k]
    {
      if arr[j] < arr[minIdx] {
        minIdx := j;
      }
      j := j + 1;
    }
  }

  /** insertionSort: arr[i] is shifted left past every larger element of the sorted prefix. */
  method InsertionSort(arr: array<int>)
    modifies arr
    ensures Sorted(arr[..])
    ensures multiset(arr[..]) == multiset(old(arr[..]))
  {
    var i := 1;
    while i < arr.Length
      invariant 1 <= i <= if arr.Length == 0 then 1 else arr.Length
      invariant SortedIn(arr, 0, i)
      invariant multiset(arr[..]) == multiset(old(arr[..]))
    {
      InsertAt(arr, i);
      i := i + 1;
    }
    assert SortedIn(arr, 0, arr.Length);
  }

  /** One step of insertionSort: arr[0..i) is sorted and arr[i] is inserted into it. */
  method InsertAt(arr: array<int>, i: int)
    requires 0 < i < arr.Length && SortedIn(arr, 0, i)
    modifies arr
    ensures SortedIn(arr, 0, i + 1)
    ensures multiset(arr[..]) == multiset(old(arr[..]))
  {
    ghost var b := arr[..];
    var key := arr[i];
    var j := ShiftUp(arr, i);
    ghost var d := arr[..];
    arr[j + 1] := key;
    Placed(b, d, arr[..], i, j);
  }

  /** What ShiftUp leaves in d, starting from b: the block above b[i] moved up one, the rest in place. */
  ghost predicate ShiftedFrom(b: seq<int>, d: seq<int>, i: int, j: int)
  {
    0 < i < |b| == |d| && -1 <= j <= i - 1
    && (forall k :: 0 <= k <= j ==> d[k] == b[k])
    && (forall k :: j + 2 <= k <= i ==> d[k] == b[k - 1])
    && (forall k :: i < k < |b| ==> d[k] == b[k])
    && (forall k :: j + 1 <= k < i ==> b[k] > b[i])
    && (j >= 0 ==> b[j] <= b[i])
    && (forall k, l :: 0 <= k < l < i ==> b[k] <= b[l])
  }

  /** Writing b[i] into the gap ShiftUp leaves gives a permutation of b sorted up to i. */
  lemma Placed(b: seq<int>, d: seq<int>, c: seq<int>, i: int, j: int)
    requires ShiftedFrom(b, d, i, j) && c == d[j + 1 := b[i]]
    ensures multiset(c) == multiset(b)
    ensures forall k, l :: 0 <= k < l <= i ==> c[k] <= c[l]
  {
    assert forall k :: 0 <= k < j + 1 ==> c[k] == b[k];
    assert forall k :: j + 1 < k <= i ==> c[k] == b[k - 1];
    assert forall k :: i < k < |b| ==> c[k] == b[k];
    ShiftPermutes(b, c, i, j + 1);
    ShiftSorted(b, c, i, j + 1);
  }

  /** The while loop of insertionSort: every element of arr[0..i) above arr[i] moves up one place. */
  method ShiftUp(arr: array<int>, i: int) returns (j: int)
    requires 0 < i < arr.Length && SortedIn(arr, 0, i)
    modifies arr
    ensures ShiftedFrom(old(arr[..]), arr[..], i, j)
  {
    var key := arr[i];
    j := i - 1;
    while j >= 0 && arr[j] > key
      invariant -1 <= j <= i - 1
      invariant forall k :: 0 <= k <= j ==> arr[k] == old(arr[k])
      invariant forall k :: j + 2 <= k <= i ==> arr[k] == old(arr[k - 1])
      invariant forall k :: i < k < arr.Length ==> arr[k] == old(arr[k])
      invariant forall k :: j + 1 <= k < i ==> old(arr[k]) > key
    {
      arr[j + 1] := arr[j];
      j := j - 1;
    }
  }

  /** The shifted sequence of ShiftPermutes is sorted up to i when b[p] is placed where it belongs. */
  lemma ShiftSorted(b: seq<int>, c: seq<int>, i: int, p: int)
    requires 0 <= p <= i < |b| == |c|
    requires forall k, l :: 0 <= k < l < i ==> b[k] <= b[l]
    requires forall k :: 0 <= k < p ==> c[k] == b[k]
    requires c[p] == b[i]
    requires forall k :: p < k <= i ==> c[k] == b[k - 1]
    requires p == 0 || b[p - 1] <= b[i]
    requires forall k :: p <= k < i ==> b[k] > b[i]
    ensures forall k, l :: 0 <= k < l <= i ==> c[k] <= c[l]
  {
  }

  /** Moving b[i] down to position p and shifting b[p..i) up by one keeps the multiset. */
  lemma ShiftPermutes(b: seq<int>, c: seq<int>, i: int, p: int)
    requires 0 <= p <= i < |b| == |c|
    requires forall k :: 0 <= k < p ==> c[k] == b[k]
    requires c[p] == b[i]
    requires forall k :: p < k <= i ==> c[k] == b[k - 1]
    requires forall k :: i < k < |b| ==> c[k] == b[k]
    ensures multiset(c) == multiset(b)
  {
    assert c[..p] == b[..p];
    assert c[p + 1..i + 1] == b[p..i];
    assert c[i + 1..] == b[i + 1..];
    assert c == c[..p] + [c[p]] + c[p + 1..i + 1] + c[i + 1..];
    assert b == b[..p] + b[p..i] + [b[i]] + b[i + 1..];
  }

  /** merge: the smaller head is taken, ties taken from the right; the rests are concatenated. */
  method Merge(left: seq<int>, right: seq<int>) returns (result: seq<int>)
    ensures multiset(result) == multiset(left + right)
    ensures Sorted(left) && Sorted(right) ==> Sorted(result)
  {
    var heads, leftIndex, rightIndex := MergeHeads(left, right);
    var restL, restR := left[leftIndex..], right[rightIndex..];
    result := heads + restL + restR;
    MergeTailPermutes(left, right, heads, leftIndex, rightIndex);
    if Sorted(left) && Sorted(right) {
      MergeTailSorted(left, right, heads, leftIndex, rightIndex);
    }
  }

  lemma MergeTailPermutes(left: seq<int>, right: seq<int>, heads: seq<int>, leftIndex: nat, rightIndex: nat)
    requires MergeInv(left, right, heads, leftIndex, rightIndex)
    ensures multiset(heads + left[leftIndex..] + right[rightIndex..]) == multiset(left + right)
  {
    SplitMultiset(left, leftIndex);
    SplitMultiset(right, rightIndex);
  }

  lemma MergeTailSorted(left: seq<int>, right: seq<int>, heads: seq<int>, leftIndex: nat, rightIndex: nat)
    requires MergeInv(left, right, heads, leftIndex, rightIndex)
    requires leftIndex == |left| || rightIndex == |right|
    requires Sorted(left) && Sorted(right)
    ensures Sorted(heads + left[leftIndex..] + right[rightIndex..])
  {
    SortedConcat(heads, left[leftIndex..]);
    SortedConcat(heads + left[leftIndex..], right[rightIndex..]);
  }

  /** What the while loop of merge keeps: heads taken so far, in order when both inputs are. */
  ghost predicate MergeInv(left: seq<int>, right: seq<int>, result: seq<int>, leftIndex: nat, rightIndex: nat)
  {
    && leftIndex <= |left| && rightIndex <= |right|
    && multiset(result) == multiset(left[..leftIndex]) + multiset(right[..rightIndex])
    && (Sorted(left) && Sorted(right) ==>
          && Sorted(result)
          && (result != [] && leftIndex < |left| ==> result[|result| - 1] <= left[leftIndex])
          && (result != [] && rightIndex < |right| ==> result[|result| - 1] <= right[rightIndex]))
  }

  /** The while loop of merge: heads are taken until one side is used up. */
  method MergeHeads(left: seq<int>, right: seq<int>) returns (result: seq<int>, leftIndex: nat, rightIndex: nat)
    ensures leftIndex == |left| || rightIndex == |right|
    ensures MergeInv(left, right, result, leftIndex, rightIndex)
  {
    result := [];
    leftIndex, rightIndex := 0, 0;
    while leftIndex < |left| && rightIndex < |right|
      invariant MergeInv(left, right, result, leftIndex, rightIndex)
      decreases |left| - leftIndex + |right| - rightIndex
    {
      if left[leftIndex] < right[rightIndex] {
        TakeLeft(left, right, result, leftIndex, rightIndex);
        result := result + [left[leftIndex]];
        leftIndex := leftIndex + 1;
      } else {
        TakeRight(left, right, result, leftIndex, rightIndex);
        result := result + [right[rightIndex]];
        rightIndex := rightIndex + 1;
      }
    }
  }

  lemma TakeLeft(left: seq<int>, right: seq<int>, result: seq<int>, leftIndex: nat, rightIndex: nat)
    requires MergeInv(left, right, result, leftIndex, rightIndex)
    requires leftIndex < |left| && rightIndex < |right| && left[leftIndex] < right[rightIndex]
    ensures MergeInv(left, right, result + [left[leftIndex]], leftIndex + 1, rightIndex)
  {
    PrefixGrows(left, leftIndex);
    if Sorted(left) && Sorted(right) {
      SortedSnoc(result, left[leftIndex]);
    }
  }

  lemma TakeRight(left: seq<int>, right: seq<int>, result: seq<int>, leftIndex: nat, rightIndex: nat)
    requires MergeInv(left, right, result, leftIndex, rightIndex)
    requires leftIndex < |left| && rightIndex < |right| && left[leftIndex] >= right[rightIndex]
    ensures MergeInv(left, right, result + [right[rightIndex]], leftIndex, rightIndex + 1)
  {
    PrefixGrows(right, rightIndex);
    if Sorted(left) && Sorted(right) {
      SortedSnoc(result, right[rightIndex]);
    }
  }

  lemma SortedSnoc(a: seq<int>, x: int)
    requires Sorted(a) && (a != [] ==> a[|a| - 1] <= x)
    ensures Sorted(a + [x])
  {
    SortedConcat(a, [x]);
  }

  /** Two sorted sequences whose junction is in order concatenate to a sorted sequence. */
  lemma SortedConcat(a: seq<int>, b: seq<int>)
    requires Sorted(a) && Sorted(b)
    requires a != [] && b != [] ==> a[|a| - 1] <= b[0]
    ensures Sorted(a + b)
  {
    if a != [] && b != [] {
      forall i, j | 0 <= i < j < |a + b| ensures (a + b)[i] <= (a + b)[j] {
        if i < |a| && j >= |a| {
          assert a[i] <= a[|a| - 1];
          assert b[0] <= b[j - |a|];
        }
      }
    }
  }

  lemma PrefixGrows(s: seq<int>, i: int)
    requires 0 <= i < |s|
    ensures multiset(s[..i + 1]) == multiset(s[..i]) + multiset{s[i]}
  {
    assert s[..i + 1] == s[..i] + [s[i]];
  }

  lemma SplitMultiset(s: seq<int>, i: int)
    requires 0 <= i <= |s|
    ensures multiset(s) == multiset(s[..i]) + multiset(s[i..])
  {
    assert s == s[..i] + s[i..];
  }

  /** mergeSort: sort both halves recursively and merge them. */
  method MergeSort(arr: seq<int>) returns (r: seq<int>)
    ensures Sorted(r)
    ensures multiset(r) == multiset(arr)
    decreases |arr|
  {
    if |arr| <= 1 {
      return arr;
    }
    var mid := |arr| / 2;
    var left := MergeSort(arr[..mid]);
    var right := MergeSort(arr[mid..]);
    r := Merge(left, right);
    assert arr == arr[..mid] + arr[mid..];
  }

  /** The JavaScript binarySearch of the seed: an iterative halving of [left, right]. */
  method BinarySearch(arr: seq<int>, target: int) returns (r: int)
    ensures r == -1 || (0 <= r < |arr| && arr[r] == target)
    ensures Sorted(arr) ==> (r == -1 <==> target !in arr)
  {
    var left, right := 0, |arr| - 1;
    while left <= right
      invariant 0 <= left && right < |arr|
      invariant Sorted(arr) ==> forall k :: 0 <= k < |arr| && arr[k] == target ==> left <= k <= right
      decreases right - left
    {
      var mid := (left + right) / 2;
      if arr[mid] == target {
        return mid;
      } else if arr[mid] < target {
        left := mid + 1;
      } else {
        right := mid - 1;
      }
    }
    return -1;
  }

  /** No value occurs twice in s. */
  predicate Distinct(s: seq<int>)
  {
    forall i, j :: 0 <= i < j < |s| ==> s[i] != s[j]
  }

  lemma {:induction false} DistinctCount(s: seq<int>, x: int)
    requires Distinct(s)
    ensures multiset(s)[x] == if x in s then 1 else 0
  {
    if s != [] {
      assert s == [s[0]] + s[1..];
      assert Distinct(s[1..]);
      DistinctCount(s[1..], x);
      assert s[0] !in s[1..];
    }
  }

  /** Two duplicate-free sequences with the same elements are permutations of each other. */
  lemma DistinctSameElements(a: seq<int>, b: seq<int>)
    requires Distinct(a) && Distinct(b) && (forall x :: x in a <==> x in b)
    ensures multiset(a) == multiset(b)
  {
    forall x ensures multiset(a)[x] == multiset(b)[x] {
      DistinctCount(a, x);
      DistinctCount(b, x);
    }
  }

  /** A sorted permutation of a duplicate-free input is the sorted listing of its elements. */
  lemma SortedOutcome(input: seq<int>, expected: seq<int>, r: seq<int>)
    requires Sorted(r) && multiset(r) == multiset(input)
    requires Distinct(input) && Increasing(expected)
    requires forall x :: x in input <==> x in expected
    ensures r == expected
  {
    IncreasingSorted(expected);
    DistinctSameElements(input, expected);
    SortedPermutationUnique(r, expected);
  }

  /** Each element below the next. */
  predicate Increasing(s: seq<int>)
  {
    forall i :: 0 <= i < |s| - 1 ==> s[i] < s[i + 1]
  }

  lemma {:induction false} IncreasingSorted(s: seq<int>)
    requires Increasing(s)
    ensures forall i, j :: 0 <= i < j < |s| ==> s[i] < s[j]
    decreases |s|
  {
    if |s| > 1 {
      var t := s[1..];
      assert Increasing(t) by {
        forall i | 0 <= i < |t| - 1
          ensures t[i] < t[i + 1]
        {
          assert t[i] == s[i + 1] && t[i + 1] == s[i + 2];
        }
      }
      IncreasingSorted(t);
      forall i, j | 0 <= i < j < |s|
        ensures s[i] < s[j]
      {
        if i == 0 {
          if j > 1 {
            assert t[0] < t[j - 1];
          }
        } else {
          assert t[i - 1] < t[j - 1];
        }
      }
    }
  }

  lemma BubbleSortOutcome(r: seq<int>)
    requires Sorted(r) && multiset(r) == multiset([64, 34, 25, 12, 22, 11, 90])
    ensures r == [11, 12, 22, 25, 34, 64, 90]
  {
    SortedOutcome([64, 34, 25, 12, 22, 11, 90], [11, 12, 22, 25, 34, 64, 90], r);
  }

  /** The bubbleSort test string of the seed. */
  method BubbleSortFixture() returns (r: seq<int>)
    ensures r == [11, 12, 22, 25, 34, 64, 90]
  {
    var a := new int[] [64, 34, 25, 12, 22, 11, 90];
    ghost var a0 := a[..];
    assert a0 == [64, 34, 25, 12, 22, 11, 90];
    BubbleSort(a);
    r := a[..];
    BubbleSortOutcome(r);
  }

  lemma SelectionSortOutcome(r: seq<int>)
    requires Sorted(r) && multiset(r) == multiset([64, 25, 12, 22, 11])
    ensures r == [11, 12, 22, 25, 64]
  {
    SortedOutcome([64, 25, 12, 22, 11], [11, 12, 22, 25, 64], r);
  }

  /** The selectionSort test string of the seed. */
  method SelectionSortFixture() returns (r: seq<int>)
    ensures r == [11, 12, 22, 25, 64]
  {
    var a := new int[] [64, 25, 12, 22, 11];
    ghost var a0 := a[..];
    assert a0 == [64, 25, 12, 22, 11];
    SelectionSort(a);
    r := a[..];
    SelectionSortOutcome(r);
  }

  lemma InsertionSortOutcome(r: seq<int>)
    requires Sorted(r) && multiset(r) == multiset([5, 2, 4, 6, 1, 3])
    ensures r == [1, 2, 3, 4, 5, 6]
  {
    SortedOutcome([5, 2, 4, 6, 1, 3], [1, 2, 3, 4, 5, 6], r);
  }

  /** The insertionSort test string of the seed. */
  method InsertionSortFixture() returns (r: seq<int>)
    ensures r == [1, 2, 3, 4, 5, 6]
  {
    var a := new int[] [5, 2, 4, 6, 1, 3];
    ghost var a0 := a[..];
    assert a0 == [5, 2, 4, 6, 1, 3];
    InsertionSort(a);
    r := a[..];
    InsertionSortOutcome(r);
  }

  /** The mergeSort test string of the seed. */
  method MergeSortFixture() returns (r: seq<int>)
    ensures r == [3, 9, 10, 27, 38, 43, 82]
  {
    r := MergeSort([38, 27, 43, 3, 9, 82, 10]);
    MergeSortOutcome(r);
  }

  lemma MergeSortOutcome(r: seq<int>)
    requires Sorted(r) && multiset(r) == multiset([38, 27, 43, 3, 9, 82, 10])
    ensures r == [3, 9, 10, 27, 38, 43, 82]
  {
    SortedOutcome([38, 27, 43, 3, 9, 82, 10], [3, 9, 10, 27, 38, 43, 82], r);
  }

  /** The binary-search test string: 6 sits at index 3 and 5 is absent. */
  method BinarySearchFixtures() returns (found: int, missing: int)
    ensures found == 3 && missing == -1
  {
    var arr := [1, 3, 4, 6, 8, 9, 11];
    assert Sorted(arr);
    found := BinarySearch(arr, 6);
    missing := BinarySearch(arr, 5);
  }
}
