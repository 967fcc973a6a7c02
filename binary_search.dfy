/**
 * The recursive TypeScript binarySearch: binarySearchHelper halves the
 * inclusive range [left, right] with an overflow-safe midpoint.
 */
module BinarySearch {
  import opened SeedSorts

  /** left + floor((right - left) / 2): for left <= right it lies inside the range. */
  function Mid(left: int, right: int): (mid: int)
    requires left <= right
    ensures left <= mid <= right
  {
    left + (right - left) / 2
  }

  /**
   * binarySearchHelper: a found index holds target; on a sorted array -1
   * means target does not occur in nums[left..right].
   */
  function Helper(nums: seq<int>, target: int, left: int, right: int): (r: int)
    requires 0 <= left <= right + 1 <= |nums|
    ensures r == -1 || (left <= r <= right && nums[r] == target)
    ensures Sorted(nums) ==> (r == -1 <==> forall k :: left <= k <= right ==> nums[k] != target)
    decreases right - left + 1
  {
    if left > right then -1
    else
      var mid := Mid(left, right);
      if nums[mid] == target then mid
      else if nums[mid] < target then Helper(nums, target, mid + 1, right)
      else Helper(nums, target, left, mid - 1)
  }

  /** binarySearch: the helper over the whole array. */
  function Search(nums: seq<int>, target: int): (r: int)
    ensures r == -1 || (0 <= r < |nums| && nums[r] == target)
    ensures Sorted(nums) ==> (r == -1 <==> target !in nums)
  {
    Helper(nums, target, 0, |nums| - 1)
  }

  /** On a strictly increasing array the index found is the only index holding target. */
  lemma FoundAt(nums: seq<int>, target: int, k: int)
    requires forall i, j :: 0 <= i < j < |nums| ==> nums[i] < nums[j]
    requires 0 <= k < |nums| && nums[k] == target
    ensures Search(nums, target) == k
  {
    assert Sorted(nums);
  }

  /** On a sorted array without target the search reports -1. */
  lemma NotFound(nums: seq<int>, target: int)
    requires Sorted(nums) && target !in nums
    ensures Search(nums, target) == -1
  {
  }

  /** The test file's array [-1, 0, 2, 4, 6, 8], element by element. */
  predicate SixElements(nums: seq<int>)
  {
    && |nums| == 6 && nums[0] == -1 && nums[1] == 0 && nums[2] == 2
    && nums[3] == 4 && nums[4] == 6 && nums[5] == 8
  }

  /** The test file finds 4 at index 3, -1 at index 0 and 8 at index 5. */
  lemma SixElementFound(nums: seq<int>)
    requires SixElements(nums)
    ensures Search(nums, 4) == 3 && Search(nums, -1) == 0 && Search(nums, 8) == 5
  {
    assert forall i, j :: 0 <= i < j < |nums| ==> nums[i] < nums[j];
    FoundAt(nums, 4, 3);
    FoundAt(nums, -1, 0);
    FoundAt(nums, 8, 5);
  }

  /** The test file does not find 3. */
  lemma SixElementMissing(nums: seq<int>)
    requires SixElements(nums)
    ensures Search(nums, 3) == -1
  {
    NotFound(nums, 3);
  }

  /** The edge cases of the test file: the empty, one- and two-element arrays. */
  lemma EdgeFixtures(empty: seq<int>, one: seq<int>, two: seq<int>)
    requires empty == [] && one == [1] && two == [1, 2]
    ensures Search(empty, 1) == -1
    ensures Search(one, 1) == 0 && Search(one, 2) == -1
    ensures Search(two, 1) == 0 && Search(two, 2) == 1
  {
    FoundAt(two, 2, 1);
    assert Sorted(one) && Sorted(two);
  }
}
