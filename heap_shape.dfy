/**
 * The array layout both heaps of the catalogue use: the children of slot i
 * are 2i + 1 and 2i + 2, so the parent of slot c > 0 is (c - 1) / 2, and a
 * swap of two slots keeps the multiset of entries.
 */
module HeapShape {
  function Parent(c: nat): (p: nat)
    requires c > 0
    ensures p < c
  {
    (c - 1) / 2
  }

  /** The slots whose parent is k are exactly 2k + 1 and 2k + 2. */
  lemma ParentChildren(c: nat, k: nat)
    requires c > 0
    ensures Parent(c) == k <==> c == 2 * k + 1 || c == 2 * k + 2
  {
  }

  /** The source's swap of two slots. */
  function Swapped(s: seq<int>, i: nat, j: nat): (r: seq<int>)
    requires i < |s| && j < |s|
    ensures |r| == |s| && multiset(r) == multiset(s)
    ensures r[i] == s[j] && r[j] == s[i] && forall k :: 0 <= k < |s| && k != i && k != j ==> r[k] == s[k]
  {
    s[i := s[j]][j := s[i]]
  }

  /** Taking off the last entry and putting it at the root leaves the old root out of the multiset. */
  lemma LastToRoot(s: seq<int>)
    requires |s| >= 2
    ensures var r := s[..|s| - 1][0 := s[|s| - 1]];
      |r| == |s| - 1 && multiset(r) == multiset(s) - multiset{s[0]}
  {
    var init := s[..|s| - 1];
    assert s == init + [s[|s| - 1]];
    assert multiset(s) == multiset(init) + multiset{s[|s| - 1]};
    assert init == [s[0]] + init[1..];
    assert init[0 := s[|s| - 1]] == [s[|s| - 1]] + init[1..];
  }
}
