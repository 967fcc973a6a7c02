/**
 * The iterative trie of the catalogue, counting for each node the words that
 * end there (wordCount) and the words that pass through it (prefixCount).
 *
 * A trie node is determined by the characters on the path from the root to
 * it, so the node store is a map from those paths to the two counters: the
 * root is the empty path and "node has a child for c" is "path + [c] is a
 * key". Nodes are created by insert and never removed. The words inserted
 * and not yet erased are the ghost field `words`.
 */
module Trie {
  import opened Wrappers

  datatype Counts = Counts(wordCount: int, prefixCount: int)

  /** How many live words equal w. */
  function CountEqual(words: seq<string>, w: string): nat
  {
    if words == [] then 0 else (if words[0] == w then 1 else 0) + CountEqual(words[1..], w)
  }

  /** How many live words start with p. */
  function CountPrefix(words: seq<string>, p: string): nat
  {
    if words == [] then 0 else (if p <= words[0] then 1 else 0) + CountPrefix(words[1..], p)
  }

  /** The words without their first occurrence of w. */
  function RemoveOne(words: seq<string>, w: string): seq<string>
  {
    if words == [] then []
    else if words[0] == w then words[1..]
    else [words[0]] + RemoveOne(words[1..], w)
  }

  lemma {:induction false} CountAppend(words: seq<string>, w: string, q: string)
    ensures CountEqual(words + [w], q) == CountEqual(words, q) + (if q == w then 1 else 0)
    ensures CountPrefix(words + [w], q) == CountPrefix(words, q) + (if q <= w then 1 else 0)
    decreases |words|
  {
    if words == [] {
      assert [] + [w] == [w];
    } else {
      assert (words + [w])[1..] == words[1..] + [w];
      CountAppend(words[1..], w, q);
    }
  }

  lemma {:induction false} CountRemove(words: seq<string>, w: string, q: string)
    requires CountEqual(words, w) > 0
    ensures CountEqual(RemoveOne(words, w), q) == CountEqual(words, q) - (if q == w then 1 else 0)
    ensures CountPrefix(RemoveOne(words, w), q) == CountPrefix(words, q) - (if q <= w then 1 else 0)
    decreases |words|
  {
    if words[0] != w {
      CountRemove(words[1..], w, q);
      assert ([words[0]] + RemoveOne(words[1..], w))[1..] == RemoveOne(words[1..], w);
    }
  }

  lemma PrefixTrans(q: string, s: string, w: string)
    ensures q <= s && s <= w ==> q <= w
  {
    if q <= s && s <= w {
      assert w[..|q|] == s[..|q|];
    }
  }

  lemma PrefixSlice(p: string, w: string)
    ensures p <= w ==> |p| <= |w| && p == w[..|p|]
  {
  }

  /** No live word starts with q, so none starts with or equals a longer s. */
  lemma {:induction false} PrefixZero(words: seq<string>, q: string, s: string)
    requires q <= s && CountPrefix(words, q) == 0
    ensures CountPrefix(words, s) == 0 && CountEqual(words, s) == 0
    decreases |words|
  {
    if words != [] {
      PrefixTrans(q, s, words[0]);
      PrefixZero(words[1..], q, s);
    }
  }

  /** A live word counts among the words starting with each of its prefixes. */
  lemma {:induction false} EqualPrefix(words: seq<string>, w: string, q: string)
    requires CountEqual(words, w) > 0 && q <= w
    ensures CountPrefix(words, q) > 0
    decreases |words|
  {
    if words[0] != w {
      EqualPrefix(words[1..], w, q);
    }
  }

  /** The longer prefixes of s[..i + 1] are those of s[..i] and s[..i + 1] itself. */
  lemma PrefixStep(p: string, s: string, i: nat)
    requires i < |s|
    ensures p <= s[..i + 1] <==> p <= s[..i] || p == s[..i + 1]
  {
    if p <= s[..i + 1] && p != s[..i + 1] {
      assert |p| <= i;
      assert s[..i][..|p|] == s[..i + 1][..|p|];
    }
    if p <= s[..i] {
      assert s[..i][..|p|] == s[..i + 1][..|p|];
    }
  }

  /**
   * The node store agrees with the live words: every node's counters are the
   * counts of its path (the root's prefixCount stays 0, since insert and
   * erase only touch the nodes below it), and a path without a node has no
   * word through it.
   */
  ghost predicate Agrees(nodes: map<string, Counts>, words: seq<string>)
  {
    "" in nodes && nodes[""].prefixCount == 0 &&
    (forall p :: p in nodes ==> nodes[p].wordCount == CountEqual(words, p)) &&
    (forall p :: p in nodes && p != "" ==> nodes[p].prefixCount == CountPrefix(words, p)) &&
    (forall p :: p !in nodes ==> CountEqual(words, p) == 0 && CountPrefix(words, p) == 0)
  }

  /** Counters never go negative. */
  lemma CountsNonNegative(nodes: map<string, Counts>, words: seq<string>, p: string)
    requires Agrees(nodes, words) && p in nodes
    ensures nodes[p].wordCount >= 0 && nodes[p].prefixCount >= 0
  {
  }

  /** Erasing a word right after inserting it restores every count. */
  lemma InsertThenErase(words: seq<string>, w: string, q: string)
    ensures CountEqual(RemoveOne(words + [w], w), q) == CountEqual(words, q)
    ensures CountPrefix(RemoveOne(words + [w], w), q) == CountPrefix(words, q)
  {
    CountAppend(words, w, w);
    CountAppend(words, w, q);
    CountRemove(words + [w], w, q);
  }

  /**
   * The store part way through the walk of insert (delta 1) or erase
   * (delta -1): the first i nodes below the root on word's path have had
   * their prefixCount moved by delta.
   */
  ghost predicate Partial(nodes: map<string, Counts>, words: seq<string>, word: string, i: nat, delta: int)
    requires i <= |word|
  {
    "" in nodes && nodes[""].prefixCount == 0 &&
    (forall p :: p in nodes ==> nodes[p].wordCount == CountEqual(words, p)) &&
    (forall p :: p in nodes && p != "" ==> nodes[p].prefixCount == CountPrefix(words, p) + (if p <= word[..i] then delta else 0)) &&
    (forall p :: p !in nodes ==> CountEqual(words, p) == 0 && CountPrefix(words, p) == 0)
  }

  /** The node at key, created with zero counters if missing, with prefixCount moved by delta. */
  function Bump(nodes: map<string, Counts>, key: string, delta: int): map<string, Counts>
  {
    var n := if key in nodes then nodes else nodes[key := Counts(0, 0)];
    n[key := n[key].(prefixCount := n[key].prefixCount + delta)]
  }

  lemma PartialStart(nodes: map<string, Counts>, words: seq<string>, word: string, delta: int)
    requires Agrees(nodes, words)
    ensures Partial(nodes, words, word, 0, delta)
  {
    assert word[..0] == "";
  }

  lemma PartialStep(nodes: map<string, Counts>, words: seq<string>, word: string, i: nat, delta: int)
    requires i < |word| && Partial(nodes, words, word, i, delta)
    ensures Partial(Bump(nodes, word[..i + 1], delta), words, word, i + 1, delta)
  {
    var key := word[..i + 1];
    var n := Bump(nodes, key, delta);
    forall p | p in n && p != ""
      ensures n[p].prefixCount == CountPrefix(words, p) + (if p <= word[..i + 1] then delta else 0)
    {
      PrefixStep(p, word, i);
    }
  }

  /** Bumping the next node of the walk keeps every node of the path so far, and adds the next one. */
  lemma BumpKeepsPath(nodes: map<string, Counts>, word: string, i: nat, delta: int)
    requires i < |word| && forall j :: 0 <= j <= i ==> word[..j] in nodes
    ensures forall j :: 0 <= j <= i + 1 ==> word[..j] in Bump(nodes, word[..i + 1], delta)
  {
  }

  lemma InsertFinish(nodes: map<string, Counts>, words: seq<string>, word: string)
    requires Partial(nodes, words, word, |word|, 1)
    requires forall j :: 0 <= j <= |word| ==> word[..j] in nodes
    ensures word in nodes
    ensures Agrees(nodes[word := nodes[word].(wordCount := nodes[word].wordCount + 1)], words + [word])
  {
    assert word[..|word|] == word;
    var n := nodes[word := nodes[word].(wordCount := nodes[word].wordCount + 1)];
    forall p
      ensures CountEqual(words + [word], p) == CountEqual(words, p) + (if p == word then 1 else 0)
      ensures CountPrefix(words + [word], p) == CountPrefix(words, p) + (if p <= word then 1 else 0)
    {
      CountAppend(words, word, p);
    }
    forall p | p !in n
      ensures !(p <= word)
    {
      PrefixSlice(p, word);
    }
  }

  lemma EraseFinish(nodes: map<string, Counts>, words: seq<string>, word: string)
    requires Partial(nodes, words, word, |word|, -1) && CountEqual(words, word) > 0
    ensures word in nodes
    ensures Agrees(nodes[word := nodes[word].(wordCount := nodes[word].wordCount - 1)], RemoveOne(words, word))
  {
    assert word[..|word|] == word;
    var rest := RemoveOne(words, word);
    var n := nodes[word := nodes[word].(wordCount := nodes[word].wordCount - 1)];
    forall p | p in n
      ensures n[p].wordCount == CountEqual(rest, p)
    {
      CountRemove(words, word, p);
    }
    forall p | p in n && p != ""
      ensures n[p].prefixCount == CountPrefix(rest, p)
    {
      ErasedPrefix(nodes, words, word, p);
    }
    forall p | p !in n
      ensures CountEqual(rest, p) == 0 && CountPrefix(rest, p) == 0
    {
      ErasedMissing(nodes, words, word, p);
    }
  }

  lemma ErasedMissing(nodes: map<string, Counts>, words: seq<string>, word: string, p: string)
    requires Partial(nodes, words, word, |word|, -1) && CountEqual(words, word) > 0 && p !in nodes
    ensures CountEqual(RemoveOne(words, word), p) == 0 && CountPrefix(RemoveOne(words, word), p) == 0
  {
    CountRemove(words, word, p);
  }

  lemma ErasedPrefix(nodes: map<string, Counts>, words: seq<string>, word: string, p: string)
    requires Partial(nodes, words, word, |word|, -1) && CountEqual(words, word) > 0
    requires p in nodes && p != "" && word[..|word|] == word
    ensures nodes[p].prefixCount == CountPrefix(RemoveOne(words, word), p)
  {
    CountRemove(words, word, p);
  }

  class Trie {
    var nodes: map<string, Counts>
    ghost var words: seq<string>

    ghost predicate Valid()
      reads this
    {
      Agrees(nodes, words)
    }

    constructor()
      ensures Valid() && words == []
    {
      nodes := map["" := Counts(0, 0)];
      words := [];
    }

    /** insert(word): walk down creating missing children, counting one more word through each, then one more ending. */
    method Insert(word: string)
      requires Valid()
      modifies this
      ensures Valid() && words == old(words) + [word]
    {
      ghost var w0 := words;
      var n := nodes;
      PartialStart(n, w0, word, 1);
      var i := 0;
      while i < |word|
        invariant 0 <= i <= |word|
        invariant forall j :: 0 <= j <= i ==> word[..j] in n
        invariant Partial(n, w0, word, i, 1)
      {
        var key := word[..i + 1];
        PartialStep(n, w0, word, i, 1);
        BumpKeepsPath(n, word, i, 1);
        n := Descend(n, key);
        i := i + 1;
      }
      InsertFinish(n, w0, word);
      nodes := n[word := n[word].(wordCount := n[word].wordCount + 1)];
      words := w0 + [word];
    }

    /** One step of insert's walk: the child at key, created if missing, counts one more word through it. */
    static method Descend(nodes: map<string, Counts>, key: string) returns (next: map<string, Counts>)
      ensures next == Bump(nodes, key, 1)
    {
      next := nodes;
      if key !in next {
        next := next[key := Counts(0, 0)];
      }
      next := next[key := next[key].(prefixCount := next[key].prefixCount + 1)];
    }

    /** The walk shared by the queries: the node at path s, if every step has a child. */
    method Walk(s: string) returns (node: Option<Counts>)
      requires Valid()
      ensures node.Some? ==> s in nodes && node.value == nodes[s]
      ensures node.None? ==> CountEqual(words, s) == 0 && CountPrefix(words, s) == 0
    {
      var i := 0;
      assert s[..0] == "";
      while i < |s|
        invariant 0 <= i <= |s| && s[..i] in nodes
      {
        if s[..i + 1] !in nodes {
          PrefixZero(words, s[..i + 1], s);
          return None;
        }
        i := i + 1;
      }
      assert s[..i] == s;
      return Some(nodes[s]);
    }

    /** search(word): some live word equals word. */
    method Search(word: string) returns (found: bool)
      requires Valid()
      ensures found <==> CountEqual(words, word) > 0
    {
      var node := Walk(word);
      found := node.Some? && node.value.wordCount > 0;
    }

    /** startsWith(prefix): a live word starts with prefix; never for the empty prefix. */
    method StartsWith(prefix: string) returns (found: bool)
      requires Valid()
      ensures found <==> prefix != "" && CountPrefix(words, prefix) > 0
    {
      var node := Walk(prefix);
      found := node.Some? && node.value.prefixCount > 0;
    }

    /** countWordsEqualTo(word): how many live words equal word. */
    method CountWordsEqualTo(word: string) returns (n: int)
      requires Valid()
      ensures n == CountEqual(words, word)
    {
      var node := Walk(word);
      n := if node.Some? then node.value.wordCount else 0;
    }

    /** countWordsStartingWith(prefix): how many live words start with prefix; 0 for the empty prefix. */
    method CountWordsStartingWith(prefix: string) returns (n: int)
      requires Valid()
      ensures n == if prefix == "" then 0 else CountPrefix(words, prefix)
    {
      var node := Walk(prefix);
      n := if node.Some? then node.value.prefixCount else 0;
    }

    /** erase(word): nothing unless word is live; then one fewer word through each node of its path and one fewer ending. */
    method Erase(word: string)
      requires Valid()
      modifies this
      ensures Valid()
      ensures old(CountEqual(words, word)) == 0 ==> nodes == old(nodes) && words == old(words)
      ensures old(CountEqual(words, word)) > 0 ==> words == RemoveOne(old(words), word)
    {
      var found := Search(word);
      if !found {
        return;
      }
      ghost var w0 := words;
      var n := nodes;
      PartialStart(n, w0, word, -1);
      var i := 0;
      while i < |word|
        invariant 0 <= i <= |word|
        invariant Partial(n, w0, word, i, -1)
      {
        var key := word[..i + 1];
        EqualPrefix(w0, word, key);
        assert key in n;
        PartialStep(n, w0, word, i, -1);
        n := n[key := n[key].(prefixCount := n[key].prefixCount - 1)];
        i := i + 1;
      }
      EraseFinish(n, w0, word);
      nodes := n[word := n[word].(wordCount := n[word].wordCount - 1)];
      words := RemoveOne(w0, word);
    }
  }
}
