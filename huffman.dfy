/**
 * Huffman coding of the catalogue: one leaf per character with its
 * frequency; while more than one node is left, sort the nodes by
 * frequency, take the first two and push their merge; then walk the tree,
 * '0' to the left and '1' to the right, writing each leaf's code into a map.
 */
module Huffman {
  import opened Wrappers

  /** A node without children carries a character; a merged node carries none. */
  datatype Node = Leaf(ch: string, freq: int) | Internal(freq: int, left: Node, right: Node)

  function Chars(n: Node): set<string>
  {
    match n
    case Leaf(c, _) => {c}
    case Internal(_, l, r) => Chars(l) + Chars(r)
  }

  /** A merged node's frequency is the sum of its children's, all the way down. */
  predicate Weighted(n: Node)
  {
    match n
    case Leaf(_, _) => true
    case Internal(f, l, r) => f == l.freq + r.freq && Weighted(l) && Weighted(r)
  }

  /** The sum of the frequencies of n's leaves. */
  function LeafSum(n: Node): int
  {
    match n
    case Leaf(_, f) => f
    case Internal(_, l, r) => LeafSum(l) + LeafSum(r)
  }

  lemma {:induction false} WeightedSum(n: Node)
    requires Weighted(n)
    ensures n.freq == LeafSum(n)
  {
    match n
    case Leaf(_, _) =>
    case Internal(_, l, r) =>
      WeightedSum(l);
      WeightedSum(r);
  }

  function ForestChars(ns: seq<Node>): set<string>
  {
    if ns == [] then {} else Chars(ns[0]) + ForestChars(ns[1..])
  }

  function Total(ns: seq<Node>): int
  {
    if ns == [] then 0 else ns[0].freq + Total(ns[1..])
  }

  function Sum(xs: seq<int>): int
  {
    if xs == [] then 0 else xs[0] + Sum(xs[1..])
  }

  lemma {:induction false} ForestAppend(a: seq<Node>, b: seq<Node>)
    ensures ForestChars(a + b) == ForestChars(a) + ForestChars(b) && Total(a + b) == Total(a) + Total(b)
    decreases |a|
  {
    if a == [] {
      assert a + b == b;
    } else {
      assert (a + b)[0] == a[0] && (a + b)[1..] == a[1..] + b;
      ForestAppend(a[1..], b);
    }
  }

  // ----- Sorting by frequency -----

  predicate Sorted(ns: seq<Node>)
  {
    forall i, j :: 0 <= i < j < |ns| ==> ns[i].freq <= ns[j].freq
  }

  /** x placed before the first node of t that is not lighter than it. */
  function Insert(x: Node, t: seq<Node>): (r: seq<Node>)
    ensures |r| == |t| + 1
  {
    if t == [] || x.freq <= t[0].freq then [x] + t else [t[0]] + Insert(x, t[1..])
  }

  /**
   * The order nodes.sort((a, b) => a.frequency - b.frequency) leaves: by
   * frequency, and stable, since each node goes before the equally heavy
   * nodes that follow it.
   */
  function SortByFrequency(ns: seq<Node>): (r: seq<Node>)
    ensures |r| == |ns|
  {
    if ns == [] then [] else Insert(ns[0], SortByFrequency(ns[1..]))
  }

  lemma {:induction false} InsertMultiset(x: Node, t: seq<Node>)
    ensures multiset(Insert(x, t)) == multiset([x] + t)
    decreases |t|
  {
    if t != [] && x.freq > t[0].freq {
      InsertMultiset(x, t[1..]);
      ConsMultiset(t[0], Insert(x, t[1..]), x, t[1..]);
      assert t == [t[0]] + t[1..];
    }
  }

  lemma ConsMultiset<T>(a: T, r: seq<T>, x: T, u: seq<T>)
    requires multiset(r) == multiset([x] + u)
    ensures multiset([a] + r) == multiset([x] + ([a] + u))
  {
  }

  /** Every node of Insert(x, t) is x or a node of t. */
  lemma InsertFrom(x: Node, t: seq<Node>)
    ensures forall k :: 0 <= k < |Insert(x, t)| ==> Insert(x, t)[k] == x || Insert(x, t)[k] in t
  {
    InsertMultiset(x, t);
    forall k | 0 <= k < |Insert(x, t)|
      ensures Insert(x, t)[k] == x || Insert(x, t)[k] in t
    {
      assert Insert(x, t)[k] in multiset([x] + t);
    }
  }

  lemma {:induction false} InsertSorted(x: Node, t: seq<Node>)
    requires Sorted(t)
    ensures Sorted(Insert(x, t))
    decreases |t|
  {
    if t != [] && x.freq > t[0].freq {
      var u := t[1..];
      assert Sorted(u);
      InsertSorted(x, u);
      var r := Insert(x, u);
      InsertFrom(x, u);
      assert Insert(x, t) == [t[0]] + r;
      forall k | 0 <= k < |r|
        ensures t[0].freq <= r[k].freq
      {
        if r[k] != x {
          var j :| 0 <= j < |u| && u[j] == r[k];
          assert t[j + 1] == r[k];
        }
      }
    }
  }

  lemma {:induction false} InsertKeeps(x: Node, t: seq<Node>)
    ensures ForestChars(Insert(x, t)) == Chars(x) + ForestChars(t) && Total(Insert(x, t)) == x.freq + Total(t)
    decreases |t|
  {
    if t != [] && x.freq > t[0].freq {
      InsertKeeps(x, t[1..]);
      var r := Insert(x, t) ;
      assert r[0] == t[0] && r[1..] == Insert(x, t[1..]);
    } else {
      var r := Insert(x, t) ;
      assert r[0] == x && r[1..] == t;
    }
  }

  /** The sort orders by frequency and keeps the nodes. */
  lemma {:induction false} SortProps(ns: seq<Node>)
    ensures Sorted(SortByFrequency(ns)) && multiset(SortByFrequency(ns)) == multiset(ns)
    decreases |ns|
  {
    if ns != [] {
      SortProps(ns[1..]);
      InsertSorted(ns[0], SortByFrequency(ns[1..]));
      InsertMultiset(ns[0], SortByFrequency(ns[1..]));
      assert ns == [ns[0]] + ns[1..];
    }
  }

  /** The sort keeps the characters and the total of the nodes. */
  lemma {:induction false} SortKeeps(ns: seq<Node>)
    ensures ForestChars(SortByFrequency(ns)) == ForestChars(ns) && Total(SortByFrequency(ns)) == Total(ns)
    decreases |ns|
  {
    if ns != [] {
      SortKeeps(ns[1..]);
      InsertKeeps(ns[0], SortByFrequency(ns[1..]));
    }
  }

  // ----- Merging -----

  /** The first two nodes taken off and their merge pushed at the end. */
  function Combine(s: seq<Node>): seq<Node>
    requires |s| >= 2
  {
    s[2..] + [Internal(s[0].freq + s[1].freq, s[0], s[1])]
  }

  /** One turn of the loop: sort, take the first two, push their merge. */
  function Merge(ns: seq<Node>): seq<Node>
    requires |ns| >= 2
  {
    Combine(SortByFrequency(ns))
  }

  /** Combining a sorted sequence merges two nodes no heavier than any node left, and keeps the rest. */
  lemma CombineLowest(s: seq<Node>)
    requires |s| >= 2 && Sorted(s)
    ensures var m := Combine(s); var t := m[|m| - 1];
      && |m| == |s| - 1 && t.Internal? && t.freq == t.left.freq + t.right.freq && t.left.freq <= t.right.freq
      && multiset(m[..|m| - 1]) + multiset{t.left, t.right} == multiset(s)
      && forall x :: x in m[..|m| - 1] ==> t.left.freq <= x.freq && t.right.freq <= x.freq
  {
    var m := Combine(s);
    assert m[..|m| - 1] == s[2..];
    assert s == [s[0], s[1]] + s[2..];
    forall x | x in s[2..]
      ensures s[0].freq <= x.freq && s[1].freq <= x.freq
    {
      var k :| 0 <= k < |s[2..]| && s[2..][k] == x;
      assert s[k + 2] == x;
    }
  }

  /**
   * The merged node's children are two of the nodes, each no heavier than
   * any node left beside it; the rest of the nodes stay.
   */
  lemma MergeLowest(ns: seq<Node>)
    requires |ns| >= 2
    ensures var m := Merge(ns); var t := m[|m| - 1];
      && |m| == |ns| - 1 && t.Internal? && t.freq == t.left.freq + t.right.freq && t.left.freq <= t.right.freq
      && multiset(m[..|m| - 1]) + multiset{t.left, t.right} == multiset(ns)
      && forall x :: x in m[..|m| - 1] ==> t.left.freq <= x.freq && t.right.freq <= x.freq
  {
    SortProps(ns);
    CombineLowest(SortByFrequency(ns));
  }

  /** The first two nodes and the rest. */
  lemma PairKeeps(s: seq<Node>)
    requires |s| >= 2
    ensures ForestChars(s) == Chars(s[0]) + Chars(s[1]) + ForestChars(s[2..])
    ensures Total(s) == s[0].freq + s[1].freq + Total(s[2..])
  {
    assert s[1..][1..] == s[2..];
  }

  lemma Single(t: Node)
    ensures ForestChars([t]) == Chars(t) && Total([t]) == t.freq
  {
    assert [t][1..] == [];
  }

  lemma CombineKeeps(s: seq<Node>)
    requires |s| >= 2
    ensures ForestChars(Combine(s)) == ForestChars(s) && Total(Combine(s)) == Total(s)
  {
    var t := Internal(s[0].freq + s[1].freq, s[0], s[1]);
    ForestAppend(s[2..], [t]);
    Single(t);
    PairKeeps(s);
  }

  /** A merge keeps the characters and the total. */
  lemma MergeKeeps(ns: seq<Node>)
    requires |ns| >= 2
    ensures ForestChars(Merge(ns)) == ForestChars(ns) && Total(Merge(ns)) == Total(ns)
  {
    SortKeeps(ns);
    CombineKeeps(SortByFrequency(ns));
  }

  /** A merge of weighted nodes leaves weighted nodes. */
  lemma MergeWeighted(ns: seq<Node>)
    requires |ns| >= 2 && forall i :: 0 <= i < |ns| ==> Weighted(ns[i])
    ensures forall i :: 0 <= i < |Merge(ns)| ==> Weighted(Merge(ns)[i])
  {
    var s := SortByFrequency(ns);
    SortProps(ns);
    forall i | 0 <= i < |ns|
      ensures Weighted(s[i])
    {
      assert s[i] in multiset(ns);
    }
  }

  /** characters.map((char, i) => new HuffmanNode(char, frequencies[i])). */
  function Initial(cs: seq<string>, fs: seq<int>): (r: seq<Node>)
    requires |fs| >= |cs|
    ensures |r| == |cs| && forall i :: 0 <= i < |cs| ==> r[i] == Leaf(cs[i], fs[i])
  {
    seq(|cs|, i requires 0 <= i < |cs| => Leaf(cs[i], fs[i]))
  }

  lemma {:induction false} InitialProps(cs: seq<string>, fs: seq<int>)
    requires |fs| >= |cs|
    ensures ForestChars(Initial(cs, fs)) == (set c | c in cs) && Total(Initial(cs, fs)) == Sum(fs[..|cs|])
    ensures forall i :: 0 <= i < |cs| ==> Weighted(Initial(cs, fs)[i])
    decreases |cs|
  {
    if cs != [] {
      InitialProps(cs[1..], fs[1..]);
      assert Initial(cs, fs)[1..] == Initial(cs[1..], fs[1..]);
      assert fs[..|cs|][1..] == fs[1..][..|cs| - 1];
      assert (set c | c in cs) == {cs[0]} + (set c | c in cs[1..]);
    }
  }

  // ----- Codes -----

  /**
   * generateHuffmanCodes(node, code, map): a leaf's character gets code,
   * or "0" when code is empty; a merged node passes code + "0" to its left
   * child, then code + "1" to its right, each writing into the map.
   */
  function Generate(n: Node, code: string, m: map<string, string>): map<string, string>
  {
    match n
    case Leaf(c, _) => m[c := if code == "" then "0" else code]
    case Internal(_, l, r) => Generate(r, code + "1", Generate(l, code + "0", m))
  }

  predicate IsPrefix(a: string, b: string)
  {
    |a| <= |b| && b[..|a|] == a
  }

  /** No character's code is a prefix of another's. */
  predicate PrefixFree(m: map<string, string>)
  {
    forall a, b :: a in m && b in m && a != b ==> !IsPrefix(m[a], m[b])
  }

  /** Codes that part at the same position, one with '0' and one with '1', are not prefixes of each other. */
  lemma Parted(code: string, x: string, y: string)
    requires IsPrefix(code + "0", x) && IsPrefix(code + "1", y)
    ensures !IsPrefix(x, y) && !IsPrefix(y, x)
  {
    var k := |code|;
    assert x[k] == (code + "0")[k] == '0';
    assert y[k] == (code + "1")[k] == '1';
  }

  lemma PrefixLonger(code: string, d: char, x: string)
    requires IsPrefix(code + [d], x)
    ensures IsPrefix(code, x)
  {
    assert x[..|code|] == x[..|code| + 1][..|code|];
  }

  /**
   * Below a non-empty code, or at a merged node: the walk writes a code for
   * each of the node's characters, leaves the other entries alone, starts
   * every code it writes with code, and writes no code that is a prefix of
   * another it writes.
   */
  lemma {:induction false} GenerateCodes(n: Node, code: string, m: map<string, string>)
    requires code != "" || n.Internal?
    ensures Generate(n, code, m).Keys == m.Keys + Chars(n)
    ensures forall k :: k in m && k !in Chars(n) ==> Generate(n, code, m)[k] == m[k]
    ensures forall k :: k in Chars(n) ==> IsPrefix(code, Generate(n, code, m)[k])
    ensures forall a, b :: a in Chars(n) && b in Chars(n) && a != b ==> !IsPrefix(Generate(n, code, m)[a], Generate(n, code, m)[b])
  {
    match n
    case Leaf(c, _) =>
    case Internal(_, l, r) =>
      var c0 := code + "0";
      var c1 := code + "1";
      var m1 := Generate(l, c0, m);
      var m2 := Generate(r, c1, m1);
      GenerateCodes(l, c0, m);
      GenerateCodes(r, c1, m1);
      forall k | k in Chars(n)
        ensures IsPrefix(code, m2[k])
      {
        if k in Chars(r) {
          PrefixLonger(code, '1', m2[k]);
        } else {
          PrefixLonger(code, '0', m2[k]);
        }
      }
      forall a, b | a in Chars(n) && b in Chars(n) && a != b
        ensures !IsPrefix(m2[a], m2[b])
      {
        if a in Chars(r) && b !in Chars(r) {
          Parted(code, m2[b], m2[a]);
        } else if a !in Chars(r) && b in Chars(r) {
          Parted(code, m2[a], m2[b]);
        }
      }
  }

  /**
   * huffmanEncoding(characters, frequencies): the empty map for no
   * characters; otherwise the merging loop, then the codes of the last
   * node from the empty code. The tree is returned alongside as a ghost.
   */
  method HuffmanEncoding(characters: seq<string>, frequencies: seq<int>) returns (codes: map<string, string>, ghost tree: Option<Node>)
    requires |frequencies| >= |characters|
    ensures characters == [] ==> codes == map[] && tree == None
    ensures |characters| == 1 ==> codes == map[characters[0] := "0"]
    ensures characters != [] ==>
      && tree.Some? && Weighted(tree.value) && Chars(tree.value) == (set c | c in characters)
      && tree.value.freq == Sum(frequencies[..|characters|]) && codes == Generate(tree.value, "", map[])
    ensures codes.Keys == set c | c in characters
    ensures PrefixFree(codes)
  {
    if |characters| == 0 {
      return map[], None;
    }
    var nodes := Initial(characters, frequencies);
    InitialProps(characters, frequencies);
    while |nodes| > 1
      invariant |nodes| >= 1
      invariant ForestChars(nodes) == (set c | c in characters) && Total(nodes) == Sum(frequencies[..|characters|])
      invariant forall i :: 0 <= i < |nodes| ==> Weighted(nodes[i])
      invariant |characters| == 1 ==> nodes == Initial(characters, frequencies)
      decreases |nodes|
    {
      MergeKeeps(nodes);
      MergeWeighted(nodes);
      nodes := MergeTurn(nodes);
    }
    var root := nodes[0];
    assert ForestChars(nodes) == Chars(root) && Total(nodes) == root.freq by {
      assert nodes[1..] == [];
    }
    codes := Generate(root, "", map[]);
    tree := Some(root);
    if root.Internal? {
      GenerateCodes(root, "", map[]);
    }
  }

  /** The body of the merging loop: sort by frequency, shift off the two lowest, push their merge. */
  method MergeTurn(nodes: seq<Node>) returns (next: seq<Node>)
    requires |nodes| >= 2
    ensures next == Merge(nodes)
  {
    next := SortByFrequency(nodes);
    ghost var sorted := next;
    var left := next[0];
    next := next[1..];
    var right := next[0];
    next := next[1..];
    assert next == sorted[2..];
    var merged := Internal(left.freq + right.freq, left, right);
    next := next + [merged];
  }
}
