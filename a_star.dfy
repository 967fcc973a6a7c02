/**
 * A* search of the catalogue on a grid: cells are [x, y] with the row
 * grid[y]; the heuristic is the Manhattan distance to the goal; each step
 * goes to one of the four neighbours and costs one. The open list holds
 * node objects whose g, h, f and parent are updated in place; a closed
 * grid marks the expanded cells. The path is rebuilt from the parent links.
 */
module AStar {
  import opened Wrappers

  /** A cell [x, y]: column x of row y. */
  type Cell = (int, int)

  type Grid = seq<seq<int>>

  function Abs(n: int): nat
  {
    if n < 0 then -n else n
  }

  function Manhattan(a: Cell, b: Cell): nat
  {
    Abs(a.0 - b.0) + Abs(a.1 - b.1)
  }

  /** heuristic(x, y): the Manhattan distance to the goal. */
  function Heuristic(c: Cell, goal: Cell): nat
  {
    Manhattan(c, goal)
  }

  /** Within the rows of the grid and the columns of its first row, as rows and cols are taken. */
  predicate InBounds(grid: Grid, c: Cell)
  {
    |grid| >= 1 && 0 <= c.1 < |grid| && 0 <= c.0 < |grid[0]|
  }

  /** Only an entry equal to 1 is an obstacle; a cell past the end of a shorter row reads as undefined, which is not 1. */
  predicate Blocked(grid: Grid, c: Cell)
  {
    0 <= c.1 < |grid| && 0 <= c.0 < |grid[c.1]| && grid[c.1][c.0] == 1
  }

  predicate Passable(grid: Grid, c: Cell)
  {
    InBounds(grid, c) && !Blocked(grid, c)
  }

  predicate Adjacent(a: Cell, b: Cell)
  {
    Manhattan(a, b) == 1
  }

  /** A walk from start: each later cell is a passable neighbour of the one before. */
  predicate IsPath(grid: Grid, start: Cell, p: seq<Cell>)
  {
    |p| >= 1 && p[0] == start && forall i :: 1 <= i < |p| ==> Passable(grid, p[i]) && Adjacent(p[i - 1], p[i])
  }

  // ----- Estimates -----

  /** The heuristic is consistent: it drops by at most the distance moved. */
  lemma Consistent(a: Cell, b: Cell, goal: Cell)
    ensures Heuristic(a, goal) <= Manhattan(a, b) + Heuristic(b, goal)
  {
  }

  /** From cell i of a walk, the end is at most as far as the steps left. */
  lemma {:induction false} PathSpan(grid: Grid, start: Cell, p: seq<Cell>, i: nat)
    requires IsPath(grid, start, p) && i < |p|
    ensures Manhattan(p[i], p[|p| - 1]) <= |p| - 1 - i
    decreases |p| - i
  {
    if i < |p| - 1 {
      PathSpan(grid, start, p, i + 1);
      assert Adjacent(p[i], p[i + 1]);
    }
  }

  lemma PathPrefix(grid: Grid, start: Cell, p: seq<Cell>, j: nat)
    requires IsPath(grid, start, p) && 1 <= j <= |p|
    ensures IsPath(grid, start, p[..j])
  {
    forall i | 1 <= i < j
      ensures Passable(grid, p[..j][i]) && Adjacent(p[..j][i - 1], p[..j][i])
    {
      assert p[..j][i] == p[i] && p[..j][i - 1] == p[i - 1];
    }
  }

  // ----- The open list as values -----

  /** What a node of the open list holds. */
  datatype Entry = Entry(x: int, y: int, g: int, h: int, f: int)

  function Pos(e: Entry): Cell
  {
    (e.x, e.y)
  }

  /** openList.find: the first entry at cell c. */
  function Find(es: seq<Entry>, c: Cell): (r: Option<nat>)
    ensures r.Some? ==> r.value < |es| && Pos(es[r.value]) == c && forall j :: 0 <= j < r.value ==> Pos(es[j]) != c
    ensures r.None? ==> forall j :: 0 <= j < |es| ==> Pos(es[j]) != c
  {
    if es == [] then None
    else if Pos(es[0]) == c then Some(0)
    else match Find(es[1..], c)
      case None => None
      case Some(i) => Some(i + 1)
  }

  /** The open list holds cell c with a cost of at most b. */
  predicate HasWithin(es: seq<Entry>, c: Cell, b: int)
  {
    Find(es, c).Some? && es[Find(es, c).value].g <= b
  }

  predicate DistinctCells(es: seq<Entry>)
  {
    forall i, j :: 0 <= i < j < |es| ==> Pos(es[i]) != Pos(es[j])
  }

  /**
   * The entries are at distinct cells, in bounds and not closed, with the
   * heuristic of their cell, f == g + h and a cost of at least 0.
   */
  predicate WellFormed(grid: Grid, goal: Cell, closed: set<Cell>, es: seq<Entry>)
  {
    && DistinctCells(es)
    && forall i :: 0 <= i < |es| ==>
      && InBounds(grid, Pos(es[i])) && Pos(es[i]) !in closed
      && es[i].h == Heuristic(Pos(es[i]), goal) && es[i].f == es[i].g + es[i].h && es[i].g >= 0
  }

  lemma FindDistinct(es: seq<Entry>, i: nat)
    requires DistinctCells(es) && i < |es|
    ensures Find(es, Pos(es[i])) == Some(i)
  {
  }

  lemma FindAppend(es: seq<Entry>, e: Entry, c: Cell)
    ensures Find(es + [e], c) == if Find(es, c).Some? then Find(es, c) else if Pos(e) == c then Some(|es|) else None
  {
    var s := es + [e];
    assert forall j :: 0 <= j < |es| ==> s[j] == es[j];
    if Find(es, c).Some? {
      FindIs(s, c, Find(es, c).value);
    } else if Pos(e) == c {
      FindIs(s, c, |es|);
    }
  }

  /** The first entry at cell c is the one Find returns. */
  lemma FindIs(es: seq<Entry>, c: Cell, k: nat)
    requires k < |es| && Pos(es[k]) == c && forall j :: 0 <= j < k ==> Pos(es[j]) != c
    ensures Find(es, c) == Some(k)
  {
  }

  lemma FindUpdate(es: seq<Entry>, i: nat, e: Entry, c: Cell)
    requires i < |es| && Pos(e) == Pos(es[i])
    ensures Find(es[i := e], c) == Find(es, c)
  {
    var s := es[i := e];
    assert forall j :: 0 <= j < |es| ==> Pos(s[j]) == Pos(es[j]);
  }

  /** openList.splice(k, 1). */
  function Remove(es: seq<Entry>, k: nat): (r: seq<Entry>)
    requires k < |es|
    ensures |r| == |es| - 1
  {
    es[..k] + es[k + 1..]
  }

  lemma RemoveAt(es: seq<Entry>, k: nat)
    requires k < |es|
    ensures forall j :: 0 <= j < k ==> Remove(es, k)[j] == es[j]
    ensures forall j :: k <= j < |es| - 1 ==> Remove(es, k)[j] == es[j + 1]
  {
  }

  lemma RemoveWellFormed(grid: Grid, goal: Cell, closed: set<Cell>, es: seq<Entry>, k: nat)
    requires k < |es| && WellFormed(grid, goal, closed, es)
    ensures WellFormed(grid, goal, closed + {Pos(es[k])}, Remove(es, k))
  {
    RemoveAt(es, k);
    var r := Remove(es, k);
    forall i | 0 <= i < |r|
      ensures Pos(r[i]) != Pos(es[k])
    {
      if i < k {
        assert r[i] == es[i];
      } else {
        assert r[i] == es[i + 1];
      }
    }
  }

  /** Taking out the entry at k keeps every other cell's entry. */
  lemma RemoveKeeps(es: seq<Entry>, k: nat, c: Cell, b: int)
    requires k < |es| && DistinctCells(es) && HasWithin(es, c, b) && c != Pos(es[k])
    ensures HasWithin(Remove(es, k), c, b)
  {
    RemoveAt(es, k);
    var r := Remove(es, k);
    var i := Find(es, c).value;
    var j := if i < k then i else i - 1;
    assert r[j] == es[i];
    assert DistinctCells(r) by {
      forall a, b | 0 <= a < b < |r|
        ensures Pos(r[a]) != Pos(r[b])
      {
        var a' := if a < k then a else a + 1;
        var b' := if b < k then b else b + 1;
        assert r[a] == es[a'] && r[b] == es[b'];
      }
    }
    FindDistinct(r, j);
  }

  // ----- One direction of an expansion -----

  const Directions: seq<Cell> := [(0, 1), (1, 0), (0, -1), (-1, 0)]

  function Neighbour(c: Cell, d: Cell): Cell
  {
    (c.0 + d.0, c.1 + d.1)
  }

  /**
   * Lines 74-105 for one direction d from cell c of cost gc: skip a cell out
   * of bounds, an obstacle or a closed cell; otherwise cost gc + 1 either
   * lowers an entry already at that cell or, when none is, is pushed as a
   * new entry at the end.
   */
  function Step(grid: Grid, closed: set<Cell>, es: seq<Entry>, c: Cell, gc: int, d: Cell, goal: Cell): seq<Entry>
  {
    var w := Neighbour(c, d);
    if !InBounds(grid, w) || Blocked(grid, w) || w in closed then es
    else
      var g := gc + 1;
      var h := Heuristic(w, goal);
      match Find(es, w)
      case Some(i) => if g >= es[i].g then es else es[i := Entry(w.0, w.1, g, h, g + h)]
      case None => es + [Entry(w.0, w.1, g, h, g + h)]
  }

  /** A step to a cell out of bounds, an obstacle or a closed cell changes nothing. */
  lemma StepSkip(grid: Grid, closed: set<Cell>, es: seq<Entry>, c: Cell, gc: int, d: Cell, goal: Cell)
    requires !Passable(grid, Neighbour(c, d)) || Neighbour(c, d) in closed
    ensures Step(grid, closed, es, c, gc, d, goal) == es
  {
  }

  /** A step to a neighbour open at no higher cost changes nothing. */
  lemma StepStay(grid: Grid, closed: set<Cell>, es: seq<Entry>, c: Cell, gc: int, d: Cell, goal: Cell, i: nat)
    requires Find(es, Neighbour(c, d)) == Some(i) && gc + 1 >= es[i].g
    ensures Step(grid, closed, es, c, gc, d, goal) == es
  {
  }

  /** A step to a passable neighbour not closed and not open pushes its entry. */
  lemma StepPush(grid: Grid, closed: set<Cell>, es: seq<Entry>, c: Cell, gc: int, d: Cell, goal: Cell, e: Entry)
    requires Passable(grid, Neighbour(c, d)) && Neighbour(c, d) !in closed && Find(es, Neighbour(c, d)).None?
    requires e == Entry(c.0 + d.0, c.1 + d.1, gc + 1, Heuristic(Neighbour(c, d), goal), gc + 1 + Heuristic(Neighbour(c, d), goal))
    ensures Step(grid, closed, es, c, gc, d, goal) == es + [e]
  {
  }

  /** A step to a neighbour open at a higher cost lowers its entry in place. */
  lemma StepLower(grid: Grid, closed: set<Cell>, es: seq<Entry>, c: Cell, gc: int, d: Cell, goal: Cell, i: nat, e: Entry)
    requires Passable(grid, Neighbour(c, d)) && Neighbour(c, d) !in closed && Find(es, Neighbour(c, d)) == Some(i)
    requires gc + 1 < es[i].g
    requires e == Entry(c.0 + d.0, c.1 + d.1, gc + 1, Heuristic(Neighbour(c, d), goal), gc + 1 + Heuristic(Neighbour(c, d), goal))
    ensures Step(grid, closed, es, c, gc, d, goal) == es[i := e]
  {
  }

  /** The four directions of the loop at lines 73-106, the first n of them. */
  function Expanded(grid: Grid, closed: set<Cell>, es: seq<Entry>, c: Cell, gc: int, goal: Cell, n: nat): seq<Entry>
    requires n <= |Directions|
  {
    if n == 0 then es else Step(grid, closed, Expanded(grid, closed, es, c, gc, goal, n - 1), c, gc, Directions[n - 1], goal)
  }

  lemma StepWellFormed(grid: Grid, closed: set<Cell>, es: seq<Entry>, c: Cell, gc: int, d: Cell, goal: Cell)
    requires WellFormed(grid, goal, closed, es) && gc >= 0
    ensures WellFormed(grid, goal, closed, Step(grid, closed, es, c, gc, d, goal))
  {
    var w := Neighbour(c, d);
    if Passable(grid, w) && w !in closed {
      var g := gc + 1;
      var e := Entry(w.0, w.1, g, Heuristic(w, goal), g + Heuristic(w, goal));
      var s := Step(grid, closed, es, c, gc, d, goal);
      if Find(es, w).None? {
        assert s == es + [e];
        assert forall i :: 0 <= i < |es| ==> s[i] == es[i];
      } else {
        var i := Find(es, w).value;
        assert forall j :: 0 <= j < |es| ==> Pos(s[j]) == Pos(es[j]);
      }
    }
  }

  /** A step only lowers: every cell held within a bound is still held within it. */
  lemma StepKeeps(grid: Grid, closed: set<Cell>, es: seq<Entry>, c: Cell, gc: int, d: Cell, goal: Cell, x: Cell, b: int)
    requires HasWithin(es, x, b)
    ensures HasWithin(Step(grid, closed, es, c, gc, d, goal), x, b)
  {
    var w := Neighbour(c, d);
    if Passable(grid, w) && w !in closed {
      var g := gc + 1;
      var e := Entry(w.0, w.1, g, Heuristic(w, goal), g + Heuristic(w, goal));
      if Find(es, w).None? {
        FindAppend(es, e, x);
      } else {
        var i := Find(es, w).value;
        if g < es[i].g {
          FindUpdate(es, i, e, x);
        }
      }
    }
  }

  /** After a step to a passable cell not closed, that cell is held at a cost of at most gc + 1. */
  lemma StepReaches(grid: Grid, closed: set<Cell>, es: seq<Entry>, c: Cell, gc: int, d: Cell, goal: Cell)
    requires Passable(grid, Neighbour(c, d)) && Neighbour(c, d) !in closed
    ensures HasWithin(Step(grid, closed, es, c, gc, d, goal), Neighbour(c, d), gc + 1)
  {
    var w := Neighbour(c, d);
    var g := gc + 1;
    var e := Entry(w.0, w.1, g, Heuristic(w, goal), g + Heuristic(w, goal));
    if Find(es, w).None? {
      FindAppend(es, e, w);
    } else {
      var i := Find(es, w).value;
      if g < es[i].g {
        FindUpdate(es, i, e, w);
      }
    }
  }

  lemma {:induction false} ExpandedWellFormed(grid: Grid, closed: set<Cell>, es: seq<Entry>, c: Cell, gc: int, goal: Cell, n: nat)
    requires n <= |Directions| && WellFormed(grid, goal, closed, es) && gc >= 0
    ensures WellFormed(grid, goal, closed, Expanded(grid, closed, es, c, gc, goal, n))
  {
    if n > 0 {
      ExpandedWellFormed(grid, closed, es, c, gc, goal, n - 1);
      StepWellFormed(grid, closed, Expanded(grid, closed, es, c, gc, goal, n - 1), c, gc, Directions[n - 1], goal);
    }
  }

  lemma {:induction false} ExpandedKeeps(grid: Grid, closed: set<Cell>, es: seq<Entry>, c: Cell, gc: int, goal: Cell, n: nat, x: Cell, b: int)
    requires n <= |Directions| && HasWithin(es, x, b)
    ensures HasWithin(Expanded(grid, closed, es, c, gc, goal, n), x, b)
  {
    if n > 0 {
      ExpandedKeeps(grid, closed, es, c, gc, goal, n - 1, x, b);
      StepKeeps(grid, closed, Expanded(grid, closed, es, c, gc, goal, n - 1), c, gc, Directions[n - 1], goal, x, b);
    }
  }

  /** After the n directions, each passable neighbour among them that is not closed is held at a cost of at most gc + 1. */
  lemma {:induction false} ExpandedReaches(grid: Grid, closed: set<Cell>, es: seq<Entry>, c: Cell, gc: int, goal: Cell, n: nat, t: nat)
    requires t < n <= |Directions| && Passable(grid, Neighbour(c, Directions[t])) && Neighbour(c, Directions[t]) !in closed
    ensures HasWithin(Expanded(grid, closed, es, c, gc, goal, n), Neighbour(c, Directions[t]), gc + 1)
  {
    var prev := Expanded(grid, closed, es, c, gc, goal, n - 1);
    if t == n - 1 {
      StepReaches(grid, closed, prev, c, gc, Directions[t], goal);
    } else {
      ExpandedReaches(grid, closed, es, c, gc, goal, n - 1, t);
      StepKeeps(grid, closed, prev, c, gc, Directions[n - 1], goal, Neighbour(c, Directions[t]), gc + 1);
    }
  }

  /** The four directions are exactly the neighbours. */
  lemma NeighbourDirection(c: Cell, w: Cell) returns (t: nat)
    requires Adjacent(c, w)
    ensures t < |Directions| && w == Neighbour(c, Directions[t])
  {
    if w.1 == c.1 + 1 {
      t := 0;
    } else if w.0 == c.0 + 1 {
      t := 1;
    } else if w.1 == c.1 - 1 {
      t := 2;
    } else {
      t := 3;
    }
  }

  /** Every passable neighbour of c that is not closed is held at a cost of at most gc + 1 after the expansion. */
  lemma ExpansionCovers(grid: Grid, closed: set<Cell>, es: seq<Entry>, c: Cell, gc: int, goal: Cell)
    ensures forall w :: Adjacent(c, w) && Passable(grid, w) && w !in closed ==>
      HasWithin(Expanded(grid, closed, es, c, gc, goal, |Directions|), w, gc + 1)
  {
    forall w | Adjacent(c, w) && Passable(grid, w) && w !in closed
      ensures HasWithin(Expanded(grid, closed, es, c, gc, goal, |Directions|), w, gc + 1)
    {
      var t := NeighbourDirection(c, w);
      ExpandedReaches(grid, closed, es, c, gc, goal, |Directions|, t);
    }
  }
  // ----- The invariant of the search -----

  /** Every cell closed with cost g is at least g steps from start along any walk. */
  ghost predicate Bounded(grid: Grid, start: Cell, gOf: map<Cell, int>)
  {
    forall p {:trigger IsPath(grid, start, p)} :: IsPath(grid, start, p) && p[|p| - 1] in gOf ==> gOf[p[|p| - 1]] <= |p| - 1
  }

  /** Every passable neighbour of a closed cell is closed too, or open at a cost of at most one more. */
  ghost predicate Closure(grid: Grid, es: seq<Entry>, gOf: map<Cell, int>)
  {
    forall u, w {:trigger Adjacent(u, w)} :: u in gOf && Adjacent(u, w) && Passable(grid, w) && w !in gOf ==> HasWithin(es, w, gOf[u] + 1)
  }

  /**
   * The open entries es and the closed cells gOf, each with the cost it had
   * when it was closed: the goal is not closed, start is closed or open at
   * cost 0, closed costs are shortest, and the closed cells' neighbours are
   * covered.
   */
  ghost predicate Inv(grid: Grid, start: Cell, goal: Cell, es: seq<Entry>, gOf: map<Cell, int>)
  {
    && WellFormed(grid, goal, gOf.Keys, es)
    && (forall u :: u in gOf ==> InBounds(grid, u))
    && goal !in gOf
    && (start in gOf || HasWithin(es, start, 0))
    && Bounded(grid, start, gOf)
    && Closure(grid, es, gOf)
  }

  /** k holds the lowest f of the open list. */
  predicate LowestAt(es: seq<Entry>, k: nat)
  {
    k < |es| && forall j :: 0 <= j < |es| ==> es[k].f <= es[j].f
  }

  lemma {:induction false} FirstOutside(gOf: map<Cell, int>, p: seq<Cell>, i: nat) returns (j: nat)
    requires i < |p| && p[|p| - 1] !in gOf && forall l :: 0 <= l < i ==> p[l] in gOf
    ensures i <= j < |p| && p[j] !in gOf && forall l :: 0 <= l < j ==> p[l] in gOf
    decreases |p| - i
  {
    if p[i] !in gOf {
      j := i;
    } else {
      j := FirstOutside(gOf, p, i + 1);
    }
  }

  /** A walk to a cell not closed passes, at some step j, a cell that is open at a cost of at most j. */
  lemma OpenOnPath(grid: Grid, start: Cell, goal: Cell, es: seq<Entry>, gOf: map<Cell, int>, p: seq<Cell>) returns (j: nat)
    requires Inv(grid, start, goal, es, gOf) && IsPath(grid, start, p) && p[|p| - 1] !in gOf
    ensures j < |p| && HasWithin(es, p[j], j)
  {
    j := FirstOutside(gOf, p, 0);
    if j > 0 {
      PathPrefix(grid, start, p, j);
      assert p[..j][j - 1] == p[j - 1];
      assert Adjacent(p[j - 1], p[j]) && Passable(grid, p[j]);
    }
  }

  /**
   * The entry of lowest f has the cost of a shortest walk to its cell: a
   * cheaper walk would pass an open cell whose f, by the consistency of the
   * heuristic, is lower still.
   */
  lemma PopOptimal(grid: Grid, start: Cell, goal: Cell, es: seq<Entry>, gOf: map<Cell, int>, k: nat)
    requires Inv(grid, start, goal, es, gOf) && LowestAt(es, k)
    ensures forall p :: IsPath(grid, start, p) && p[|p| - 1] == Pos(es[k]) ==> es[k].g <= |p| - 1
  {
    forall p | IsPath(grid, start, p) && p[|p| - 1] == Pos(es[k])
      ensures es[k].g <= |p| - 1
    {
      var j := OpenOnPath(grid, start, goal, es, gOf, p);
      var i := Find(es, p[j]).value;
      PathSpan(grid, start, p, j);
      Consistent(p[j], Pos(es[k]), goal);
      assert es[k].f <= es[i].f;
    }
  }

  /** With nothing open, every cell a walk from start reaches is closed. */
  lemma {:induction false} ExhaustedClosed(grid: Grid, start: Cell, goal: Cell, gOf: map<Cell, int>, p: seq<Cell>)
    requires Inv(grid, start, goal, [], gOf) && IsPath(grid, start, p)
    ensures p[|p| - 1] in gOf
    decreases |p|
  {
    if |p| > 1 {
      PathPrefix(grid, start, p, |p| - 1);
      ExhaustedClosed(grid, start, goal, gOf, p[..|p| - 1]);
      var u := p[|p| - 2];
      assert p[..|p| - 1][|p| - 2] == u;
      assert Adjacent(u, p[|p| - 1]) && Passable(grid, p[|p| - 1]);
    }
  }

  /** With nothing open, no walk from start reaches the goal. */
  lemma Exhausted(grid: Grid, start: Cell, goal: Cell, gOf: map<Cell, int>)
    requires Inv(grid, start, goal, [], gOf)
    ensures forall p :: IsPath(grid, start, p) ==> p[|p| - 1] != goal
  {
    forall p | IsPath(grid, start, p)
      ensures p[|p| - 1] != goal
    {
      ExhaustedClosed(grid, start, goal, gOf, p);
    }
  }

  /** The open list after taking out entry k, closing its cell and expanding it. */
  function Advanced(grid: Grid, goal: Cell, es: seq<Entry>, gOf: map<Cell, int>, k: nat): seq<Entry>
    requires k < |es|
  {
    var c := Pos(es[k]);
    Expanded(grid, gOf.Keys + {c}, Remove(es, k), c, es[k].g, goal, |Directions|)
  }

  lemma AdvanceWellFormed(grid: Grid, start: Cell, goal: Cell, es: seq<Entry>, gOf: map<Cell, int>, k: nat)
    requires Inv(grid, start, goal, es, gOf) && k < |es|
    ensures WellFormed(grid, goal, gOf.Keys + {Pos(es[k])}, Advanced(grid, goal, es, gOf, k))
  {
    var c := Pos(es[k]);
    RemoveWellFormed(grid, goal, gOf.Keys, es, k);
    ExpandedWellFormed(grid, gOf.Keys + {c}, Remove(es, k), c, es[k].g, goal, |Directions|);
  }

  lemma AdvanceBounded(grid: Grid, start: Cell, goal: Cell, es: seq<Entry>, gOf: map<Cell, int>, k: nat)
    requires Inv(grid, start, goal, es, gOf) && LowestAt(es, k)
    ensures Bounded(grid, start, gOf[Pos(es[k]) := es[k].g])
  {
    PopOptimal(grid, start, goal, es, gOf, k);
  }

  /** An open cell other than the one taken out stays open within its bound. */
  lemma AdvanceKeeps(grid: Grid, start: Cell, goal: Cell, es: seq<Entry>, gOf: map<Cell, int>, k: nat, x: Cell, b: int)
    requires Inv(grid, start, goal, es, gOf) && k < |es| && HasWithin(es, x, b) && x != Pos(es[k])
    ensures HasWithin(Advanced(grid, goal, es, gOf, k), x, b)
  {
    var c := Pos(es[k]);
    RemoveKeeps(es, k, x, b);
    ExpandedKeeps(grid, gOf.Keys + {c}, Remove(es, k), c, es[k].g, goal, |Directions|, x, b);
  }

  lemma AdvanceStart(grid: Grid, start: Cell, goal: Cell, es: seq<Entry>, gOf: map<Cell, int>, k: nat)
    requires Inv(grid, start, goal, es, gOf) && k < |es|
    ensures var c := Pos(es[k]); start in gOf.Keys + {c} || HasWithin(Advanced(grid, goal, es, gOf, k), start, 0)
  {
    if start !in gOf && start != Pos(es[k]) {
      AdvanceKeeps(grid, start, goal, es, gOf, k, start, 0);
    }
  }

  lemma AdvanceClosure(grid: Grid, start: Cell, goal: Cell, es: seq<Entry>, gOf: map<Cell, int>, k: nat)
    requires Inv(grid, start, goal, es, gOf) && k < |es|
    ensures Closure(grid, Advanced(grid, goal, es, gOf, k), gOf[Pos(es[k]) := es[k].g])
  {
    var c := Pos(es[k]);
    var gk := es[k].g;
    var g1 := gOf[c := gk];
    var next := Advanced(grid, goal, es, gOf, k);
    ExpansionCovers(grid, gOf.Keys + {c}, Remove(es, k), c, gk, goal);
    assert g1.Keys == gOf.Keys + {c};
    forall u, w | u in g1 && Adjacent(u, w) && Passable(grid, w) && w !in g1
      ensures HasWithin(next, w, g1[u] + 1)
    {
      if u != c {
        AdvanceKeeps(grid, start, goal, es, gOf, k, w, gOf[u] + 1);
      }
    }
  }

  /** One turn of the search loop that does not reach the goal keeps the invariant. */
  lemma AdvanceInv(grid: Grid, start: Cell, goal: Cell, es: seq<Entry>, gOf: map<Cell, int>, k: nat)
    requires Inv(grid, start, goal, es, gOf) && LowestAt(es, k) && Pos(es[k]) != goal
    ensures Inv(grid, start, goal, Advanced(grid, goal, es, gOf, k), gOf[Pos(es[k]) := es[k].g])
  {
    var c := Pos(es[k]);
    assert (gOf[c := es[k].g]).Keys == gOf.Keys + {c};
    AdvanceWellFormed(grid, start, goal, es, gOf, k);
    AdvanceBounded(grid, start, goal, es, gOf, k);
    AdvanceStart(grid, start, goal, es, gOf, k);
    AdvanceClosure(grid, start, goal, es, gOf, k);
  }
  // ----- The search on node objects -----

  /** All cells within rows and cols. */
  function RowCells(y: int, n: nat): (r: set<Cell>)
    ensures forall c :: c in r <==> c.1 == y && 0 <= c.0 < n
  {
    if n == 0 then {} else RowCells(y, n - 1) + {(n - 1, y)}
  }

  function Cells(rows: nat, cols: nat): (r: set<Cell>)
    ensures forall c :: c in r <==> 0 <= c.1 < rows && 0 <= c.0 < cols
  {
    if rows == 0 then {} else Cells(rows - 1, cols) + RowCells(rows - 1, cols)
  }

  /** A node of the search: its cell, its cost g, heuristic h, f = g + h and the node it was reached from. */
  class SearchNode {
    const x: int
    const y: int
    var g: int
    var h: int
    var f: int
    var parent: SearchNode?

    constructor (x: int, y: int, g: int, h: int, f: int, parent: SearchNode?)
      ensures this.x == x && this.y == y && this.g == g && this.h == h && this.f == f && this.parent == parent
    {
      this.x := x;
      this.y := y;
      this.g := g;
      this.h := h;
      this.f := f;
      this.parent := parent;
    }
  }

  /** openList.find on the node objects: the first node at cell c. */
  function FindNode(open: seq<SearchNode>, c: Cell): (r: Option<nat>)
    ensures r.Some? ==> r.value < |open| && (open[r.value].x, open[r.value].y) == c && forall j :: 0 <= j < r.value ==> (open[j].x, open[j].y) != c
    ensures r.None? ==> forall j :: 0 <= j < |open| ==> (open[j].x, open[j].y) != c
  {
    if open == [] then None
    else if (open[0].x, open[0].y) == c then Some(0)
    else match FindNode(open[1..], c)
      case None => None
      case Some(i) => Some(i + 1)
  }

  /** The nodes of the open list hold the entries es, field by field. */
  ghost predicate Mirrors(open: seq<SearchNode>, es: seq<Entry>)
    reads set n | n in open
  {
    |open| == |es| && forall i :: 0 <= i < |open| ==> es[i] == Entry(open[i].x, open[i].y, open[i].g, open[i].h, open[i].f)
  }

  lemma FindMirrors(open: seq<SearchNode>, es: seq<Entry>, c: Cell)
    requires Mirrors(open, es)
    ensures FindNode(open, c) == Find(es, c)
  {
    assert forall j :: 0 <= j < |open| ==> Pos(es[j]) == (open[j].x, open[j].y);
  }

  /**
   * The open nodes are among nodes; every node has a cost of at least 0; a
   * node without parent is at start with cost 0; a node with one is a
   * passable neighbour of it, one more in cost, and the parent is not open.
   */
  ghost predicate Linked(grid: Grid, start: Cell, nodes: set<SearchNode>, open: seq<SearchNode>)
    reads nodes
  {
    && (forall i :: 0 <= i < |open| ==> open[i] in nodes)
    && forall n :: n in nodes ==>
      && n.g >= 0
      && (n.parent == null ==> (n.x, n.y) == start && n.g == 0)
      && (n.parent != null ==>
        && n.parent in nodes && n.parent !in open && n.g == n.parent.g + 1
        && Adjacent((n.parent.x, n.parent.y), (n.x, n.y)) && Passable(grid, (n.x, n.y)))
  }

  lemma LinkOf(grid: Grid, start: Cell, nodes: set<SearchNode>, open: seq<SearchNode>, n: SearchNode)
    requires Linked(grid, start, nodes, open) && n in nodes
    ensures n.g >= 0
    ensures n.parent == null ==> (n.x, n.y) == start && n.g == 0
    ensures n.parent != null ==> n.parent in nodes && n.g == n.parent.g + 1 && Adjacent((n.parent.x, n.parent.y), (n.x, n.y)) && Passable(grid, (n.x, n.y))
  {
  }

  /** Lines 46-51: the first node of lowest f. */
  method LowestF(open: seq<SearchNode>) returns (k: nat)
    requires |open| > 0
    ensures k < |open| && forall j :: 0 <= j < |open| ==> open[k].f <= open[j].f
    ensures forall j :: 0 <= j < k ==> open[j].f > open[k].f
  {
    k := 0;
    for i := 1 to |open|
      invariant k < i
      invariant forall j :: 0 <= j < i ==> open[k].f <= open[j].f
      invariant forall j :: 0 <= j < k ==> open[j].f > open[k].f
    {
      if open[i].f < open[k].f {
        k := i;
      }
    }
  }

  /** Lines 56-62: the cells of the parent chain, start first; a walk of current.g steps. */
  method ReconstructPath(grid: Grid, start: Cell, current: SearchNode, ghost nodes: set<SearchNode>, ghost open: seq<SearchNode>)
    returns (path: seq<Cell>)
    requires Linked(grid, start, nodes, open) && current in nodes
    ensures IsPath(grid, start, path) && |path| == current.g + 1 && path[|path| - 1] == (current.x, current.y)
  {
    path := [];
    var curr: SearchNode? := current;
    while curr != null
      invariant curr != null ==> curr in nodes
      invariant path == [] ==> curr == current
      invariant |path| + (if curr == null then 0 else curr.g + 1) == current.g + 1
      invariant path != [] ==> path[|path| - 1] == (current.x, current.y)
      invariant curr == null ==> path != [] && path[0] == start
      invariant curr != null && path != [] ==> Adjacent((curr.x, curr.y), path[0]) && Passable(grid, path[0])
      invariant Steps(grid, path)
      decreases if curr == null then 0 else curr.g + 1
    {
      LinkOf(grid, start, nodes, open, curr);
      PrependStep(grid, (curr.x, curr.y), path);
      path := [(curr.x, curr.y)] + path;
      curr := curr.parent;
    }
  }

  /** Each cell after the first is passable and adjacent to the one before it. */
  predicate Steps(grid: Grid, p: seq<Cell>)
  {
    forall i :: 1 <= i < |p| ==> Passable(grid, p[i]) && Adjacent(p[i - 1], p[i])
  }

  lemma PrependStep(grid: Grid, c: Cell, p: seq<Cell>)
    requires Steps(grid, p) && (p != [] ==> Adjacent(c, p[0]) && Passable(grid, p[0]))
    ensures Steps(grid, [c] + p)
  {
    var q := [c] + p;
    forall i | 1 <= i < |q|
      ensures Passable(grid, q[i]) && Adjacent(q[i - 1], q[i])
    {
      assert q[i] == p[i - 1];
      if i > 1 {
        assert q[i - 1] == p[i - 2];
      }
    }
  }

  /**
   * Lines 74-105 for one direction d: the neighbour is skipped when out of
   * bounds, an obstacle, closed, or open at no higher cost; an open node is
   * updated in place; otherwise a new node is pushed. The entries follow Step.
   */
  method Visit(grid: Grid, start: Cell, goal: Cell, closed: array2<bool>, current: SearchNode, d: Cell,
               open0: seq<SearchNode>, ghost es0: seq<Entry>, ghost nodes0: set<SearchNode>, ghost shut: set<Cell>)
    returns (open: seq<SearchNode>, ghost es: seq<Entry>, ghost nodes: set<SearchNode>)
    requires |grid| >= 1 && closed.Length0 == |grid| && closed.Length1 == |grid[0]|
    requires forall y, x :: 0 <= y < closed.Length0 && 0 <= x < closed.Length1 ==> (closed[y, x] <==> (x, y) in shut)
    requires Mirrors(open0, es0) && DistinctCells(es0) && Linked(grid, start, nodes0, open0)
    requires current in nodes0 && current !in open0 && d in Directions
    modifies set n | n in open0
    ensures es == Step(grid, shut, es0, (current.x, current.y), current.g, d, goal)
    ensures Mirrors(open, es) && Linked(grid, start, nodes, open) && current in nodes && current !in open
    ensures forall n :: n in open ==> n in open0 || fresh(n)
    ensures forall n :: n in nodes ==> n in nodes0 || fresh(n)
  {
    open, es, nodes := open0, es0, nodes0;
    var newX := current.x + d.0;
    var newY := current.y + d.1;
    if newY < 0 || newY >= |grid| || newX < 0 || newX >= |grid[0]| {
      StepSkip(grid, shut, es0, (current.x, current.y), current.g, d, goal);
      return;
    }
    if (newX < |grid[newY]| && grid[newY][newX] == 1) || closed[newY, newX] {
      StepSkip(grid, shut, es0, (current.x, current.y), current.g, d, goal);
      return;
    }
    open, es, nodes := Relax(grid, start, goal, current, (newX, newY), open0, es0, nodes0, d, shut);
  }

  /**
   * Lines 80-105 for a passable neighbour w that is not closed: cost
   * current.g + 1 leaves an open node of no higher cost alone, lowers a
   * costlier one in place, and otherwise goes into a new node pushed at the end.
   */
  method Relax(grid: Grid, start: Cell, goal: Cell, current: SearchNode, w: Cell,
               open0: seq<SearchNode>, ghost es0: seq<Entry>, ghost nodes0: set<SearchNode>, ghost d: Cell, ghost shut: set<Cell>)
    returns (open: seq<SearchNode>, ghost es: seq<Entry>, ghost nodes: set<SearchNode>)
    requires Mirrors(open0, es0) && DistinctCells(es0) && Linked(grid, start, nodes0, open0)
    requires current in nodes0 && current !in open0 && d in Directions
    requires w == Neighbour((current.x, current.y), d) && Passable(grid, w) && w !in shut
    modifies set n | n in open0
    ensures es == Step(grid, shut, es0, (current.x, current.y), current.g, d, goal)
    ensures Mirrors(open, es) && Linked(grid, start, nodes, open) && current in nodes && current !in open
    ensures forall n :: n in open ==> n in open0 || fresh(n)
    ensures forall n :: n in nodes ==> n in nodes0 || fresh(n)
  {
    open, es, nodes := open0, es0, nodes0;
    ghost var c := (current.x, current.y);
    ghost var gc := current.g;
    var gScore := current.g + 1;
    var hScore := Heuristic(w, goal);
    var fScore := gScore + hScore;
    assert Adjacent(c, w);
    var existing := FindNode(open, w);
    FindMirrors(open0, es0, w);
    if existing.Some? && gScore >= open[existing.value].g {
      StepStay(grid, shut, es0, c, gc, d, goal, existing.value);
      return;
    }
    var e := Entry(w.0, w.1, gScore, hScore, fScore);
    if existing.Some? {
      es := es0[existing.value := e];
      StepLower(grid, shut, es0, c, gc, d, goal, existing.value, e);
      UpdateNode(grid, start, current, existing.value, open0, es0, nodes0, gScore, hScore, fScore);
    } else {
      es := es0 + [e];
      StepPush(grid, shut, es0, c, gc, d, goal, e);
      var neighbor;
      neighbor, open := PushNode(grid, start, current, w, open0, es0, nodes0, gScore, hScore, fScore);
      nodes := nodes0 + {neighbor};
    }
  }

  /** Lines 98-102: the open node i takes the new cost and current as its parent. */
  method UpdateNode(grid: Grid, start: Cell, current: SearchNode, i: nat, open: seq<SearchNode>, ghost es0: seq<Entry>,
                    ghost nodes: set<SearchNode>, g: int, h: int, f: int)
    requires i < |open| && Mirrors(open, es0) && DistinctCells(es0) && Linked(grid, start, nodes, open)
    requires current in nodes && current !in open && g == current.g + 1
    requires Adjacent((current.x, current.y), (open[i].x, open[i].y)) && Passable(grid, (open[i].x, open[i].y))
    modifies open[i]
    ensures Mirrors(open, es0[i := Entry(open[i].x, open[i].y, g, h, f)]) && Linked(grid, start, nodes, open)
  {
    var node := open[i];
    forall j | 0 <= j < |open| && j != i
      ensures open[j] != node
    {
      assert Pos(es0[j]) != Pos(es0[i]);
    }
    LinkOf(grid, start, nodes, open, current);
    assert current != node && node in nodes;
    node.g, node.h, node.f, node.parent := g, h, f, current;
    ghost var es := es0[i := Entry(node.x, node.y, g, h, f)];
    forall j | 0 <= j < |open|
      ensures es[j] == Entry(open[j].x, open[j].y, open[j].g, open[j].h, open[j].f)
    {
      if j != i {
        assert es[j] == es0[j];
      }
    }
    forall n | n in nodes
      ensures n.g >= 0 && (n.parent == null ==> (n.x, n.y) == start && n.g == 0)
      ensures n.parent != null ==>
        && n.parent in nodes && n.parent !in open && n.g == n.parent.g + 1
        && Adjacent((n.parent.x, n.parent.y), (n.x, n.y)) && Passable(grid, (n.x, n.y))
    {
      if n != node {
        assert old(n.parent) == n.parent && old(n.g) == n.g;
        if n.parent != null {
          assert n.parent != node && old(n.parent.g) == n.parent.g;
        }
      } else {
        assert n.parent == current && current.g == old(current.g);
      }
    }
  }

  /** Lines 89-96 and 104: a new node at cell w with current as its parent, pushed at the end. */
  method PushNode(grid: Grid, start: Cell, current: SearchNode, w: Cell, open0: seq<SearchNode>, ghost es0: seq<Entry>,
                  ghost nodes: set<SearchNode>, g: int, h: int, f: int)
    returns (neighbor: SearchNode, open: seq<SearchNode>)
    requires Mirrors(open0, es0) && Linked(grid, start, nodes, open0)
    requires current in nodes && current !in open0 && g == current.g + 1
    requires Adjacent((current.x, current.y), w) && Passable(grid, w)
    ensures fresh(neighbor) && open == open0 + [neighbor]
    ensures Mirrors(open, es0 + [Entry(w.0, w.1, g, h, f)]) && Linked(grid, start, nodes + {neighbor}, open)
  {
    LinkOf(grid, start, nodes, open0, current);
    neighbor := new SearchNode(w.0, w.1, g, h, f, current);
    open := open0 + [neighbor];
  }

  /** Lines 66-106: Visit in each of the four directions. */
  method Expand(grid: Grid, start: Cell, goal: Cell, closed: array2<bool>, current: SearchNode,
                open0: seq<SearchNode>, ghost es0: seq<Entry>, ghost nodes0: set<SearchNode>, ghost shut: set<Cell>)
    returns (open: seq<SearchNode>, ghost es: seq<Entry>, ghost nodes: set<SearchNode>)
    requires |grid| >= 1 && closed.Length0 == |grid| && closed.Length1 == |grid[0]|
    requires forall y, x :: 0 <= y < closed.Length0 && 0 <= x < closed.Length1 ==> (closed[y, x] <==> (x, y) in shut)
    requires Mirrors(open0, es0) && WellFormed(grid, goal, shut, es0) && Linked(grid, start, nodes0, open0)
    requires current in nodes0 && current !in open0
    modifies set n | n in open0
    ensures es == Expanded(grid, shut, es0, (current.x, current.y), current.g, goal, |Directions|)
    ensures Mirrors(open, es) && Linked(grid, start, nodes, open)
    ensures forall n :: n in nodes ==> n in nodes0 || fresh(n)
  {
    var directions := [(0, 1), (1, 0), (0, -1), (-1, 0)];
    assert directions == Directions;
    open, es, nodes := open0, es0, nodes0;
    for t := 0 to |directions|
      invariant es == Expanded(grid, shut, es0, (current.x, current.y), current.g, goal, t)
      invariant WellFormed(grid, goal, shut, es)
      invariant Mirrors(open, es) && Linked(grid, start, nodes, open) && current in nodes && current !in open
      invariant forall n :: n in open ==> n in open0 || fresh(n)
      invariant forall n :: n in nodes ==> n in nodes0 || fresh(n)
    {
      StepWellFormed(grid, shut, es, (current.x, current.y), current.g, directions[t], goal);
      open, es, nodes := Visit(grid, start, goal, closed, current, directions[t], open, es, nodes, shut);
    }
  }
  /** openList.splice(k, 1) on the nodes: the others keep their entries and links, and the node taken out is no longer open. */
  lemma RemoveNode(grid: Grid, start: Cell, open: seq<SearchNode>, es: seq<Entry>, nodes: set<SearchNode>, k: nat)
    requires k < |open| && Mirrors(open, es) && DistinctCells(es) && Linked(grid, start, nodes, open)
    ensures var rest := open[..k] + open[k + 1..];
      Mirrors(rest, Remove(es, k)) && Linked(grid, start, nodes, rest) && open[k] !in rest && open[k] in nodes
  {
    var rest := open[..k] + open[k + 1..];
    RemoveAt(es, k);
    assert forall j :: 0 <= j < k ==> rest[j] == open[j];
    assert forall j :: k <= j < |rest| ==> rest[j] == open[j + 1];
    forall j | 0 <= j < |rest|
      ensures rest[j] != open[k]
    {
      var j' := if j < k then j else j + 1;
      assert Pos(es[j']) != Pos(es[k]);
    }
    assert forall n :: n in rest ==> n in open;
  }

  /**
   * The state between two turns of the loop of lines 44-106: the entries of
   * the open nodes and the costs of the closed cells keep the invariant, the
   * nodes mirror the entries and link back to start, and closed marks
   * exactly the closed cells.
   */
  ghost predicate Searching(grid: Grid, start: Cell, goal: Cell, closed: array2<bool>,
                           open: seq<SearchNode>, es: seq<Entry>, nodes: set<SearchNode>, gOf: map<Cell, int>)
    reads closed, nodes, set n | n in open
  {
    && |grid| >= 1 && Inv(grid, start, goal, es, gOf) && Mirrors(open, es) && Linked(grid, start, nodes, open)
    && closed.Length0 == |grid| && closed.Length1 == |grid[0]|
    && forall y, x :: 0 <= y < closed.Length0 && 0 <= x < closed.Length1 ==> (closed[y, x] <==> (x, y) in gOf)
  }

  /**
   * Lines 65-106: the cell of current, which is not closed, is closed and
   * its neighbours are visited.
   */
  method CloseAndExpand(grid: Grid, start: Cell, goal: Cell, closed: array2<bool>, current: SearchNode,
                        open0: seq<SearchNode>, ghost es0: seq<Entry>, ghost nodes0: set<SearchNode>, ghost shut: set<Cell>)
    returns (open: seq<SearchNode>, ghost es: seq<Entry>, ghost nodes: set<SearchNode>)
    requires |grid| >= 1 && closed.Length0 == |grid| && closed.Length1 == |grid[0]| && InBounds(grid, (current.x, current.y))
    requires forall y, x :: 0 <= y < closed.Length0 && 0 <= x < closed.Length1 ==> (closed[y, x] <==> (x, y) in shut)
    requires Mirrors(open0, es0) && WellFormed(grid, goal, shut + {(current.x, current.y)}, es0)
    requires Linked(grid, start, nodes0, open0) && current in nodes0 && current !in open0
    modifies closed, set n | n in open0
    ensures es == Expanded(grid, shut + {(current.x, current.y)}, es0, (current.x, current.y), current.g, goal, |Directions|)
    ensures Mirrors(open, es) && Linked(grid, start, nodes, open)
    ensures forall y, x :: 0 <= y < closed.Length0 && 0 <= x < closed.Length1 ==> (closed[y, x] <==> (x, y) in shut + {(current.x, current.y)})
    ensures forall n :: n in nodes ==> n in nodes0 || fresh(n)
  {
    closed[current.y, current.x] := true;
    open, es, nodes := Expand(grid, start, goal, closed, current, open0, es0, nodes0, shut + {(current.x, current.y)});
  }

  /**
   * Lines 65-106 after a node that is not the goal is taken out: with the
   * invariant already advanced past it, its cell is closed with its cost and
   * its neighbours are visited, and the new state is one between turns.
   */
  method Proceed(grid: Grid, start: Cell, goal: Cell, closed: array2<bool>, current: SearchNode,
                 open0: seq<SearchNode>, ghost es0: seq<Entry>, ghost nodes0: set<SearchNode>, ghost gOf0: map<Cell, int>, ghost k: nat)
    returns (open: seq<SearchNode>, ghost es: seq<Entry>, ghost nodes: set<SearchNode>, ghost gOf: map<Cell, int>)
    requires k < |es0| && Pos(es0[k]) == (current.x, current.y) && es0[k].g == current.g
    requires Inv(grid, start, goal, Advanced(grid, goal, es0, gOf0, k), gOf0[Pos(es0[k]) := es0[k].g])
    requires WellFormed(grid, goal, gOf0.Keys, es0)
    requires Mirrors(open0, Remove(es0, k)) && Linked(grid, start, nodes0, open0) && current in nodes0 && current !in open0
    requires |grid| >= 1 && closed.Length0 == |grid| && closed.Length1 == |grid[0]|
    requires forall y, x :: 0 <= y < closed.Length0 && 0 <= x < closed.Length1 ==> (closed[y, x] <==> (x, y) in gOf0)
    modifies closed, set n | n in open0
    ensures Searching(grid, start, goal, closed, open, es, nodes, gOf)
    ensures gOf.Keys == gOf0.Keys + {(current.x, current.y)} && (current.x, current.y) !in gOf0 && InBounds(grid, (current.x, current.y))
    ensures forall n :: n in nodes ==> n in nodes0 || fresh(n)
  {
    RemoveWellFormed(grid, goal, gOf0.Keys, es0, k);
    open, es, nodes := CloseAndExpand(grid, start, goal, closed, current, open0, Remove(es0, k), nodes0, gOf0.Keys);
    assert es == Advanced(grid, goal, es0, gOf0, k);
    gOf := gOf0[Pos(es0[k]) := es0[k].g];
    assert gOf.Keys == gOf0.Keys + {(current.x, current.y)};
  }

  /**
   * Lines 55-63: the node taken out is the goal, and the path rebuilt from
   * its parents is a shortest path to it.
   */
  method Finish(grid: Grid, start: Cell, goal: Cell, current: SearchNode, ghost nodes: set<SearchNode>, ghost open: seq<SearchNode>,
                ghost es: seq<Entry>, ghost gOf: map<Cell, int>, ghost k: nat)
    returns (path: seq<Cell>)
    requires Inv(grid, start, goal, es, gOf) && LowestAt(es, k) && Pos(es[k]) == goal
    requires Linked(grid, start, nodes, open) && current in nodes && (current.x, current.y) == goal && current.g == es[k].g
    ensures IsPath(grid, start, path) && path[|path| - 1] == goal
    ensures forall p :: IsPath(grid, start, p) && p[|p| - 1] == goal ==> |path| <= |p|
  {
    PopOptimal(grid, start, goal, es, gOf, k);
    path := ReconstructPath(grid, start, current, nodes, open);
  }

  /** Closing one more cell of the grid leaves fewer cells open to be closed. */
  lemma CloseShrinks(all: set<Cell>, shut: set<Cell>, c: Cell)
    requires c in all && c !in shut
    ensures all - (shut + {c}) < all - shut
  {
    assert c in all - shut;
  }

  /**
   * One turn of the loop of lines 44-106: the node with the lowest f is
   * taken out of the open list; when it is the goal, the path that reached it
   * is rebuilt, and it is a shortest one; otherwise it is closed and expanded,
   * and one more cell of the grid is closed.
   */
  method Turn(grid: Grid, start: Cell, goal: Cell, closed: array2<bool>,
              open0: seq<SearchNode>, ghost es0: seq<Entry>, ghost nodes0: set<SearchNode>, ghost gOf0: map<Cell, int>)
    returns (found: bool, path: seq<Cell>, open: seq<SearchNode>, ghost es: seq<Entry>, ghost nodes: set<SearchNode>, ghost gOf: map<Cell, int>)
    requires |open0| > 0 && Searching(grid, start, goal, closed, open0, es0, nodes0, gOf0)
    modifies closed, set n | n in open0
    ensures found ==> IsPath(grid, start, path) && path[|path| - 1] == goal
    ensures found ==> forall p :: IsPath(grid, start, p) && p[|p| - 1] == goal ==> |path| <= |p|
    ensures !found ==> Searching(grid, start, goal, closed, open, es, nodes, gOf)
    ensures !found ==> Cells(|grid|, |grid[0]|) - gOf.Keys < Cells(|grid|, |grid[0]|) - gOf0.Keys
    ensures forall n :: n in nodes ==> n in nodes0 || fresh(n)
  {
    var currentIndex := LowestF(open0);
    var current := open0[currentIndex];
    ghost var k := currentIndex;
    assert LowestAt(es0, k);
    RemoveNode(grid, start, open0, es0, nodes0, k);
    open := open0[..currentIndex] + open0[currentIndex + 1..];
    if current.x == goal.0 && current.y == goal.1 {
      path := Finish(grid, start, goal, current, nodes0, open, es0, gOf0, k);
      return true, path, open, es0, nodes0, gOf0;
    }
    found, path := false, [];
    AdvanceInv(grid, start, goal, es0, gOf0, k);
    open, es, nodes, gOf := Proceed(grid, start, goal, closed, current, open, es0, nodes0, gOf0, k);
    CloseShrinks(Cells(|grid|, |grid[0]|), gOf0.Keys, (current.x, current.y));
  }

  /** The set-up of aStarSearch: the closed grid all false, and the open list holding the start node alone. */
  method Begin(grid: Grid, start: Cell, goal: Cell)
    returns (closed: array2<bool>, openList: seq<SearchNode>, ghost es: seq<Entry>, ghost nodes: set<SearchNode>, ghost gOf: map<Cell, int>)
    requires |grid| >= 1 && InBounds(grid, start)
    ensures Searching(grid, start, goal, closed, openList, es, nodes, gOf)
    ensures fresh(closed) && forall n :: n in nodes ==> fresh(n)
  {
    closed := new bool[|grid|, |grid[0]|]((_, _) => false);
    var startNode := new SearchNode(start.0, start.1, 0, Heuristic(start, goal), Heuristic(start, goal), null);
    openList := [startNode];
    es := [Entry(start.0, start.1, 0, Heuristic(start, goal), Heuristic(start, goal))];
    nodes := {startNode};
    gOf := map[];
    assert Find(es, start) == Some(0);
  }

  /**
   * aStarSearch(grid, start, goal): a path from start to goal with the
   * fewest cells, or the empty sequence when no walk reaches the goal. The
   * model takes a grid with a row and a start inside it; other starts are
   * not covered.
   */
  method AStarSearch(grid: Grid, start: Cell, goal: Cell) returns (path: seq<Cell>)
    requires |grid| >= 1 && InBounds(grid, start)
    ensures path != [] ==> IsPath(grid, start, path) && path[|path| - 1] == goal
    ensures path != [] ==> forall p :: IsPath(grid, start, p) && p[|p| - 1] == goal ==> |path| <= |p|
    ensures path == [] ==> forall p :: IsPath(grid, start, p) ==> p[|p| - 1] != goal
  {
    var closed, openList, es, nodes, gOf := Begin(grid, start, goal);
    while |openList| > 0
      invariant Searching(grid, start, goal, closed, openList, es, nodes, gOf)
      invariant forall n :: n in nodes ==> fresh(n)
      decreases Cells(|grid|, |grid[0]|) - gOf.Keys
    {
      var found;
      found, path, openList, es, nodes, gOf := Turn(grid, start, goal, closed, openList, es, nodes, gOf);
      if found {
        return path;
      }
    }
    Exhausted(grid, start, goal, gOf);
    return [];
  }
}
