/**
 * The two grids of the catalogue's A* exercise test, in the cell convention
 * of the solution ([x, y] is column x of row y).
 */
module AStarExamples {
  import opened AStar

  /** The 5 x 5 grid of the first case. */
  const Grid1: Grid := [
    [0, 0, 0, 0, 0],
    [0, 1, 1, 0, 0],
    [0, 0, 0, 1, 0],
    [1, 1, 0, 0, 0],
    [0, 0, 0, 0, 0]
  ]

  /** The path the first case expects, from [0, 0] to [4, 4]. */
  const Expected1: seq<Cell> := [(0, 0), (1, 0), (2, 0), (2, 1), (2, 2), (3, 2), (4, 2), (4, 3), (4, 4)]

  /** The 3 x 3 grid of the second case, where [0, 0] is walled in. */
  const Grid2: Grid := [
    [0, 1, 0],
    [1, 1, 0],
    [0, 0, 0]
  ]

  /** Each pair read the other way round: [a, b] as row a, column b. */
  function Swapped(p: seq<Cell>): (r: seq<Cell>)
    ensures |r| == |p| && forall i :: 0 <= i < |p| ==> r[i] == (p[i].1, p[i].0)
  {
    if p == [] then [] else [(p[0].1, p[0].0)] + Swapped(p[1..])
  }

  /**
   * Read as [x, y], the expected path of the first case enters [2, 1],
   * which is an obstacle (row 1, column 2), so it is not a walk at all.
   */
  lemma ExpectedThroughObstacle()
    ensures Blocked(Grid1, Expected1[3]) && !IsPath(Grid1, (0, 0), Expected1)
  {
    assert !Passable(Grid1, Expected1[3]);
  }

  /** The expected path of the first case, read as [row, column]. */
  const Transposed1: seq<Cell> := [(0, 0), (0, 1), (0, 2), (1, 2), (2, 2), (2, 3), (2, 4), (3, 4), (4, 4)]

  lemma TransposedIsSwapped()
    ensures Swapped(Expected1) == Transposed1
  {
  }

  /** Read as [row, column], the expected path is a walk of nine cells to the goal. */
  lemma TransposedWalk()
    ensures IsPath(Grid1, (0, 0), Transposed1) && Transposed1[8] == (4, 4)
  {
    var p := Transposed1;
    forall i | 1 <= i < |p|
      ensures Passable(Grid1, p[i]) && Adjacent(p[i - 1], p[i])
    {
      assert Grid1[0] == [0, 0, 0, 0, 0] && Grid1[2] == [0, 0, 0, 1, 0] && Grid1[4] == [0, 0, 0, 0, 0];
      assert i in {1, 2, 3, 4, 5, 6, 7, 8};
    }
  }

  /** No walk from [0, 0] to [4, 4] has fewer than nine cells: the two are eight steps apart. */
  lemma NoShorter()
    ensures forall p :: IsPath(Grid1, (0, 0), p) && p[|p| - 1] == (4, 4) ==> 9 <= |p|
  {
    forall p | IsPath(Grid1, (0, 0), p) && p[|p| - 1] == (4, 4)
      ensures 9 <= |p|
    {
      PathSpan(Grid1, (0, 0), p, 0);
    }
  }

  /** The first case: the search from [0, 0] to [4, 4] returns a walk of nine cells, a shortest one. */
  method SearchGrid1() returns (path: seq<Cell>)
    ensures IsPath(Grid1, (0, 0), path) && path[|path| - 1] == (4, 4) && |path| == 9
  {
    path := AStarSearch(Grid1, (0, 0), (4, 4));
    TransposedWalk();
    NoShorter();
  }

  /** In the second grid no neighbour of [0, 0] is passable: two are obstacles, two are off the grid. */
  lemma Enclosed(c: Cell)
    ensures Adjacent((0, 0), c) ==> !Passable(Grid2, c)
  {
  }

  /** Every walk from [0, 0] in the second grid stays there. */
  lemma WalledIn(p: seq<Cell>)
    requires IsPath(Grid2, (0, 0), p)
    ensures |p| == 1
  {
    if |p| >= 2 {
      Enclosed(p[1]);
      assert false;
    }
  }

  /** The second case: no walk reaches [2, 0], and the search returns the empty path. */
  method SearchGrid2() returns (path: seq<Cell>)
    ensures path == []
  {
    path := AStarSearch(Grid2, (0, 0), (2, 0));
    if path != [] {
      WalledIn(path);
    }
  }
}
