/** Cells of a 2-D integer matrix and the 4-neighbourhood used by every
    connectivity routine of the image toolkit. A matrix is read through a
    value snapshot (`Grid`, row-major: `g[x][y]` is the entry at row x,
    column y, like `matrix[x][y]`). */
module Lattice {

  /** A lattice point `(x, y)`; x indexes rows, y indexes columns. */
  datatype Cell = Cell(x: int, y: int)

  /** A matrix value, row by row. */
  type Grid = seq<seq<int>>

  function Abs(n: int): nat { if n < 0 then -n else n }

  function Max(a: int, b: int): int { if a < b then b else a }

  /** Manhattan (lattice) distance `|p.x - q.x| + |p.y - q.y|`. */
  function Manhattan(p: Cell, q: Cell): nat { Abs(p.x - q.x) + Abs(p.y - q.y) }

  /** 4-adjacency: the two cells differ by one unit along exactly one axis. */
  predicate Adjacent(a: Cell, b: Cell) { Manhattan(a, b) == 1 }

  /** The neighbour offsets in the order the source explores them:
      up, down, left, right. */
  const Directions: seq<(int, int)> := [(-1, 0), (1, 0), (0, -1), (0, 1)]

  /** The neighbour of `c` in direction `d`. */
  function Neighbour(c: Cell, d: nat): (n: Cell)
    requires d < |Directions|
    ensures Adjacent(c, n)
  {
    Cell(c.x + Directions[d].0, c.y + Directions[d].1)
  }

  /** Every 4-neighbour is reached by one of the four directions. */
  lemma AdjacentIsNeighbour(a: Cell, b: Cell)
    requires Adjacent(a, b)
    ensures b == Neighbour(a, 0) || b == Neighbour(a, 1) || b == Neighbour(a, 2) || b == Neighbour(a, 3)
  {
  }

  /** The four 4-neighbours of a cell, spelled out. */
  lemma AdjacentCases(a: Cell, b: Cell)
    requires Adjacent(a, b)
    ensures b == Cell(a.x - 1, a.y) || b == Cell(a.x + 1, a.y) || b == Cell(a.x, a.y - 1) || b == Cell(a.x, a.y + 1)
  {
  }

  /** Lexicographic order on `(x, y)`, the order of Python's tuple comparison. */
  predicate LexLess(p: Cell, q: Cell) { p.x < q.x || (p.x == q.x && p.y < q.y) }

  predicate InBounds(g: Grid, c: Cell) { 0 <= c.x < |g| && 0 <= c.y < |g[c.x]| }

  predicate IsZero(g: Grid, c: Cell) { InBounds(g, c) && g[c.x][c.y] == 0 }

  predicate IsOne(g: Grid, c: Cell) { InBounds(g, c) && g[c.x][c.y] == 1 }

  /** All in-bounds cells of a grid. */
  ghost function AllCells(g: Grid): set<Cell>
  {
    set x, y | 0 <= x < |g| && 0 <= y < |g[x]| :: Cell(x, y)
  }

  lemma InAllCells(g: Grid, c: Cell)
    requires InBounds(g, c)
    ensures c in AllCells(g)
  {
    assert c == Cell(c.x, c.y);
  }

  /** Grids of the same rectangular shape. */
  predicate SameShape(g: Grid, h: Grid)
  {
    |g| == |h| && forall x :: 0 <= x < |g| ==> |g[x]| == |h[x]|
  }

  /** Grids of the same shape with the same entries are equal. */
  lemma GridsEqual(g: Grid, h: Grid)
    requires SameShape(g, h)
    requires forall x, y :: 0 <= x < |g| && 0 <= y < |g[x]| ==> g[x][y] == h[x][y]
    ensures g == h
  {
    forall x | 0 <= x < |g| ensures g[x] == h[x]
    {
      assert |g[x]| == |h[x]|;
    }
  }

  /** The current contents of a matrix as a value. */
  ghost function Snapshot(m: array2<int>): (g: Grid)
    reads m
    ensures |g| == m.Length0
    ensures forall x :: 0 <= x < m.Length0 ==> |g[x]| == m.Length1
    ensures forall x, y :: 0 <= x < m.Length0 && 0 <= y < m.Length1 ==> g[x][y] == m[x, y]
  {
    seq(m.Length0, x requires 0 <= x < m.Length0 reads m =>
      seq(m.Length1, y requires 0 <= y < m.Length1 reads m => m[x, y]))
  }
}
