/** One step of 4-neighbour dilation of the 1-cells (`make_ones_bigger`). */
module Dilation {
  import opened Lattice

  /** Some in-bounds cell of value 1 is 4-adjacent to `c`. */
  ghost predicate OneNearby(g: Grid, c: Cell)
  {
    exists a :: IsOne(g, a) && Adjacent(a, c)
  }

  /** The dilated value at (x, y): 1 next to a 1 of the input, otherwise the
      input value. */
  ghost function DilatedAt(g: Grid, x: int, y: int): int
    requires 0 <= x < |g| && 0 <= y < |g[x]|
  {
    if OneNearby(g, Cell(x, y)) then 1 else g[x][y]
  }

  /** The dilation of a whole grid, computed from the input alone. */
  ghost function Dilate(g: Grid): (h: Grid)
    ensures SameShape(g, h)
  {
    seq(|g|, x requires 0 <= x < |g| =>
      seq(|g[x]|, y requires 0 <= y < |g[x]| => DilatedAt(g, x, y)))
  }

  /** `a` comes before row `i`, column `j` in row-major order. */
  predicate Before(a: Cell, i: int, j: int)
  {
    a.x < i || (a.x == i && a.y < j)
  }

  /** `c` has a 1-neighbour among the cells before row `i`, column `j`. */
  ghost predicate ScatteredTo(g: Grid, c: Cell, i: int, j: int)
  {
    exists a :: IsOne(g, a) && Adjacent(a, c) && Before(a, i, j)
  }

  /** Sets every in-bounds 4-neighbour of `a` to 1 and nothing else. */
  method SpreadFrom(r: array2<int>, a: Cell)
    modifies r
    ensures forall x, y :: 0 <= x < r.Length0 && 0 <= y < r.Length1 ==>
              r[x, y] == (if Adjacent(a, Cell(x, y)) then 1 else old(r[x, y]))
  {
    for d := 0 to |Directions|
      invariant forall x, y :: 0 <= x < r.Length0 && 0 <= y < r.Length1 ==>
                  r[x, y] == (if exists e :: 0 <= e < d && Cell(x, y) == Neighbour(a, e) then 1 else old(r[x, y]))
    {
      var n := Neighbour(a, d);
      if 0 <= n.x < r.Length0 && 0 <= n.y < r.Length1 {
        r[n.x, n.y] := 1;
      }
    }
    forall c | Adjacent(a, c) ensures exists e :: 0 <= e < |Directions| && c == Neighbour(a, e)
    {
      AdjacentIsNeighbour(a, c);
    }
  }

  /** Moving past the cell `(i, j)` adds its 4-neighbours, if it is a 1. */
  lemma ScatterStep(g: Grid, i: int, j: int, c: Cell)
    ensures ScatteredTo(g, c, i, j + 1) <==> ScatteredTo(g, c, i, j) || (IsOne(g, Cell(i, j)) && Adjacent(Cell(i, j), c))
  {
    if ScatteredTo(g, c, i, j + 1) && !ScatteredTo(g, c, i, j) {
      var b :| IsOne(g, b) && Adjacent(b, c) && Before(b, i, j + 1);
      assert b == Cell(i, j);
    }
  }

  /** Moving past the end of a row of a rectangular grid. */
  lemma ScatterRow(g: Grid, i: int, cols: int, c: Cell)
    requires forall x :: 0 <= x < |g| ==> |g[x]| == cols
    ensures ScatteredTo(g, c, i + 1, 0) <==> ScatteredTo(g, c, i, cols)
  {
    if ScatteredTo(g, c, i + 1, 0) {
      var b :| IsOne(g, b) && Adjacent(b, c) && Before(b, i + 1, 0);
      assert Before(b, i, cols);
    }
  }

  /** Past the last row, every 1 of the grid has been visited. */
  lemma ScatterAll(g: Grid, c: Cell)
    ensures ScatteredTo(g, c, |g|, 0) <==> OneNearby(g, c)
  {
    if OneNearby(g, c) {
      var b :| IsOne(g, b) && Adjacent(b, c);
      assert Before(b, |g|, 0);
    }
  }

  /** Copies `m`, then for every cell of value 1 in `m` sets each in-bounds
      4-neighbour to 1 in the copy. The input is left alone, and since only
      the input is read the result is exactly one dilation step. */
  method MakeOnesBigger(m: array2<int>) returns (r: array2<int>)
    ensures fresh(r) && r.Length0 == m.Length0 && r.Length1 == m.Length1
    ensures forall x, y :: 0 <= x < m.Length0 && 0 <= y < m.Length1 ==> r[x, y] == DilatedAt(Snapshot(m), x, y)
    ensures Snapshot(r) == Dilate(Snapshot(m))
  {
    ghost var g := Snapshot(m);
    r := new int[m.Length0, m.Length1]((x, y) reads m => if 0 <= x < m.Length0 && 0 <= y < m.Length1 then m[x, y] else 0);
    for ii := 0 to m.Length0
      invariant forall x, y :: 0 <= x < m.Length0 && 0 <= y < m.Length1 ==>
                  r[x, y] == (if ScatteredTo(g, Cell(x, y), ii, 0) then 1 else m[x, y])
    {
      for jj := 0 to m.Length1
        invariant forall x, y :: 0 <= x < m.Length0 && 0 <= y < m.Length1 ==>
                    r[x, y] == (if ScatteredTo(g, Cell(x, y), ii, jj) then 1 else m[x, y])
      {
        if m[ii, jj] == 1 {
          SpreadFrom(r, Cell(ii, jj));
        }
        forall c {
          ScatterStep(g, ii, jj, c);
        }
      }
      forall c {
        ScatterRow(g, ii, m.Length1, c);
      }
    }
    forall c {
      ScatterAll(g, c);
    }
    GridsEqual(Snapshot(r), Dilate(g));
  }

  /** Cells of value 1 stay 1. */
  lemma DilateKeepsOnes(g: Grid, c: Cell)
    requires IsOne(g, c)
    ensures IsOne(Dilate(g), c)
  {
  }

  /** Every in-bounds 4-neighbour of a 1 becomes 1. */
  lemma DilateCoversNeighbours(g: Grid, a: Cell, c: Cell)
    requires IsOne(g, a) && Adjacent(a, c) && InBounds(g, c)
    ensures IsOne(Dilate(g), c)
  {
    assert OneNearby(g, c);
  }

  /** A cell with no 1-neighbour keeps its value. */
  lemma DilateKeepsOthers(g: Grid, c: Cell)
    requires InBounds(g, c) && !OneNearby(g, c)
    ensures Dilate(g)[c.x][c.y] == g[c.x][c.y]
  {
  }

  /** One step only: a 1 of the result is a 1 of the input or next to one,
      never two cells away. */
  lemma DilateIsOneStep(g: Grid, c: Cell)
    requires IsOne(Dilate(g), c)
    ensures IsOne(g, c) || OneNearby(g, c)
  {
  }

  /** More ones in the input give more ones in the result. */
  lemma DilateMonotone(g: Grid, h: Grid, c: Cell)
    requires SameShape(g, h)
    requires forall a :: IsOne(g, a) ==> IsOne(h, a)
    requires IsOne(Dilate(g), c)
    ensures IsOne(Dilate(h), c)
  {
    if OneNearby(g, c) {
      var a :| IsOne(g, a) && Adjacent(a, c);
      assert IsOne(h, a);
      assert OneNearby(h, c);
    } else {
      assert IsOne(h, c);
    }
  }

  /** In the row `1 0 0` the cell two steps from the 1 has no 1-neighbour. */
  lemma TwoAwayHasNoOneNearby(g: Grid)
    requires |g| == 1 && g[0] == [1, 0, 0]
    ensures !OneNearby(g, Cell(0, 2))
  {
    forall a | Adjacent(a, Cell(0, 2)) ensures !IsOne(g, a)
    {
      AdjacentCases(Cell(0, 2), a);
    }
  }

  /** No cascading: in the row `1 0 0` the cell next to the 1 is filled
      but the one two steps away stays 0. */
  lemma DilateDoesNotCascade(g: Grid)
    requires |g| == 1 && g[0] == [1, 0, 0]
    ensures Dilate(g)[0][1] == 1 && Dilate(g)[0][2] == 0
  {
    var h := Dilate(g);
    assert IsOne(g, Cell(0, 0)) && Adjacent(Cell(0, 0), Cell(0, 1));
    assert h[0][1] == DilatedAt(g, 0, 1) == 1;
    TwoAwayHasNoOneNearby(g);
    assert h[0][2] == DilatedAt(g, 0, 2) == g[0][2];
  }
}
