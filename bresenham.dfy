/** Integer Bresenham rasterisation of the segment between two lattice
    points (`bresenham_line`). */
module Bresenham {
  import opened Lattice

  /** The unit step along one axis: +1 when the end coordinate is larger,
      otherwise -1 (also when the two coordinates are equal). */
  function StepDir(from: int, to: int): int { if to > from then 1 else -1 }

  /** `v` lies in the closed interval spanned by `a` and `b`. */
  predicate Between(a: int, v: int, b: int) { (a <= v <= b) || (b <= v <= a) }

  /** `p` lies in the bounding box of the segment from (x1, y1) to (x2, y2). */
  predicate InBox(p: Cell, x1: int, y1: int, x2: int, y2: int)
  {
    Between(x1, p.x, x2) && Between(y1, p.y, y2)
  }

  /** One step of the walk: each coordinate stays or moves by the axis step,
      and at least one of them moves. */
  predicate LineStep(p: Cell, q: Cell, sx: int, sy: int)
  {
    (q.x == p.x || q.x == p.x + sx) && (q.y == p.y || q.y == p.y + sy) && p != q
  }

  /** A step of the walk joins two 8-neighbours. */
  lemma LineStepIsEightNeighbour(p: Cell, q: Cell, sx: int, sy: int)
    requires sx == 1 || sx == -1
    requires sy == 1 || sy == -1
    requires LineStep(p, q, sx, sy)
    ensures Max(Abs(q.x - p.x), Abs(q.y - p.y)) == 1
  {
  }

  /** The starting error term, halving the major delta with the division
      truncated towards zero (see InitialErrorAsWritten for the source's
      floor division). */
  function InitialError(dx: nat, dy: nat): (e: int)
    ensures dx > dy ==> 0 <= e <= dx / 2
    ensures dx <= dy ==> -(dy / 2) <= e <= 0
  {
    if dx > dy then dx / 2 else -(dy / 2)
  }

  /** The products the walk state needs, stepped down by one. */
  lemma MulFacts(u: int, d: int)
    requires u >= 0 && d >= 0
    ensures (u - 1) * d == u * d - d
    ensures u == 0 ==> u * d == 0
    ensures u >= 1 ==> u * d >= d
  {
  }

  /** The arithmetic state of the walk: `u` and `v` are the steps still to
      take along x and y, and the error term is the starting error plus the
      signed area `u * dy - v * dx` between the walk and the ideal segment.
      Along the major axis the error keeps to one side of zero. */
  ghost predicate WalkState(dx: int, dy: int, u: int, v: int, err: int)
  {
    0 <= dx && 0 <= dy && 0 <= u <= dx && 0 <= v <= dy &&
    err == InitialError(dx, dy) + u * dy - v * dx &&
    (dx > dy ==> 0 <= err <= dx) &&
    (dx <= dy ==> -dy <= err <= 0)
  }

  /** One pass of the loop body keeps the walk state, never steps past an
      endpoint, and always steps along the major axis. Here `e2` is the
      error before the pass, and `u'`, `v'` and `err'` are the state after
      it. */
  lemma WalkStep(dx: int, dy: int, u: int, v: int, e2: int, u': int, v': int, err': int)
    requires WalkState(dx, dy, u, v, e2)
    requires u != 0 || v != 0
    requires u' == (if e2 > -dx then u - 1 else u)
    requires v' == (if e2 < dy then v - 1 else v)
    requires err' == e2 - (if e2 > -dx then dy else 0) + (if e2 < dy then dx else 0)
    ensures dx > dy ==> e2 > -dx
    ensures dx <= dy ==> e2 < dy
    ensures WalkState(dx, dy, u', v', err')
  {
    MulFacts(u, dy);
    MulFacts(v, dx);
  }

  /** Consecutive points of `s` are steps of the walk. */
  predicate IsWalk(s: seq<Cell>, sx: int, sy: int)
  {
    forall k :: 0 <= k < |s| - 1 ==> LineStep(s[k], s[k + 1], sx, sy)
  }

  /** Every point of `s` lies in the box of the segment. */
  predicate AllInBox(s: seq<Cell>, x1: int, y1: int, x2: int, y2: int)
  {
    forall k :: 0 <= k < |s| ==> InBox(s[k], x1, y1, x2, y2)
  }

  /** Appending one more step to a walk inside the box. */
  lemma WalkExtend(s: seq<Cell>, c: Cell, sx: int, sy: int, x1: int, y1: int, x2: int, y2: int)
    requires |s| > 0 && IsWalk(s, sx, sy) && LineStep(s[|s| - 1], c, sx, sy)
    requires AllInBox(s, x1, y1, x2, y2) && InBox(c, x1, y1, x2, y2)
    ensures IsWalk(s + [c], sx, sy) && AllInBox(s + [c], x1, y1, x2, y2)
    ensures (s + [c])[0] == s[0]
  {
    var t := s + [c];
    forall k | 0 <= k < |t| - 1 ensures LineStep(t[k], t[k + 1], sx, sy)
    {
      if k < |s| - 1 {
        assert t[k] == s[k] && t[k + 1] == s[k + 1];
      }
    }
    assert forall k :: 0 <= k < |s| ==> t[k] == s[k];
  }

  /** The k-th point of `s` is the k-th point of the walk. */
  predicate OnWalk(s: seq<Cell>, x1: int, y1: int, x2: int, y2: int)
  {
    forall k :: 0 <= k < |s| ==> s[k] == Walk(x1, y1, x2, y2, k).0
  }

  lemma OnWalkExtend(s: seq<Cell>, c: Cell, x1: int, y1: int, x2: int, y2: int)
    requires OnWalk(s, x1, y1, x2, y2) && Walk(x1, y1, x2, y2, |s|).0 == c
    ensures OnWalk(s + [c], x1, y1, x2, y2)
  {
    var t := s + [c];
    forall k | 0 <= k < |t| ensures t[k] == Walk(x1, y1, x2, y2, k).0
    {
      if k < |s| {
        assert t[k] == s[k];
      }
    }
  }

  /** The points of the walk from (x1, y1) to (x2, y2), one per pass up to
      the larger delta: the list BresenhamLine returns. */
  function Line(x1: int, y1: int, x2: int, y2: int): seq<Cell>
  {
    seq(Max(Abs(x2 - x1), Abs(y2 - y1)) + 1, k requires 0 <= k => Walk(x1, y1, x2, y2, k).0)
  }

  /** A list of points as long as the line that follows the walk is the
      line. */
  lemma OnWalkIsLine(s: seq<Cell>, x1: int, y1: int, x2: int, y2: int)
    requires |s| == Max(Abs(x2 - x1), Abs(y2 - y1)) + 1 && OnWalk(s, x1, y1, x2, y2)
    ensures s == Line(x1, y1, x2, y2)
  {
    var l := Line(x1, y1, x2, y2);
    assert |s| == |l|;
    forall k | 0 <= k < |s| ensures s[k] == l[k]
    {
    }
  }

  /** The walk after k + 1 passes is one pass of the loop body of lines
      41-51 from the walk after k passes. */
  lemma WalkNext(x1: int, y1: int, x2: int, y2: int, k: nat)
    ensures Walk(x1, y1, x2, y2, k + 1) == StepOnce(x1, y1, x2, y2, Walk(x1, y1, x2, y2, k))
  {
  }

  /** The lattice points from (x1, y1) to (x2, y2), stepping an integer
      error term. The walk starts at the first endpoint, ends at the second,
      moves each coordinate only towards its endpoint and by at most one per
      step, stays in the bounding box of the endpoints and takes exactly as
      many steps as the larger of the two deltas. */
  method BresenhamLine(x1: int, y1: int, x2: int, y2: int) returns (points: seq<Cell>)
    ensures |points| == Max(Abs(x2 - x1), Abs(y2 - y1)) + 1
    ensures points[0] == Cell(x1, y1)
    ensures points[|points| - 1] == Cell(x2, y2)
    ensures forall k :: 0 <= k < |points| - 1 ==>
              LineStep(points[k], points[k + 1], StepDir(x1, x2), StepDir(y1, y2))
    ensures forall k :: 0 <= k < |points| ==> InBox(points[k], x1, y1, x2, y2)
    ensures OnWalk(points, x1, y1, x2, y2)
  {
    var dx: int := Abs(x2 - x1);
    var dy: int := Abs(y2 - y1);
    var sx := StepDir(x1, x2);
    var sy := StepDir(y1, y2);
    var err := InitialError(dx, dy);
    var x, y := x1, y1;
    // steps still to take along each axis
    ghost var u: int, v: int := dx, dy;
    points := [];
    while true
      invariant WalkState(dx, dy, u, v, err)
      invariant x == (if sx == 1 then x2 - u else x2 + u)
      invariant y == (if sy == 1 then y2 - v else y2 + v)
      invariant |points| == (if dx > dy then dx - u else dy - v)
      invariant (points + [Cell(x, y)])[0] == Cell(x1, y1)
      invariant IsWalk(points + [Cell(x, y)], sx, sy)
      invariant AllInBox(points + [Cell(x, y)], x1, y1, x2, y2)
      invariant Walk(x1, y1, x2, y2, |points|) == (Cell(x, y), err)
      invariant OnWalk(points, x1, y1, x2, y2)
      decreases u + v
    {
      var c := Cell(x, y);
      OnWalkExtend(points, c, x1, y1, x2, y2);
      points := points + [c];
      if x == x2 && y == y2 {
        break;
      }
      x, y, err, u, v := Advance(x1, y1, x2, y2, x, y, err, u, v);
      WalkNext(x1, y1, x2, y2, |points| - 1);
      WalkExtend(points, Cell(x, y), sx, sy, x1, y1, x2, y2);
    }
  }

  /** One pass of the loop body (lines 42-51) away from the end point: x
      moves when the error is above `-dx`, y when it is below `dy`, both
      tests reading the error from before the pass. It is the step of the
      walk, keeps the walk state and the box, and takes one step off the
      major axis's remaining count. */
  method Advance(x1: int, y1: int, x2: int, y2: int, x: int, y: int, err: int, ghost u: int, ghost v: int)
    returns (x': int, y': int, err': int, ghost u': int, ghost v': int)
    requires WalkState(Abs(x2 - x1), Abs(y2 - y1), u, v, err)
    requires x == (if StepDir(x1, x2) == 1 then x2 - u else x2 + u)
    requires y == (if StepDir(y1, y2) == 1 then y2 - v else y2 + v)
    requires x != x2 || y != y2
    ensures (Cell(x', y'), err') == StepOnce(x1, y1, x2, y2, (Cell(x, y), err))
    ensures WalkState(Abs(x2 - x1), Abs(y2 - y1), u', v', err')
    ensures x' == (if StepDir(x1, x2) == 1 then x2 - u' else x2 + u')
    ensures y' == (if StepDir(y1, y2) == 1 then y2 - v' else y2 + v')
    ensures Abs(x2 - x1) > Abs(y2 - y1) ==> u' == u - 1
    ensures Abs(x2 - x1) <= Abs(y2 - y1) ==> v' == v - 1
    ensures u' <= u && v' <= v
    ensures LineStep(Cell(x, y), Cell(x', y'), StepDir(x1, x2), StepDir(y1, y2))
    ensures InBox(Cell(x', y'), x1, y1, x2, y2)
  {
    var dx: int := Abs(x2 - x1);
    var dy: int := Abs(y2 - y1);
    var e2 := err;
    x', y', err', u', v' := x, y, err, u, v;
    if e2 > -dx {
      err' := err' - dy;
      x' := x' + StepDir(x1, x2);
      u' := u' - 1;
    }
    if e2 < dy {
      err' := err' + dx;
      y' := y' + StepDir(y1, y2);
      v' := v' - 1;
    }
    WalkStep(dx, dy, u, v, e2, u', v', err');
  }

  /** The starting error term exactly as the source computes it: Python's
      `-dy // 2` floors, so for odd `dy` on a y-major line it is one below
      the truncated value; on every other input the two agree. (Dafny's `/`
      also floors when the divisor is positive.) */
  function InitialErrorAsWritten(dx: nat, dy: nat): (e: int)
    ensures dx <= dy && dy % 2 == 1 ==> e == InitialError(dx, dy) - 1
    ensures !(dx <= dy && dy % 2 == 1) ==> e == InitialError(dx, dy)
  {
    if dx > dy then dx / 2 else (-(dy as int)) / 2
  }

  /** One pass through the loop body: x moves when the error is above
      `-dx`, y when it is below `dy`, and the error is adjusted by each
      move. The tests both read the error from before the pass. */
  function StepOnce(x1: int, y1: int, x2: int, y2: int, state: (Cell, int)): (Cell, int)
  {
    var dx: int, dy: int := Abs(x2 - x1), Abs(y2 - y1);
    var (p, e2) := state;
    var (x, err1) := if e2 > -dx then (p.x + StepDir(x1, x2), e2 - dy) else (p.x, e2);
    var (y, err2) := if e2 < dy then (p.y + StepDir(y1, y2), err1 + dx) else (p.y, err1);
    (Cell(x, y), err2)
  }

  /** The point and error term of the loop after `k` passes through it,
      not counting the exit test, when the error starts at `e0`. */
  function WalkFrom(x1: int, y1: int, x2: int, y2: int, e0: int, k: nat): (Cell, int)
  {
    if k == 0 then (Cell(x1, y1), e0)
    else StepOnce(x1, y1, x2, y2, WalkFrom(x1, y1, x2, y2, e0, k - 1))
  }

  /** The walk BresenhamLine takes, with the truncated start error. */
  function Walk(x1: int, y1: int, x2: int, y2: int, k: nat): (Cell, int)
  {
    WalkFrom(x1, y1, x2, y2, InitialError(Abs(x2 - x1), Abs(y2 - y1)), k)
  }

  /** The walk exactly as the source takes it, with the floored start
      error. Except on y-major lines with odd `dy` it is the walk
      BresenhamLine takes. */
  function WalkAsWritten(x1: int, y1: int, x2: int, y2: int, k: nat): (r: (Cell, int))
    ensures !(Abs(x2 - x1) <= Abs(y2 - y1) && Abs(y2 - y1) % 2 == 1) ==> r == Walk(x1, y1, x2, y2, k)
  {
    WalkFrom(x1, y1, x2, y2, InitialErrorAsWritten(Abs(x2 - x1), Abs(y2 - y1)), k)
  }

  lemma {:induction false} DiagonalWalkAsWritten(k: nat)
    requires k >= 1
    ensures WalkAsWritten(0, 0, 1, 1, k) == (Cell(k - 1, k), 0)
  {
    if k > 1 {
      DiagonalWalkAsWritten(k - 1);
    }
  }

  /** As written, the walk from (0, 0) towards (1, 1) overshoots in y at
      its first step and never visits (1, 1): the loop's exit test never
      fires and the point list grows without end. */
  lemma AsWrittenNeverReachesEnd(k: nat)
    ensures WalkAsWritten(0, 0, 1, 1, k).0 != Cell(1, 1)
  {
    if k >= 1 {
      DiagonalWalkAsWritten(k);
    }
  }

  /** On a steep line with odd `dy` that the source does finish, the two
      start errors draw different points: from (0, 0) to (1, 3) the source
      passes (0, 2), the truncated walk (1, 2). */
  lemma AsWrittenDrawsOtherPoints()
    ensures WalkAsWritten(0, 0, 1, 3, 2).0 == Cell(0, 2)
    ensures Walk(0, 0, 1, 3, 2).0 == Cell(1, 2)
    ensures WalkAsWritten(0, 0, 1, 3, 3).0 == Walk(0, 0, 1, 3, 3).0 == Cell(1, 3)
  {
  }
}
