/** The driver `connect_all_zeros`: removes tiny zero components, then
    carves Bresenham paths of zeros between components until at most one
    is left. */
module Connect {
  import opened Lattice
  import opened ZeroComponents
  import opened Bresenham
  import opened Bridging

  // ---------------------------------------------------------------------
  // Cleanup of tiny components

  /** Components of at most this many cells are filled with ones. */
  const SmallComponentSize := 4

  /** `c` lies in one of the first `n` entries of `comps` that has at most
      SmallComponentSize cells. */
  predicate SmallUpTo(comps: seq<seq<Cell>>, n: int, c: Cell)
    requires n <= |comps|
  {
    exists k :: 0 <= k < n && |comps[k]| <= SmallComponentSize && c in comps[k]
  }

  predicate InSmall(comps: seq<seq<Cell>>, c: Cell)
  {
    SmallUpTo(comps, |comps|, c)
  }

  /** `g1` is `g0` with every cell of a small entry of `comps` set to 1. */
  ghost predicate CleanedBy(g0: Grid, comps: seq<seq<Cell>>, g1: Grid)
  {
    SameShape(g0, g1) &&
    forall x, y :: 0 <= x < |g0| && 0 <= y < |g0[x]| ==>
      g1[x][y] == (if InSmall(comps, Cell(x, y)) then 1 else g0[x][y])
  }

  /** Sets every cell of every entry of `comps` with at most four cells to 1
      and leaves all other cells as they were. */
  method RemoveSmallComponents(m: array2<int>, comps: seq<seq<Cell>>)
    modifies m
    requires forall k, c :: 0 <= k < |comps| && c in comps[k] ==> 0 <= c.x < m.Length0 && 0 <= c.y < m.Length1
    ensures forall x, y :: 0 <= x < m.Length0 && 0 <= y < m.Length1 ==>
              m[x, y] == (if InSmall(comps, Cell(x, y)) then 1 else old(m[x, y]))
  {
    for k := 0 to |comps|
      invariant forall x, y :: 0 <= x < m.Length0 && 0 <= y < m.Length1 ==>
                  m[x, y] == (if SmallUpTo(comps, k, Cell(x, y)) then 1 else old(m[x, y]))
    {
      var comp := comps[k];
      if |comp| <= SmallComponentSize {
        for t := 0 to |comp|
          invariant forall x, y :: 0 <= x < m.Length0 && 0 <= y < m.Length1 ==>
                      m[x, y] == (if SmallUpTo(comps, k, Cell(x, y)) || Cell(x, y) in comp[..t] then 1 else old(m[x, y]))
        {
          var c := comp[t];
          m[c.x, c.y] := 1;
          assert comp[..t + 1] == comp[..t] + [c];
        }
        assert comp[..|comp|] == comp;
      }
      forall c ensures SmallUpTo(comps, k + 1, c) <==> SmallUpTo(comps, k, c) || (|comp| <= SmallComponentSize && c in comp)
      {
        if SmallUpTo(comps, k + 1, c) && !SmallUpTo(comps, k, c) {
          var k' :| 0 <= k' < k + 1 && |comps[k']| <= SmallComponentSize && c in comps[k'];
          assert k' == k;
        }
      }
    }
  }

  /** A large entry of a decomposition is still a component after the
      cleanup: none of its cells was filled and its zero neighbours were
      zero before. */
  lemma LargeComponentSurvives(g0: Grid, comps: seq<seq<Cell>>, g1: Grid, k: nat)
    requires IsComponentList(g0, comps) && CleanedBy(g0, comps, g1)
    requires k < |comps| && |comps[k]| > SmallComponentSize
    ensures IsComponent(g1, comps[k])
  {
    var s := comps[k];
    forall c | c in s ensures !InSmall(comps, c)
    {
      forall j | 0 <= j < |comps| && |comps[j]| <= SmallComponentSize ensures c !in comps[j]
      {
        if j < k {
          assert Disjoint(comps[j], comps[k]);
        } else {
          assert Disjoint(comps[k], comps[j]);
        }
      }
    }
    assert IsComponent(g0, s);
    forall c | c in s ensures IsZero(g1, c)
    {
      assert IsZero(g0, c);
    }
    forall a, b | a in s && Adjacent(a, b) && IsZero(g1, b) ensures b in s
    {
      assert !InSmall(comps, b);
      assert IsZero(g0, b);
    }
  }

  /** After the cleanup every zero component has more than four cells. */
  lemma CleanupLeavesLargeComponents(g0: Grid, comps: seq<seq<Cell>>, g1: Grid, s: seq<Cell>)
    requires IsComponentList(g0, comps) && CleanedBy(g0, comps, g1)
    requires IsComponent(g1, s)
    ensures |s| > SmallComponentSize
  {
    var c := s[0];
    assert IsZero(g1, c);
    assert !InSmall(comps, c) && IsZero(g0, c);
    var k :| 0 <= k < |comps| && c in comps[k];
    assert |comps[k]| > SmallComponentSize;
    LargeComponentSurvives(g0, comps, g1, k);
    ComponentsSharingACellSameSize(g1, s, comps[k], c);
  }

  // ---------------------------------------------------------------------
  // Carving a path

  /** Clamps `v` into `[0, n - 1]`, first from below, then from above. */
  function Clamp(v: int, n: int): (r: int)
    ensures n > 0 ==> 0 <= r < n
    ensures n > 0 && 0 <= v < n ==> r == v
  {
    var v' := if v < 0 then 0 else v;
    if v' >= n then n - 1 else v'
  }

  /** The `ii`-th cell of the diagonal of width `w` laid through `p`,
      clamped to a `rows` by `cols` grid. */
  function Offset(p: Cell, ii: int, w: int, rows: int, cols: int): (c: Cell)
    ensures rows > 0 && cols > 0 ==> 0 <= c.x < rows && 0 <= c.y < cols
  {
    Cell(Clamp(p.x + ii - w / 2, rows), Clamp(p.y + ii - w / 2, cols))
  }

  /** `c` is `p` or one of the first `upTo` diagonal cells laid through it. */
  predicate CarvedFrom(p: Cell, w: int, rows: int, cols: int, upTo: int, c: Cell)
  {
    c == p || exists ii :: 0 <= ii < upTo && c == Offset(p, ii, w, rows, cols)
  }

  /** `c` is carved by one of the first `n` points of `path`. */
  predicate Carved(path: seq<Cell>, w: int, rows: int, cols: int, n: int, c: Cell)
    requires n <= |path|
  {
    exists k :: 0 <= k < n && CarvedFrom(path[k], w, rows, cols, w, c)
  }

  /** Writes 0 at `p` and at the `pathWidth` clamped diagonal cells laid
      through it; nothing else changes. */
  method CarveAround(m: array2<int>, p: Cell, pathWidth: int)
    modifies m
    requires 0 <= p.x < m.Length0 && 0 <= p.y < m.Length1
    ensures forall x, y :: 0 <= x < m.Length0 && 0 <= y < m.Length1 ==>
              m[x, y] == (if CarvedFrom(p, pathWidth, m.Length0, m.Length1, pathWidth, Cell(x, y)) then 0 else old(m[x, y]))
  {
    ghost var rows, cols := m.Length0, m.Length1;
    m[p.x, p.y] := 0;
    var ii := 0;
    while ii < pathWidth
      invariant 0 <= ii && (ii == 0 || ii <= pathWidth)
      invariant forall x, y :: 0 <= x < rows && 0 <= y < cols ==>
                  m[x, y] == (if CarvedFrom(p, pathWidth, rows, cols, ii, Cell(x, y)) then 0 else old(m[x, y]))
      decreases pathWidth - ii
    {
      var q := Offset(p, ii, pathWidth, m.Length0, m.Length1);
      m[q.x, q.y] := 0;
      forall c ensures CarvedFrom(p, pathWidth, rows, cols, ii + 1, c) <==> CarvedFrom(p, pathWidth, rows, cols, ii, c) || c == q
      {
        if CarvedFrom(p, pathWidth, rows, cols, ii + 1, c) && c != p {
          var e :| 0 <= e < ii + 1 && c == Offset(p, e, pathWidth, rows, cols);
          if e < ii {
            assert CarvedFrom(p, pathWidth, rows, cols, ii, c);
          }
        }
      }
      ii := ii + 1;
    }
    if pathWidth <= 0 {
      assert ii == 0;
      forall c | CarvedFrom(p, pathWidth, rows, cols, pathWidth, c) ensures c == p
      {
        if c != p {
          assert false;
        }
      }
    }
  }

  /** Writes 0 at every point of `path` and at the `pathWidth` clamped
      diagonal cells laid through each; nothing else changes. */
  method Carve(m: array2<int>, path: seq<Cell>, pathWidth: int)
    modifies m
    requires forall k :: 0 <= k < |path| ==> 0 <= path[k].x < m.Length0 && 0 <= path[k].y < m.Length1
    ensures forall x, y :: 0 <= x < m.Length0 && 0 <= y < m.Length1 ==>
              m[x, y] == (if Carved(path, pathWidth, m.Length0, m.Length1, |path|, Cell(x, y)) then 0 else old(m[x, y]))
  {
    ghost var rows, cols := m.Length0, m.Length1;
    for k := 0 to |path|
      invariant forall x, y :: 0 <= x < rows && 0 <= y < cols ==>
                  m[x, y] == (if Carved(path, pathWidth, rows, cols, k, Cell(x, y)) then 0 else old(m[x, y]))
    {
      var p := path[k];
      CarveAround(m, p, pathWidth);
      forall c ensures Carved(path, pathWidth, rows, cols, k + 1, c) <==>
                         Carved(path, pathWidth, rows, cols, k, c) || CarvedFrom(p, pathWidth, rows, cols, pathWidth, c)
      {
        if Carved(path, pathWidth, rows, cols, k + 1, c) && !Carved(path, pathWidth, rows, cols, k, c) {
          var k' :| 0 <= k' < k + 1 && CarvedFrom(path[k'], pathWidth, rows, cols, pathWidth, c);
          assert k' == k;
        }
      }
    }
  }

  // ---------------------------------------------------------------------
  // The main loop

  /** The cells of value 1. */
  ghost function Ones(g: Grid): set<Cell>
  {
    set x, y | 0 <= x < |g| && 0 <= y < |g[x]| && g[x][y] == 1 :: Cell(x, y)
  }

  /** Writing only zeros, one of them over a 1, leaves fewer ones. This
      bounds the number of rounds of the main loop. */
  lemma FewerOnes(g: Grid, h: Grid, c: Cell)
    requires SameShape(g, h)
    requires forall x, y :: 0 <= x < |g| && 0 <= y < |g[x]| ==> h[x][y] == 0 || h[x][y] == g[x][y]
    requires IsOne(g, c) && h[c.x][c.y] == 0
    ensures |Ones(h)| < |Ones(g)|
  {
    forall d | d in Ones(h) ensures d in Ones(g) - {c}
    {
      assert h[d.x][d.y] == 1;
    }
    assert c in Ones(g);
    assert Ones(h) <= Ones(g) - {c};
    SubsetCard(Ones(h), Ones(g) - {c});
  }

  lemma {:induction false} SubsetCard(a: set<Cell>, b: set<Cell>)
    requires a <= b
    ensures |a| <= |b|
    decreases |b|
  {
    if a != {} {
      var x :| x in a;
      SubsetCard(a - {x}, b - {x});
    }
  }

  /** How the driver ends: the zero cells are connected, or no pair of
      bordering ones was selected (the source then fails on
      `best_pair[0]`). */
  datatype Outcome = Connected | NoPairFound

  /** `h` is `g` with 0 written at every cell that `path` carves in a
      `rows` by `cols` matrix, and every other cell unchanged. */
  ghost predicate CarvedGrid(g: Grid, h: Grid, path: seq<Cell>, pathWidth: int, rows: int, cols: int)
  {
    SameShape(g, h) &&
    forall x, y :: 0 <= x < |g| && 0 <= y < |g[x]| ==>
      h[x][y] == if Carved(path, pathWidth, rows, cols, |path|, Cell(x, y)) then 0 else g[x][y]
  }

  /** Carves the Bresenham line from the 1 at `p1` to `p2` (lines
      164-174): exactly the cells the line and its band carve become 0,
      both endpoints among them, so the number of ones falls. */
  method CarveBridge(m: array2<int>, pathWidth: int, p1: Cell, p2: Cell)
    modifies m
    requires IsOne(Snapshot(m), p1)
    requires 0 <= p2.x < m.Length0 && 0 <= p2.y < m.Length1
    ensures forall x, y :: 0 <= x < m.Length0 && 0 <= y < m.Length1 ==>
              m[x, y] == (if Carved(Line(p1.x, p1.y, p2.x, p2.y), pathWidth, m.Length0, m.Length1,
                                    |Line(p1.x, p1.y, p2.x, p2.y)|, Cell(x, y)) then 0 else old(m[x, y]))
    ensures CarvedGrid(old(Snapshot(m)), Snapshot(m), Line(p1.x, p1.y, p2.x, p2.y), pathWidth, m.Length0, m.Length1)
    ensures m[p1.x, p1.y] == 0 && m[p2.x, p2.y] == 0
    ensures forall x, y :: 0 <= x < m.Length0 && 0 <= y < m.Length1 ==> m[x, y] == 0 || m[x, y] == old(m[x, y])
    ensures |Ones(Snapshot(m))| < |Ones(old(Snapshot(m)))|
  {
    ghost var before := Snapshot(m);
    var path := BresenhamLine(p1.x, p1.y, p2.x, p2.y);
    OnWalkIsLine(path, p1.x, p1.y, p2.x, p2.y);
    Carve(m, path, pathWidth);
    ghost var after := Snapshot(m);
    assert Carved(path, pathWidth, m.Length0, m.Length1, |path|, path[0]);
    assert Carved(path, pathWidth, m.Length0, m.Length1, |path|, path[|path| - 1]);
    assert after[p1.x][p1.y] == 0;
    forall x, y | 0 <= x < |before| && 0 <= y < |before[x]|
      ensures after[x][y] == if Carved(path, pathWidth, m.Length0, m.Length1, |path|, Cell(x, y)) then 0 else before[x][y]
    {
      assert after[x][y] == m[x, y];
    }
    FewerOnes(before, after, p1);
  }

  /** One round of the main loop (lines 152-174): `borders` are the
      bordering ones of the components of the matrix and `best` is the pair
      selected from them. A round carves exactly when a pair is selected,
      and then it carves precisely the Bresenham line between the pair's
      cells with its band, both cells among them, so fewer ones are left.
      Otherwise nothing changes and no ordered pair of differing border
      sets gives a pair closer than InitialBound. */
  method BridgeOnce(m: array2<int>, pathWidth: int, comps: seq<seq<Cell>>)
    returns (carved: bool, ghost borders: seq<set<Cell>>, ghost best: Candidate)
    modifies m
    requires IsComponentList(Snapshot(m), comps)
    ensures IsBorderList(old(Snapshot(m)), comps, borders) && IsSelection(borders, best)
    ensures carved <==> best.Pair?
    ensures carved ==>
              CarvedGrid(old(Snapshot(m)), Snapshot(m), Line(best.p1.x, best.p1.y, best.p2.x, best.p2.y),
                         pathWidth, m.Length0, m.Length1)
    ensures carved ==>
              0 <= best.p1.x < m.Length0 && 0 <= best.p1.y < m.Length1 &&
              0 <= best.p2.x < m.Length0 && 0 <= best.p2.y < m.Length1 &&
              m[best.p1.x, best.p1.y] == 0 && m[best.p2.x, best.p2.y] == 0
    ensures forall x, y :: 0 <= x < m.Length0 && 0 <= y < m.Length1 ==> m[x, y] == 0 || m[x, y] == old(m[x, y])
    ensures carved ==> |Ones(Snapshot(m))| < |Ones(old(Snapshot(m)))|
    ensures carved && 1 < |comps| ==> Round(old(Snapshot(m)), Snapshot(m), pathWidth, m.Length0, m.Length1)
    ensures !carved ==> Snapshot(m) == old(Snapshot(m))
    ensures !carved ==>
              IsBorderList(Snapshot(m), comps, borders) &&
              forall a, b :: 0 <= a < |borders| && 0 <= b < |borders| ==> !Beats(borders, a, b, InitialBound)
  {
    ghost var before := Snapshot(m);
    var bs := FindAllBorders(m, comps);
    borders := bs;
    var pick := SelectBestPair(bs);
    best := pick;
    assert IsSelection(bs, pick);
    if pick.NoPair? {
      assert Bound(pick) == InitialBound;
      return false, borders, best;
    }
    ghost var a :| 0 <= a < |bs| && pick.p1 in bs[a];
    ghost var b :| 0 <= b < |bs| && pick.p2 in bs[b];
    BorderCellIsOne(before, comps, bs, a, pick.p1);
    CarveBridge(m, pathWidth, pick.p1, pick.p2);
    carved := true;
    if 1 < |comps| {
      assert RoundBy(before, comps, borders, best, Snapshot(m), pathWidth, m.Length0, m.Length1);
    }
  }

  /** One round of the main loop from `g` to `h`, in a `rows` by `cols`
      matrix: `comps`, more than one, are the components of `g`, `borders`
      their bordering ones, `best` the selected pair, and `h` is `g` with
      the Bresenham line between the pair's cells carved. */
  ghost predicate RoundBy(g: Grid, comps: seq<seq<Cell>>, borders: seq<set<Cell>>, best: Candidate, h: Grid,
                          pathWidth: int, rows: int, cols: int)
  {
    IsComponentList(g, comps) && 1 < |comps| &&
    IsBorderList(g, comps, borders) && IsSelection(borders, best) && best.Pair? &&
    CarvedGrid(g, h, Line(best.p1.x, best.p1.y, best.p2.x, best.p2.y), pathWidth, rows, cols)
  }

  /** `h` follows from `g` by one round of the main loop. */
  ghost predicate Round(g: Grid, h: Grid, pathWidth: int, rows: int, cols: int)
  {
    exists comps, borders, best :: RoundBy(g, comps, borders, best, h, pathWidth, rows, cols)
  }

  /** Each grid of `grids` follows from the one before by a round. */
  ghost predicate IsRun(grids: seq<Grid>, pathWidth: int, rows: int, cols: int)
  {
    forall k :: 0 <= k < |grids| - 1 ==> Round(grids[k], grids[k + 1], pathWidth, rows, cols)
  }

  /** A run followed by one more round is a run. */
  lemma RunSnoc(grids: seq<Grid>, h: Grid, pathWidth: int, rows: int, cols: int)
    requires |grids| > 0 && IsRun(grids, pathWidth, rows, cols)
    requires Round(grids[|grids| - 1], h, pathWidth, rows, cols)
    ensures IsRun(grids + [h], pathWidth, rows, cols)
  {
    var t := grids + [h];
    forall k | 0 <= k < |t| - 1 ensures Round(t[k], t[k + 1], pathWidth, rows, cols)
    {
      if k < |grids| - 1 {
        assert t[k] == grids[k] && t[k + 1] == grids[k + 1];
      }
    }
  }

  /** The main loop of `connect_all_zeros`: while there is more than one
      component, run a bridging round and recompute the components. Each
      round leaves fewer ones, so the loop ends. `grids` is the matrix
      before each round and at the end, each following from the one before
      by a round; on return `comps` is the decomposition of the matrix, and
      there is at most one component exactly when the outcome is Connected.
      NoPairFound means that `borders`, the border sets of the components,
      holds no ordered pair of differing sets with a pair closer than
      InitialBound. */
  method CarveUntilConnected(m: array2<int>, pathWidth: int, comps0: seq<seq<Cell>>)
    returns (outcome: Outcome, comps: seq<seq<Cell>>, ghost borders: seq<set<Cell>>, ghost grids: seq<Grid>)
    modifies m
    requires IsComponentList(Snapshot(m), comps0)
    ensures |grids| > 0 && grids[0] == old(Snapshot(m)) && grids[|grids| - 1] == Snapshot(m)
    ensures IsRun(grids, pathWidth, m.Length0, m.Length1)
    ensures forall x, y :: 0 <= x < m.Length0 && 0 <= y < m.Length1 ==> m[x, y] == 0 || m[x, y] == old(m[x, y])
    ensures IsComponentList(Snapshot(m), comps)
    ensures outcome == Connected <==> |comps| <= 1
    ensures outcome == NoPairFound ==>
              IsBorderList(Snapshot(m), comps, borders) &&
              forall a, b :: 0 <= a < |borders| && 0 <= b < |borders| ==> !Beats(borders, a, b, InitialBound)
  {
    comps := comps0;
    borders := [];
    grids := [Snapshot(m)];
    while |comps| > 1
      invariant |grids| > 0 && grids[0] == old(Snapshot(m)) && grids[|grids| - 1] == Snapshot(m)
      invariant IsRun(grids, pathWidth, m.Length0, m.Length1)
      invariant forall x, y :: 0 <= x < m.Length0 && 0 <= y < m.Length1 ==> m[x, y] == 0 || m[x, y] == old(m[x, y])
      invariant IsComponentList(Snapshot(m), comps)
      decreases |Ones(Snapshot(m))|
    {
      var carved;
      ghost var best;
      carved, borders, best := BridgeOnce(m, pathWidth, comps);
      if !carved {
        return NoPairFound, comps, borders, grids;
      }
      RunSnoc(grids, Snapshot(m), pathWidth, m.Length0, m.Length1);
      grids := grids + [Snapshot(m)];
      comps := FindComponents(m);
    }
    outcome := Connected;
  }

  /** Runs `connect_all_zeros` on `m`. The first decomposition is `comps0`;
      cleaning it up gives `cleaned`, in which every zero component has
      more than four cells; after that only zeros are written. On return
      `comps` is the decomposition of the final matrix, and the zeros are
      connected exactly when it has at most one component; otherwise no
      pair of bordering ones below InitialBound was found. */
  method ConnectAllZeros(m: array2<int>, pathWidth: int)
    returns (outcome: Outcome, comps: seq<seq<Cell>>, ghost comps0: seq<seq<Cell>>, ghost cleaned: Grid,
             ghost borders: seq<set<Cell>>, ghost grids: seq<Grid>)
    modifies m
    ensures IsComponentList(old(Snapshot(m)), comps0)
    ensures CleanedBy(old(Snapshot(m)), comps0, cleaned)
    ensures forall s :: IsComponent(cleaned, s) ==> |s| > SmallComponentSize
    ensures forall x, y :: 0 <= x < m.Length0 && 0 <= y < m.Length1 ==> m[x, y] == 0 || m[x, y] == cleaned[x][y]
    ensures IsComponentList(Snapshot(m), comps)
    ensures outcome == Connected <==> |comps| <= 1
    ensures outcome == NoPairFound ==>
              IsBorderList(Snapshot(m), comps, borders) &&
              forall a, b :: 0 <= a < |borders| && 0 <= b < |borders| ==> !Beats(borders, a, b, InitialBound)
    ensures |grids| > 0 && grids[0] == cleaned && grids[|grids| - 1] == Snapshot(m)
    ensures IsRun(grids, pathWidth, m.Length0, m.Length1)
  {
    ghost var g0 := Snapshot(m);
    var first := FindComponents(m);
    comps0 := first;
    borders := [];
    forall k, c: Cell | 0 <= k < |first| && c in first[k] ensures 0 <= c.x < m.Length0 && 0 <= c.y < m.Length1
    {
      assert IsComponent(g0, first[k]);
      assert IsZero(g0, c);
    }
    RemoveSmallComponents(m, first);
    cleaned := Snapshot(m);
    forall s | IsComponent(cleaned, s) ensures |s| > SmallComponentSize
    {
      CleanupLeavesLargeComponents(g0, first, cleaned, s);
    }
    comps := FindComponents(m);
    if |comps| <= 1 {
      return Connected, comps, comps0, cleaned, borders, [cleaned];
    }
    outcome, comps, borders, grids := CarveUntilConnected(m, pathWidth, comps);
  }
}
