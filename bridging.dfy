/** Choosing where to carve a bridge between two zero components
    (`find_bordering_ones`, `find_min_lattice_distance_optimized` and the
    pair selection inside the main loop of `connect_all_zeros`). */
module Bridging {
  import opened Lattice

  // ---------------------------------------------------------------------
  // Bordering ones

  /** Collects the in-bounds cells of value 1 that are 4-adjacent to some
      cell of `component`. */
  method FindBorderingOnes(m: array2<int>, component: seq<Cell>) returns (ones: set<Cell>)
    ensures forall c :: c in ones <==> IsOne(Snapshot(m), c) && exists a :: a in component && Adjacent(a, c)
  {
    ghost var g := Snapshot(m);
    ones := {};
    for k := 0 to |component|
      invariant forall c :: c in ones <==> IsOne(g, c) && exists i :: 0 <= i < k && Adjacent(component[i], c)
    {
      var a := component[k];
      ghost var before := ones;
      for d := 0 to |Directions|
        invariant forall c :: c in ones <==> c in before || (IsOne(g, c) && exists e :: 0 <= e < d && c == Neighbour(a, e))
      {
        var n := Neighbour(a, d);
        if 0 <= n.x < m.Length0 && 0 <= n.y < m.Length1 && m[n.x, n.y] == 1 {
          ones := ones + {n};
        }
      }
      forall c ensures c in ones <==> IsOne(g, c) && exists i :: 0 <= i < k + 1 && Adjacent(component[i], c)
      {
        if Adjacent(a, c) {
          AdjacentIsNeighbour(a, c);
        }
        if c in ones && c !in before {
          var e :| 0 <= e < |Directions| && c == Neighbour(a, e);
          assert Adjacent(component[k], c);
        }
      }
    }
  }

  /** The first `n` entries of `borders` are the bordering ones of the
      first `n` components. */
  ghost predicate BordersUpTo(g: Grid, comps: seq<seq<Cell>>, borders: seq<set<Cell>>, n: int)
  {
    |borders| == n <= |comps| &&
    forall k, c :: 0 <= k < n ==>
      (c in borders[k] <==> IsOne(g, c) && exists a :: a in comps[k] && Adjacent(a, c))
  }

  /** `borders[k]` holds exactly the bordering ones of `comps[k]`. */
  ghost predicate IsBorderList(g: Grid, comps: seq<seq<Cell>>, borders: seq<set<Cell>>)
  {
    BordersUpTo(g, comps, borders, |comps|)
  }

  /** A cell of a border set is a 1. */
  lemma BorderCellIsOne(g: Grid, comps: seq<seq<Cell>>, borders: seq<set<Cell>>, k: int, c: Cell)
    requires IsBorderList(g, comps, borders) && 0 <= k < |borders| && c in borders[k]
    ensures IsOne(g, c)
  {
  }

  /** Appending the border set of the next component extends the prefix
      by one entry. */
  lemma BorderListSnoc(g: Grid, comps: seq<seq<Cell>>, borders: seq<set<Cell>>, ones: set<Cell>, n: int)
    requires 0 <= n < |comps| && BordersUpTo(g, comps, borders, n)
    requires forall c :: c in ones <==> IsOne(g, c) && exists a :: a in comps[n] && Adjacent(a, c)
    ensures BordersUpTo(g, comps, borders + [ones], n + 1)
  {
    forall k | 0 <= k < n
      ensures (borders + [ones])[k] == borders[k]
    {
    }
  }

  /** The bordering ones of every component, in the order of the list. */
  method FindAllBorders(m: array2<int>, comps: seq<seq<Cell>>) returns (borders: seq<set<Cell>>)
    ensures IsBorderList(Snapshot(m), comps, borders)
    ensures forall k, c :: 0 <= k < |borders| && c in borders[k] ==> 0 <= c.x < m.Length0 && 0 <= c.y < m.Length1
  {
    ghost var g := Snapshot(m);
    borders := [];
    for k := 0 to |comps|
      invariant BordersUpTo(g, comps, borders, k)
      invariant forall k', c :: 0 <= k' < k && c in borders[k'] ==> 0 <= c.x < m.Length0 && 0 <= c.y < m.Length1
    {
      var ones := FindBorderingOnes(m, comps[k]);
      assert forall c :: c in ones ==> InBounds(g, c);
      BorderListSnoc(g, comps, borders, ones, k);
      borders := borders + [ones];
    }
  }

  // ---------------------------------------------------------------------
  // Sorting a set of cells lexicographically

  /** `c` is the lexicographically least cell of `s`. */
  predicate IsLexMin(c: Cell, s: set<Cell>)
  {
    c in s && forall d :: d in s ==> c == d || LexLess(c, d)
  }

  /** The lexicographically least cell of a non-empty set. */
  ghost function LexMinOf(s: set<Cell>): (c: Cell)
    requires s != {}
    ensures IsLexMin(c, s)
    decreases |s|
  {
    var x :| x in s;
    if s == {x} then x
    else
      var c' := LexMinOf(s - {x});
      assert forall d :: d in s ==> d == x || d in s - {x};
      if LexLess(c', x) then c' else x
  }

  lemma LexMinExists(s: set<Cell>)
    requires s != {}
    ensures exists c :: IsLexMin(c, s)
  {
    var c := LexMinOf(s);
  }

  /** The cells of `s` in increasing `(x, y)` order, as Python's `sorted`
      with the key `(p[0], p[1])` lists a set of distinct points. */
  function SortedCells(s: set<Cell>): (r: seq<Cell>)
    ensures forall c :: c in r <==> c in s
    decreases |s|
  {
    if s == {} then []
    else
      LexMinExists(s);
      var c :| IsLexMin(c, s);
      [c] + SortedCells(s - {c})
  }

  /** Strictly increasing in lexicographic order. */
  predicate LexSorted(r: seq<Cell>)
  {
    forall i, j :: 0 <= i < j < |r| ==> LexLess(r[i], r[j])
  }

  lemma ConsSorted(c: Cell, rest: seq<Cell>)
    requires LexSorted(rest)
    requires forall k :: 0 <= k < |rest| ==> LexLess(c, rest[k])
    ensures LexSorted([c] + rest)
  {
    var r := [c] + rest;
    forall i, j | 0 <= i < j < |r| ensures LexLess(r[i], r[j])
    {
      if i > 0 {
        assert r[i] == rest[i - 1] && r[j] == rest[j - 1];
      }
    }
  }

  /** SortedCells lists each cell once, in strictly increasing order. */
  lemma {:induction false} SortedCellsIsSorted(s: set<Cell>)
    ensures |SortedCells(s)| == |s|
    ensures LexSorted(SortedCells(s))
    decreases |s|
  {
    if s != {} {
      LexMinExists(s);
      var c :| IsLexMin(c, s);
      var rest := SortedCells(s - {c});
      assert SortedCells(s) == [c] + rest;
      SortedCellsIsSorted(s - {c});
      forall k | 0 <= k < |rest| ensures LexLess(c, rest[k])
      {
        assert rest[k] in s - {c};
      }
      ConsSorted(c, rest);
    }
  }

  // ---------------------------------------------------------------------
  // The two-pointer sweep

  /** Result of a search for a close pair: none, or a pair with its
      Manhattan distance. (The source reports no pair as `(None, inf)`.) */
  datatype Candidate = NoPair | Pair(p1: Cell, p2: Cell, dist: nat)

  /** The pairs the two-pointer sweep looks at, from positions `i` in `a`
      and `j` in `b` on: it advances whichever pointer is lexicographically
      behind (`b`'s on ties) and stops at the end of either list or right
      after a pair at distance zero. */
  function Trace(a: seq<Cell>, b: seq<Cell>, i: nat, j: nat): (r: seq<(Cell, Cell)>)
    requires i <= |a| && j <= |b|
    ensures |r| <= |a| - i + |b| - j
    decreases |a| - i + |b| - j
  {
    if i < |a| && j < |b| then
      var rest :=
        if Manhattan(a[i], b[j]) == 0 then []
        else if LexLess(a[i], b[j]) then Trace(a, b, i + 1, j)
        else Trace(a, b, i, j + 1);
      [(a[i], b[j])] + rest
    else []
  }

  /** Every pair the sweep looks at takes its first cell from `a` and its
      second from `b`, and the sweep looks at some pair exactly when neither
      list is used up. */
  lemma {:induction false} TraceProperties(a: seq<Cell>, b: seq<Cell>, i: nat, j: nat)
    requires i <= |a| && j <= |b|
    ensures forall p :: p in Trace(a, b, i, j) ==> p.0 in a && p.1 in b
    ensures Trace(a, b, i, j) == [] <==> i == |a| || j == |b|
    decreases |a| - i + |b| - j
  {
    if i < |a| && j < |b| {
      var t := Trace(a, b, i, j);
      var i', j' := if LexLess(a[i], b[j]) then i + 1 else i, if LexLess(a[i], b[j]) then j else j + 1;
      var rest := if Manhattan(a[i], b[j]) == 0 then [] else Trace(a, b, i', j');
      assert t == [(a[i], b[j])] + rest;
      if Manhattan(a[i], b[j]) != 0 {
        TraceProperties(a, b, i', j');
      }
      forall p | p in t ensures p.0 in a && p.1 in b
      {
        if p != (a[i], b[j]) {
          assert p in rest;
        }
      }
    }
  }

  /** The earliest pair of least Manhattan distance in `s`. */
  function FirstMin(s: seq<(Cell, Cell)>): (r: Candidate)
    ensures r.NoPair? <==> s == []
    ensures r.Pair? ==> r.dist == Manhattan(r.p1, r.p2)
  {
    if s == [] then NoPair
    else
      var best := FirstMin(s[..|s| - 1]);
      var last := s[|s| - 1];
      if best.NoPair? || Manhattan(last.0, last.1) < best.dist then Pair(last.0, last.1, Manhattan(last.0, last.1))
      else best
  }

  /** FirstMin finds a pair exactly when there is one; the pair is one of
      `s`, carries its Manhattan distance, and no pair of `s` is closer. */
  lemma {:induction false} FirstMinProperties(s: seq<(Cell, Cell)>)
    ensures FirstMin(s).NoPair? <==> s == []
    ensures var r := FirstMin(s);
            r.Pair? ==> (r.p1, r.p2) in s && r.dist == Manhattan(r.p1, r.p2)
    ensures var r := FirstMin(s);
            r.Pair? ==> forall k :: 0 <= k < |s| ==> r.dist <= Manhattan(s[k].0, s[k].1)
  {
    if s != [] {
      var init := s[..|s| - 1];
      FirstMinProperties(init);
      assert forall k :: 0 <= k < |init| ==> init[k] == s[k];
    }
  }

  /** Among pairs of least distance, FirstMin picks the first: every pair
      before it is strictly farther apart. */
  lemma {:induction false} FirstMinIsFirst(s: seq<(Cell, Cell)>)
    requires s != []
    ensures exists k :: 0 <= k < |s| && s[k] == (FirstMin(s).p1, FirstMin(s).p2) &&
              forall i :: 0 <= i < k ==> Manhattan(s[i].0, s[i].1) > FirstMin(s).dist
  {
    var init := s[..|s| - 1];
    var best := FirstMin(init);
    var last := s[|s| - 1];
    FirstMinProperties(init);
    if best.NoPair? || Manhattan(last.0, last.1) < best.dist {
      var k := |s| - 1;
      forall i | 0 <= i < k ensures Manhattan(s[i].0, s[i].1) > FirstMin(s).dist
      {
        assert s[i] == init[i];
      }
    } else {
      FirstMinIsFirst(init);
      var k :| 0 <= k < |init| && init[k] == (best.p1, best.p2) &&
               forall i :: 0 <= i < k ==> Manhattan(init[i].0, init[i].1) > best.dist;
      assert s[k] == init[k];
      forall i | 0 <= i < k ensures Manhattan(s[i].0, s[i].1) > FirstMin(s).dist
      {
        assert s[i] == init[i];
      }
    }
  }

  /** The pair the sweep settles on for two sets of cells. */
  function SweepBest(c1: set<Cell>, c2: set<Cell>): (r: Candidate)
    ensures r.NoPair? <==> c1 == {} || c2 == {}
  {
    var a, b := SortedCells(c1), SortedCells(c2);
    TraceProperties(a, b, 0, 0);
    FirstMin(Trace(a, b, 0, 0))
  }

  /** Seen from the two sets: the sweep finds a pair exactly when both are
      non-empty; the pair takes one cell from each, carries their Manhattan
      distance, and is at least as close as every pair the sweep looked at.
      It is not in general the closest pair of the two sets. */
  lemma SweepBestProperties(c1: set<Cell>, c2: set<Cell>)
    ensures SweepBest(c1, c2).NoPair? <==> c1 == {} || c2 == {}
    ensures SweepBest(c1, c2).Pair? ==>
              SweepBest(c1, c2).p1 in c1 && SweepBest(c1, c2).p2 in c2 &&
              SweepBest(c1, c2).dist == Manhattan(SweepBest(c1, c2).p1, SweepBest(c1, c2).p2)
    ensures var t := Trace(SortedCells(c1), SortedCells(c2), 0, 0);
            SweepBest(c1, c2).Pair? ==> forall k :: 0 <= k < |t| ==> SweepBest(c1, c2).dist <= Manhattan(t[k].0, t[k].1)
  {
    var a, b := SortedCells(c1), SortedCells(c2);
    var t := Trace(a, b, 0, 0);
    var r := FirstMin(t);
    TraceProperties(a, b, 0, 0);
    FirstMinProperties(t);
  }

  /** One round of the sweep at positions `i` and `j`. */
  lemma TraceStep(a: seq<Cell>, b: seq<Cell>, i: nat, j: nat)
    requires i < |a| && j < |b|
    ensures Manhattan(a[i], b[j]) == 0 ==> Trace(a, b, i, j) == [(a[i], b[j])]
    ensures Manhattan(a[i], b[j]) != 0 && LexLess(a[i], b[j]) ==> Trace(a, b, i, j) == [(a[i], b[j])] + Trace(a, b, i + 1, j)
    ensures Manhattan(a[i], b[j]) != 0 && !LexLess(a[i], b[j]) ==> Trace(a, b, i, j) == [(a[i], b[j])] + Trace(a, b, i, j + 1)
  {
  }

  /** Extending the pairs seen by one more pair. */
  lemma FirstMinSnoc(s: seq<(Cell, Cell)>, p: Cell, q: Cell)
    ensures FirstMin(s + [(p, q)]) ==
              var best := FirstMin(s);
              if best.NoPair? || Manhattan(p, q) < best.dist then Pair(p, q, Manhattan(p, q)) else best
  {
    assert (s + [(p, q)])[..|s|] == s;
  }

  lemma AppendAssoc<T>(x: seq<T>, y: seq<T>, z: seq<T>)
    ensures x + (y + z) == (x + y) + z
  {
  }

  /** The two-pointer loop over two lexicographically sorted lists: keeps
      the first pair of least distance seen, advances the pointer that is
      behind and stops early at distance zero. */
  method Sweep(a: seq<Cell>, b: seq<Cell>) returns (best: Candidate)
    ensures best == FirstMin(Trace(a, b, 0, 0))
  {
    var i: nat, j: nat := 0, 0;
    best := NoPair;
    // the pairs visited so far
    ghost var done: seq<(Cell, Cell)> := [];
    var stop := false;
    while !stop && i < |a| && j < |b|
      invariant i <= |a| && j <= |b|
      invariant best == FirstMin(done)
      invariant stop ==> Trace(a, b, 0, 0) == done
      invariant !stop ==> Trace(a, b, 0, 0) == done + Trace(a, b, i, j)
      invariant !stop && best.Pair? ==> best.dist > 0
      decreases |a| - i + |b| - j, if stop then 0 else 1
    {
      i, j, best, done, stop := SweepRound(a, b, i, j, best, done);
    }
    if !stop {
      TraceProperties(a, b, i, j);
      assert done + [] == done;
    }
  }

  /** One pass of the sweep loop: looks at the pair under the two pointers,
      keeps it if it is strictly closer than the best so far, stops at
      distance 0 and otherwise advances the pointer of the smaller cell. */
  method SweepRound(a: seq<Cell>, b: seq<Cell>, i: nat, j: nat, best: Candidate, ghost done: seq<(Cell, Cell)>)
    returns (i': nat, j': nat, best': Candidate, ghost done': seq<(Cell, Cell)>, stop: bool)
    requires i < |a| && j < |b|
    requires best == FirstMin(done)
    requires Trace(a, b, 0, 0) == done + Trace(a, b, i, j)
    requires best.Pair? ==> best.dist > 0
    ensures done' == done + [(a[i], b[j])]
    ensures best' == FirstMin(done')
    ensures stop <==> Manhattan(a[i], b[j]) == 0
    ensures stop ==> i' == i && j' == j && Trace(a, b, 0, 0) == done'
    ensures !stop ==> i' <= |a| && j' <= |b| && |a| - i' + |b| - j' < |a| - i + |b| - j
    ensures !stop ==> Trace(a, b, 0, 0) == done' + Trace(a, b, i', j') && best'.Pair? && best'.dist > 0
  {
    var p1, p2 := a[i], b[j];
    var dist := Manhattan(p1, p2);
    FirstMinSnoc(done, p1, p2);
    done' := done + [(p1, p2)];
    if best.NoPair? || dist < best.dist {
      best' := Pair(p1, p2, dist);
    } else {
      best' := best;
    }
    assert best' == FirstMin(done');
    i', j' := i, j;
    stop := best'.dist == 0;
    assert stop <==> dist == 0;
    TraceStep(a, b, i, j);
    if stop {
      assert Trace(a, b, i, j) == [(p1, p2)];
    } else {
      if LexLess(p1, p2) {
        i' := i + 1;
      } else {
        j' := j + 1;
      }
      assert Trace(a, b, i, j) == [(p1, p2)] + Trace(a, b, i', j');
      AppendAssoc(done, [(p1, p2)], Trace(a, b, i', j'));
    }
  }


  /** `find_min_lattice_distance_optimized`: sorts both sets of cells by
      `(x, y)` and sweeps them with two pointers. The result is the sweep's
      first closest pair; there is none exactly when a set is empty, and
      otherwise it takes one cell from each set with their Manhattan
      distance. */
  method FindMinLatticeDistance(c1: set<Cell>, c2: set<Cell>) returns (best: Candidate)
    ensures best == SweepBest(c1, c2)
    ensures best.NoPair? <==> c1 == {} || c2 == {}
    ensures best.Pair? ==> best.p1 in c1 && best.p2 in c2 && best.dist == Manhattan(best.p1, best.p2)
  {
    var a := SortedCells(c1);
    var b := SortedCells(c2);
    best := Sweep(a, b);
    SweepBestProperties(c1, c2);
  }

  // ---------------------------------------------------------------------
  // Choosing the pair to bridge

  /** The starting bound of the selection loop: a pair is only taken if it
      is closer than this. */
  const InitialBound := 10000

  /** The distance a selection has to beat. */
  function Bound(best: Candidate): int
  {
    if best.Pair? then best.dist else InitialBound
  }

  /** The pair the sweep finds for the ordered pair of border sets
      `(borders[a], borders[b])`, when the two sets differ and it beats
      `bound`. */
  predicate Beats(borders: seq<set<Cell>>, a: int, b: int, bound: int)
    requires 0 <= a < |borders| && 0 <= b < |borders|
  {
    borders[a] != borders[b] && SweepBest(borders[a], borders[b]).Pair? && SweepBest(borders[a], borders[b]).dist < bound
  }

  /** `best` is a selection of the loop at lines 155-163 over `borders`: a
      selected pair is below InitialBound, is the sweep result of an ordered
      pair of differing border sets and takes its cells from border sets,
      and no ordered pair of differing sets gives a strictly closer pair. */
  ghost predicate IsSelection(borders: seq<set<Cell>>, best: Candidate)
  {
    (best.Pair? ==> best.dist < InitialBound) &&
    (best.Pair? ==> exists a, b :: (0 <= a < |borders| && 0 <= b < |borders| &&
       borders[a] != borders[b] && best == SweepBest(borders[a], borders[b]))) &&
    (best.Pair? ==> (exists a :: 0 <= a < |borders| && best.p1 in borders[a]) &&
                    (exists b :: 0 <= b < |borders| && best.p2 in borders[b])) &&
    (forall a, b :: 0 <= a < |borders| && 0 <= b < |borders| ==> !Beats(borders, a, b, Bound(best)))
  }

  /** A pair that does not beat a bound does not beat a smaller one. */
  lemma BeatsAntitone(borders: seq<set<Cell>>, a: int, b: int, lo: int, hi: int)
    requires 0 <= a < |borders| && 0 <= b < |borders|
    requires lo <= hi && !Beats(borders, a, b, hi)
    ensures !Beats(borders, a, b, lo)
  {
  }

  /** Runs the sweep on every ordered pair of differing border sets and keeps
      the strictly closest result below InitialBound. No pair is selected
      exactly when no ordered pair of differing sets yields a pair closer
      than InitialBound; otherwise the selection is the sweep result of one
      such pair, and no pair yields a closer one. */
  method SelectBestPair(borders: seq<set<Cell>>) returns (best: Candidate)
    ensures best.Pair? ==> best.dist < InitialBound
    ensures best.Pair? ==> exists a, b :: (0 <= a < |borders| && 0 <= b < |borders| &&
              borders[a] != borders[b] && best == SweepBest(borders[a], borders[b]))
    ensures best.Pair? ==> (exists a :: 0 <= a < |borders| && best.p1 in borders[a]) &&
                           (exists b :: 0 <= b < |borders| && best.p2 in borders[b])
    ensures forall a, b :: 0 <= a < |borders| && 0 <= b < |borders| ==> !Beats(borders, a, b, Bound(best))
  {
    best := NoPair;
    // the ordered pair whose sweep result `best` is
    ghost var wa, wb := 0, 0;
    for a := 0 to |borders|
      invariant best.Pair? ==> best.dist < InitialBound
      invariant best.Pair? ==> (0 <= wa < |borders| && 0 <= wb < |borders| &&
                  borders[wa] != borders[wb] && best == SweepBest(borders[wa], borders[wb]))
      invariant forall a', b :: 0 <= a' < a && 0 <= b < |borders| ==> !Beats(borders, a', b, Bound(best))
    {
      for b := 0 to |borders|
        invariant best.Pair? ==> best.dist < InitialBound
        invariant best.Pair? ==> (0 <= wa < |borders| && 0 <= wb < |borders| &&
                    borders[wa] != borders[wb] && best == SweepBest(borders[wa], borders[wb]))
        invariant forall a', b' :: 0 <= a' < a && 0 <= b' < |borders| ==> !Beats(borders, a', b', Bound(best))
        invariant forall b' :: 0 <= b' < b ==> !Beats(borders, a, b', Bound(best))
      {
        if borders[a] != borders[b] {
          var cand := FindMinLatticeDistance(borders[a], borders[b]);
          if cand.Pair? && cand.dist < Bound(best) {
            ghost var bound := Bound(best);
            best := cand;
            wa, wb := a, b;
            forall a', b' | 0 <= a' < |borders| && 0 <= b' < |borders| && !Beats(borders, a', b', bound)
              ensures !Beats(borders, a', b', Bound(best))
            {
              BeatsAntitone(borders, a', b', Bound(best), bound);
            }
          }
        }
      }
    }
    if best.Pair? {
      SweepBestProperties(borders[wa], borders[wb]);
    }
  }
}
