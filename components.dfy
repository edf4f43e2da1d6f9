/** The 4-connected components of the zero cells of a matrix
    (`find_components` and its nested `bfs` inside `connect_all_zeros`). */
module ZeroComponents {
  import opened Lattice

  /** No cell occurs twice. */
  predicate Distinct(s: seq<Cell>)
  {
    forall i, j :: 0 <= i < j < |s| ==> s[i] != s[j]
  }

  /** Every cell after the first is 4-adjacent to an earlier one: the order
      in which a search discovers a connected region. */
  ghost predicate Chained(s: seq<Cell>)
  {
    forall k :: 0 < k < |s| ==> HasEarlierNeighbour(s, k)
  }

  ghost predicate HasEarlierNeighbour(s: seq<Cell>, k: int)
    requires 0 <= k < |s|
  {
    exists j :: 0 <= j < k && Adjacent(s[j], s[k])
  }

  /** `parent` witnesses `Chained(s)`: it names, for each later cell, an
      earlier cell it is adjacent to. */
  ghost predicate ChainedBy(s: seq<Cell>, parent: seq<int>)
  {
    |parent| == |s| &&
    forall k :: 0 < k < |s| ==> 0 <= parent[k] < k && Adjacent(s[parent[k]], s[k])
  }

  lemma ChainedByIsChained(s: seq<Cell>, parent: seq<int>)
    requires ChainedBy(s, parent)
    ensures Chained(s)
  {
    forall k | 0 < k < |s| ensures HasEarlierNeighbour(s, k)
    {
      var j := parent[k];
      assert 0 <= j < k && Adjacent(s[j], s[k]);
    }
  }

  /** No zero cell 4-adjacent to a cell of `s` lies outside `s`. */
  ghost predicate Closed(g: Grid, s: set<Cell>)
  {
    forall a, b :: a in s && Adjacent(a, b) && IsZero(g, b) ==> b in s
  }

  /** The same, for the cells of a sequence. */
  ghost predicate ClosedSeq(g: Grid, s: seq<Cell>)
  {
    Closed(g, set c | c in s)
  }

  /** `s` lists, once each, the cells of one 4-connected region of zero
      cells that nothing outside it touches. */
  ghost predicate IsComponent(g: Grid, s: seq<Cell>)
  {
    |s| > 0 && Distinct(s) && (forall c :: c in s ==> IsZero(g, c)) && Chained(s) && ClosedSeq(g, s)
  }

  predicate Disjoint(a: seq<Cell>, b: seq<Cell>)
  {
    forall c :: c in a ==> c !in b
  }

  predicate PairwiseDisjoint(comps: seq<seq<Cell>>)
  {
    forall k1, k2 :: 0 <= k1 < k2 < |comps| ==> Disjoint(comps[k1], comps[k2])
  }

  /** `comps` is the decomposition of the zero cells into components: each
      entry is a component, no two share a cell, and every zero cell is in
      one of them. */
  ghost predicate IsComponentList(g: Grid, comps: seq<seq<Cell>>)
  {
    (forall k :: 0 <= k < |comps| ==> IsComponent(g, comps[k])) &&
    PairwiseDisjoint(comps) &&
    (forall c :: IsZero(g, c) ==> exists k :: 0 <= k < |comps| && c in comps[k])
  }

  predicate SortedBySize(comps: seq<seq<Cell>>)
  {
    forall i, j :: 0 <= i < j < |comps| ==> |comps[i]| <= |comps[j]|
  }

  // ---------------------------------------------------------------------
  // Sorting by size (Python's stable `sorted(..., key=len)`)

  /** Inserts `c` before the first entry that is at least as long. */
  function InsertBySize(c: seq<Cell>, s: seq<seq<Cell>>): (r: seq<seq<Cell>>)
    ensures multiset(r) == multiset(s) + multiset{c}
    ensures |r| > 0 && (r[0] == c || (|s| > 0 && r[0] == s[0]))
  {
    if s == [] || |c| <= |s[0]| then [c] + s
    else
      var rest := InsertBySize(c, s[1..]);
      assert s == [s[0]] + s[1..];
      [s[0]] + rest
  }

  /** Inserting into a list sorted by size keeps it sorted. */
  lemma {:induction false} InsertKeepsSorted(c: seq<Cell>, s: seq<seq<Cell>>)
    requires SortedBySize(s)
    ensures SortedBySize(InsertBySize(c, s))
  {
    if s != [] && |c| > |s[0]| {
      var rest := InsertBySize(c, s[1..]);
      InsertKeepsSorted(c, s[1..]);
      forall k | 0 <= k < |rest| ensures |s[0]| <= |rest[k]|
      {
        assert rest[k] in multiset(s[1..]) + multiset{c};
        if rest[k] != c {
          assert rest[k] in s[1..];
        }
      }
    }
  }

  /** Stable insertion sort by length: the result is a permutation of the
      input and its lengths never decrease. */
  function SortBySize(s: seq<seq<Cell>>): (r: seq<seq<Cell>>)
    ensures multiset(r) == multiset(s)
    ensures SortedBySize(r)
  {
    if s == [] then []
    else
      assert s == [s[0]] + s[1..];
      var rest := SortBySize(s[1..]);
      InsertKeepsSorted(s[0], rest);
      InsertBySize(s[0], rest)
  }

  lemma {:induction false} InsertKeepsDisjoint(c: seq<Cell>, s: seq<seq<Cell>>)
    requires PairwiseDisjoint(s)
    requires forall k :: 0 <= k < |s| ==> Disjoint(c, s[k]) && Disjoint(s[k], c)
    ensures PairwiseDisjoint(InsertBySize(c, s))
  {
    var r := InsertBySize(c, s);
    if s == [] || |c| <= |s[0]| {
    } else {
      var rest := InsertBySize(c, s[1..]);
      InsertKeepsDisjoint(c, s[1..]);
      assert r == [s[0]] + rest;
      forall k | 0 <= k < |rest| ensures Disjoint(s[0], rest[k])
      {
        assert rest[k] in multiset(rest);
        assert rest[k] in multiset(s[1..]) + multiset{c};
        if rest[k] != c {
          assert rest[k] in s[1..];
          var i :| 0 <= i < |s[1..]| && s[1..][i] == rest[k];
          assert Disjoint(s[0], s[i + 1]);
        }
      }
    }
  }

  lemma {:induction false} SortKeepsDisjoint(s: seq<seq<Cell>>)
    requires PairwiseDisjoint(s)
    ensures PairwiseDisjoint(SortBySize(s))
  {
    if s != [] {
      var sorted := SortBySize(s[1..]);
      assert PairwiseDisjoint(s[1..]);
      SortKeepsDisjoint(s[1..]);
      forall k | 0 <= k < |sorted| ensures Disjoint(s[0], sorted[k]) && Disjoint(sorted[k], s[0])
      {
        assert sorted[k] in multiset(sorted);
        assert sorted[k] in s[1..];
        var i :| 0 <= i < |s[1..]| && s[1..][i] == sorted[k];
        assert Disjoint(s[0], s[i + 1]);
      }
      InsertKeepsDisjoint(s[0], sorted);
    }
  }

  /** Reordering a decomposition keeps it a decomposition. */
  lemma SortKeepsComponentList(g: Grid, s: seq<seq<Cell>>)
    requires IsComponentList(g, s)
    ensures IsComponentList(g, SortBySize(s))
  {
    var r := SortBySize(s);
    forall k | 0 <= k < |r| ensures IsComponent(g, r[k])
    {
      assert r[k] in multiset(r);
    }
    SortKeepsDisjoint(s);
    forall c | IsZero(g, c) ensures exists k :: 0 <= k < |r| && c in r[k]
    {
      var k :| 0 <= k < |s| && c in s[k];
      assert s[k] in multiset(s);
      assert s[k] in r;
    }
  }

  // ---------------------------------------------------------------------
  // Breadth-first search and the component scan

  /** What a search from `start` has established: `component` lists
      distinct zero cells outside `visited0`, chained by `parent`, and
      `visited` is `visited0` plus exactly those cells. */
  ghost predicate Searched(g: Grid, start: Cell, visited0: set<Cell>, visited: set<Cell>,
                           component: seq<Cell>, parent: seq<int>)
  {
    |component| > 0 && component[0] == start &&
    (forall c :: c in visited <==> c in visited0 || c in component) &&
    (forall c :: c in component ==> c !in visited0 && IsZero(g, c)) &&
    Distinct(component) && ChainedBy(component, parent) &&
    visited <= AllCells(g)
  }

  /** The inner loop of the search: looks at the four neighbours of the
      cell `c` just taken from the queue (the one at position `p` of the
      component) and enqueues those that are in bounds, unvisited and zero.
      Afterwards every zero neighbour of `c` is visited. */
  method ExploreNeighbours(m: array2<int>, c: Cell, visited: set<Cell>, queue: seq<Cell>, component: seq<Cell>,
                           ghost start: Cell, ghost visited0: set<Cell>, ghost parent: seq<int>, ghost p: nat)
    returns (visited': set<Cell>, queue': seq<Cell>, component': seq<Cell>, ghost parent': seq<int>)
    requires Searched(Snapshot(m), start, visited0, visited, component, parent)
    requires p < |component| && component[p] == c && queue == component[p + 1..]
    ensures Searched(Snapshot(m), start, visited0, visited', component', parent')
    ensures |component| <= |component'| && component'[..|component|] == component
    ensures queue' == component'[p + 1..]
    ensures visited <= visited'
    ensures visited' == visited ==> queue' == queue
    ensures forall b :: Adjacent(c, b) && IsZero(Snapshot(m), b) ==> b in visited'
  {
    ghost var g := Snapshot(m);
    visited', queue', component', parent' := visited, queue, component, parent;
    for d := 0 to |Directions|
      invariant Searched(g, start, visited0, visited', component', parent')
      invariant |component| <= |component'| && component'[..|component|] == component
      invariant queue' == component'[p + 1..]
      invariant visited <= visited'
      invariant visited' == visited ==> queue' == queue
      invariant forall e :: 0 <= e < d && IsZero(g, Neighbour(c, e)) ==> Neighbour(c, e) in visited'
    {
      var n := Neighbour(c, d);
      if 0 <= n.x < m.Length0 && 0 <= n.y < m.Length1 && n !in visited' && m[n.x, n.y] == 0 {
        InAllCells(g, n);
        visited' := visited' + {n};
        queue' := queue' + [n];
        component' := component' + [n];
        parent' := parent' + [p];
      }
    }
    forall b | Adjacent(c, b) && IsZero(g, b) ensures b in visited'
    {
      AdjacentIsNeighbour(c, b);
    }
  }

  /** Breadth-first search from `start` over 4-adjacent zero cells, skipping
      cells already in `visited0` and adding the ones it finds. Given that
      the earlier searches left `visited0` closed, the cells found are
      exactly the component of `start`. */
  method Bfs(m: array2<int>, start: Cell, visited0: set<Cell>) returns (component: seq<Cell>, visited: set<Cell>)
    requires IsZero(Snapshot(m), start) && start !in visited0
    requires forall c :: c in visited0 ==> IsZero(Snapshot(m), c)
    requires Closed(Snapshot(m), visited0)
    ensures IsComponent(Snapshot(m), component) && component[0] == start
    ensures forall c :: c in visited <==> c in visited0 || c in component
    ensures forall c :: c in component ==> c !in visited0
    ensures Closed(Snapshot(m), visited)
  {
    ghost var g := Snapshot(m);
    var queue := [start];
    visited := visited0 + {start};
    component := [start];
    ghost var parent := [0];
    InAllCells(g, start);
    while queue != []
      invariant Searched(g, start, visited0, visited, component, parent)
      invariant |queue| <= |component| && queue == component[|component| - |queue|..]
      invariant forall k, b :: 0 <= k < |component| - |queue| && Adjacent(component[k], b) && IsZero(g, b) ==> b in visited
      decreases AllCells(g) - visited, |queue|
    {
      ghost var p := |component| - |queue|;
      var c := queue[0];
      assert c == component[p];
      queue := queue[1..];
      ghost var before, queue0, component0 := visited, queue, component;
      visited, queue, component, parent := ExploreNeighbours(m, c, visited, queue, component, start, visited0, parent, p);
      assert forall k :: 0 <= k <= p ==> component[k] == component0[k];
      assert visited != before ==> exists n :: n in visited && n !in before;
    }
    forall a, b | a in component && Adjacent(a, b) && IsZero(g, b) ensures b in component
    {
    }
    ChainedByIsChained(component, parent);
  }

  /** What the row-major scan has established so far: `found` lists
      disjoint components and `visited` holds exactly their cells. */
  ghost predicate ScanState(g: Grid, found: seq<seq<Cell>>, visited: set<Cell>)
  {
    (forall k :: 0 <= k < |found| ==> IsComponent(g, found[k])) &&
    PairwiseDisjoint(found) &&
    (forall c :: c in visited <==> exists k :: 0 <= k < |found| && c in found[k]) &&
    (forall c :: c in visited ==> IsZero(g, c)) &&
    Closed(g, visited)
  }

  /** Adding the component a search found keeps the scan state. */
  lemma ScanStep(g: Grid, found: seq<seq<Cell>>, visited: set<Cell>, comp: seq<Cell>, visited': set<Cell>)
    requires ScanState(g, found, visited)
    requires IsComponent(g, comp)
    requires forall c :: c in visited' <==> c in visited || c in comp
    requires forall c :: c in comp ==> c !in visited
    requires Closed(g, visited')
    ensures ScanState(g, found + [comp], visited')
  {
    var found' := found + [comp];
    forall k | 0 <= k < |found| ensures Disjoint(found[k], comp)
    {
      forall c | c in found[k] ensures c !in comp
      {
        assert c in visited;
      }
    }
    forall c | c in visited' ensures exists k :: 0 <= k < |found'| && c in found'[k]
    {
      if c in comp {
        assert c in found'[|found|];
      } else {
        var k :| 0 <= k < |found| && c in found[k];
        assert c in found'[k];
      }
    }
  }

  /** Labels the 4-connected components of the zero cells by a row-major
      scan that starts a search at every zero cell not yet visited, then
      sorts them by size. */
  method FindComponents(m: array2<int>) returns (comps: seq<seq<Cell>>)
    ensures IsComponentList(Snapshot(m), comps)
    ensures SortedBySize(comps)
  {
    ghost var g := Snapshot(m);
    var visited: set<Cell> := {};
    var found: seq<seq<Cell>> := [];
    for i := 0 to m.Length0
      invariant ScanState(g, found, visited)
      invariant forall c :: IsZero(g, c) && c.x < i ==> c in visited
    {
      for j := 0 to m.Length1
        invariant ScanState(g, found, visited)
        invariant forall c :: IsZero(g, c) && (c.x < i || (c.x == i && c.y < j)) ==> c in visited
      {
        if m[i, j] == 0 && Cell(i, j) !in visited {
          var comp, visited' := Bfs(m, Cell(i, j), visited);
          ScanStep(g, found, visited, comp, visited');
          found, visited := found + [comp], visited';
        }
      }
    }
    comps := SortBySize(found);
    SortKeepsComponentList(g, found);
  }

  // ---------------------------------------------------------------------
  // What a decomposition determines

  lemma {:induction false} ChainBackToRoot(g: Grid, a: seq<Cell>, b: seq<Cell>, k: nat)
    requires IsComponent(g, a) && ClosedSeq(g, b)
    requires k < |a| && a[k] in b
    ensures a[0] in b
    decreases k
  {
    if k > 0 {
      assert HasEarlierNeighbour(a, k);
      var j :| 0 <= j < k && Adjacent(a[j], a[k]);
      assert Adjacent(a[k], a[j]) && IsZero(g, a[j]);
      ChainBackToRoot(g, a, b, j);
    }
  }

  lemma {:induction false} ChainFromRoot(g: Grid, a: seq<Cell>, b: seq<Cell>, k: nat)
    requires IsComponent(g, a) && ClosedSeq(g, b)
    requires a[0] in b && k < |a|
    ensures a[k] in b
    decreases k
  {
    if k > 0 {
      assert HasEarlierNeighbour(a, k);
      var j :| 0 <= j < k && Adjacent(a[j], a[k]);
      ChainFromRoot(g, a, b, j);
    }
  }

  /** Two components that share a cell hold the same cells. */
  lemma ComponentsSharingACellAgree(g: Grid, a: seq<Cell>, b: seq<Cell>, c: Cell)
    requires IsComponent(g, a) && IsComponent(g, b)
    requires c in a && c in b
    ensures forall d :: d in a <==> d in b
  {
    var ka :| 0 <= ka < |a| && a[ka] == c;
    var kb :| 0 <= kb < |b| && b[kb] == c;
    ChainBackToRoot(g, a, b, ka);
    ChainBackToRoot(g, b, a, kb);
    forall d | d in a ensures d in b
    {
      var k :| 0 <= k < |a| && a[k] == d;
      ChainFromRoot(g, a, b, k);
    }
    forall d | d in b ensures d in a
    {
      var k :| 0 <= k < |b| && b[k] == d;
      ChainFromRoot(g, b, a, k);
    }
  }

  ghost function Elems(s: seq<Cell>): set<Cell>
  {
    set c | c in s
  }

  lemma {:induction false} DistinctCard(s: seq<Cell>)
    requires Distinct(s)
    ensures |Elems(s)| == |s|
  {
    if s != [] {
      var init := s[..|s| - 1];
      assert Distinct(init);
      DistinctCard(init);
      assert Elems(s) == Elems(init) + {s[|s| - 1]};
    }
  }

  /** Two components that share a cell have the same size. */
  lemma ComponentsSharingACellSameSize(g: Grid, a: seq<Cell>, b: seq<Cell>, c: Cell)
    requires IsComponent(g, a) && IsComponent(g, b)
    requires c in a && c in b
    ensures |a| == |b|
  {
    ComponentsSharingACellAgree(g, a, b, c);
    assert Elems(a) == Elems(b);
    DistinctCard(a);
    DistinctCard(b);
  }

  // ---------------------------------------------------------------------
  // Chained regions are 4-connected

  /** `p` is a walk of 4-adjacent steps through cells of `s`. */
  ghost predicate PathIn(p: seq<Cell>, s: seq<Cell>)
  {
    |p| > 0 &&
    (forall i :: 0 <= i < |p| ==> p[i] in s) &&
    (forall i :: 0 <= i < |p| - 1 ==> Adjacent(p[i], p[i + 1]))
  }

  /** A path inside `s` from its first cell to `s[k]`, following the
      chain back to the root. */
  ghost function RootPath(s: seq<Cell>, k: nat): (p: seq<Cell>)
    requires Chained(s) && k < |s|
    ensures PathIn(p, s) && p[0] == s[0] && p[|p| - 1] == s[k]
    decreases k
  {
    if k == 0 then [s[0]]
    else
      assert HasEarlierNeighbour(s, k);
      var j :| 0 <= j < k && Adjacent(s[j], s[k]);
      RootPath(s, j) + [s[k]]
  }

  function Reverse(p: seq<Cell>): (r: seq<Cell>)
    ensures |r| == |p|
    ensures forall i :: 0 <= i < |p| ==> r[i] == p[|p| - 1 - i]
  {
    if p == [] then [] else Reverse(p[1..]) + [p[0]]
  }

  /** Every two cells of a chained region are joined by a 4-path that
      stays inside it. */
  lemma ChainedIsConnected(s: seq<Cell>, a: Cell, b: Cell)
    requires Chained(s) && a in s && b in s
    ensures exists p :: PathIn(p, s) && p[0] == a && p[|p| - 1] == b
  {
    var ka :| 0 <= ka < |s| && s[ka] == a;
    var kb :| 0 <= kb < |s| && s[kb] == b;
    var toA := RootPath(s, ka);
    var back := Reverse(toA);
    var toB := RootPath(s, kb);
    var p := back + toB[1..];
    forall i | 0 <= i < |p| - 1 ensures Adjacent(p[i], p[i + 1])
    {
      if i < |back| - 1 {
        assert Adjacent(toA[|toA| - 2 - i], toA[|toA| - 1 - i]);
      } else if i == |back| - 1 {
        assert p[i] == s[0] == toB[0];
      }
    }
    assert PathIn(p, s);
  }

  /** Each component of a decomposition is 4-connected. */
  lemma ComponentsAreConnected(g: Grid, comps: seq<seq<Cell>>, k: nat, a: Cell, b: Cell)
    requires IsComponentList(g, comps) && k < |comps|
    requires a in comps[k] && b in comps[k]
    ensures exists p :: PathIn(p, comps[k]) && p[0] == a && p[|p| - 1] == b
  {
    ChainedIsConnected(comps[k], a, b);
  }
}
