/** A* search on the hex grid with unit move cost. The frontier keeps duplicate
    entries, nodes are re-opened whenever their cost improves and stale entries
    are expanded with the node's current cost. */
module Search {
  import opened HexGrid
  import opened Heuristic
  import opened Moves

  /** A frontier entry: the priority pushed with a coordinate. */
  datatype Entry = Entry(f: int, at: Coord)

  /** The frontier's order: by priority, then by row, then by column. */
  predicate EntryLe(a: Entry, b: Entry) {
    a.f < b.f || (a.f == b.f && (a.at.row < b.at.row || (a.at.row == b.at.row && a.at.col <= b.at.col)))
  }

  /** The entry a heap pop returns: the least one in the frontier's order. */
  function Least(q: seq<Entry>): (e: Entry)
    requires |q| > 0
    ensures e in q
    ensures forall x :: x in q ==> EntryLe(e, x)
  {
    if |q| == 1 then q[0]
    else
      var m := Least(q[1..]);
      assert forall x :: x in q ==> x == q[0] || x in q[1..];
      if EntryLe(q[0], m) then q[0] else m
  }

  /** The frontier after one occurrence of `e` is taken out. */
  function RemoveOne(q: seq<Entry>, e: Entry): (r: seq<Entry>)
    requires e in q
    ensures multiset(r) == multiset(q) - multiset{e}
    ensures |r| == |q| - 1
    ensures forall x :: x in r ==> x in q
    ensures forall x :: x in q && x != e ==> x in r
  {
    assert q == [q[0]] + q[1..];
    if q[0] == e then q[1..]
    else
      var rest := RemoveOne(q[1..], e);
      [q[0]] + rest
  }

  /** The sequence in reverse order, as `path[::-1]` gives it. */
  function Reversed(s: seq<Coord>): seq<Coord> {
    seq(|s|, k requires 0 <= k < |s| => s[|s| - 1 - k])
  }

  /** Reversing moves the first element to the end. */
  lemma ReversedCons(s: seq<Coord>)
    requires s != []
    ensures Reversed(s) == Reversed(s[1..]) + [s[0]]
  {
    var r, t := Reversed(s), Reversed(s[1..]) + [s[0]];
    assert |r| == |t|;
    forall k | 0 <= k < |r|
      ensures r[k] == t[k]
    {
      if k < |r| - 1 {
        assert t[k] == Reversed(s[1..])[k] == s[1..][|s| - 2 - k];
      }
    }
  }

  /** Reversing is its own inverse and keeps every coordinate with its
      multiplicity, so the reconstructed path holds exactly the back-pointer
      chain's coordinates. */
  lemma {:induction false} ReversedReversible(s: seq<Coord>)
    ensures Reversed(Reversed(s)) == s
    ensures multiset(Reversed(s)) == multiset(s)
    decreases |s|
  {
    assert |Reversed(Reversed(s))| == |s|;
    if s != [] {
      ReversedCons(s);
      ReversedReversible(s[1..]);
      assert s == [s[0]] + s[1..];
    }
  }

  predicate NoRepeats(s: seq<Coord>) {
    forall i, j :: 0 <= i < j < |s| ==> s[i] != s[j]
  }

  // ---------------------------------------------------------------------------
  // Finiteness of the search space

  /** The cells of row `r`, column by column. */
  function RowCells(r: int, width: nat): seq<Coord> {
    seq(width, j => Coord(r, j))
  }

  /** Every coordinate with row below `height` and column below `width`. */
  function Cells(height: nat, width: nat): seq<Coord> {
    if height == 0 then [] else Cells(height - 1, width) + RowCells(height - 1, width)
  }

  function AllCells(grid: Grid): seq<Coord> {
    Cells(|grid|, if |grid| == 0 then 0 else |grid[0]|)
  }

  lemma {:induction false} CellsContain(height: nat, width: nat, c: Coord)
    requires 0 <= c.row < height && 0 <= c.col < width
    ensures c in Cells(height, width)
  {
    if c.row == height - 1 {
      assert RowCells(height - 1, width)[c.col] == c;
    } else {
      CellsContain(height - 1, width, c);
    }
  }

  /** A set drawn from the elements of a sequence is no larger than it. */
  lemma {:induction false} SubsetCard(s: set<Coord>, u: seq<Coord>)
    requires forall x :: x in s ==> x in u
    ensures |s| <= |u|
  {
    if u == [] {
      assert s == {};
    } else {
      var s' := s - {u[0]};
      forall x | x in s'
        ensures x in u[1..]
      {
        assert x in u && x != u[0];
        var k :| 0 <= k < |u| && u[k] == x;
        assert u[1..][k - 1] == x;
      }
      SubsetCard(s', u[1..]);
    }
  }

  /** The value a coordinate contributes to the termination measure: its cost
      if it has one, the cap otherwise. */
  function Val(gScore: map<Coord, nat>, c: Coord, cap: nat): nat {
    if c in gScore then gScore[c] else cap
  }

  function Potential(gScore: map<Coord, nat>, u: seq<Coord>, cap: nat): nat {
    if u == [] then 0 else Val(gScore, u[0], cap) + Potential(gScore, u[1..], cap)
  }

  /** Lowering some costs never raises the measure, and lowering the cost of a
      coordinate of `u` strictly lowers it. */
  lemma {:induction false} PotentialDrops(g0: map<Coord, nat>, g1: map<Coord, nat>, u: seq<Coord>, cap: nat, k: Coord)
    requires forall x :: x in u ==> Val(g1, x, cap) <= Val(g0, x, cap)
    ensures Potential(g1, u, cap) <= Potential(g0, u, cap)
    ensures k in u && Val(g1, k, cap) < Val(g0, k, cap) ==> Potential(g1, u, cap) < Potential(g0, u, cap)
  {
    if u != [] {
      assert forall x :: x in u[1..] ==> x in u;
      PotentialDrops(g0, g1, u[1..], cap, k);
      if k in u && k != u[0] {
        assert k in u[1..];
      }
    }
  }

  // ---------------------------------------------------------------------------
  // The search state and its invariants

  // The quantifiers of the search state are triggered only by the guard
  // predicates below, which the proofs mention on purpose; a bare `n in gScore`
  // in the search code then does not set off the whole state.

  /** `n` has a recorded cost. */
  predicate Recorded(gScore: map<Coord, nat>, n: Coord) {
    n in gScore
  }

  /** `n` has a back-pointer. */
  predicate Linked(cameFrom: map<Coord, Coord>, n: Coord) {
    n in cameFrom
  }

  /** `e` waits in the frontier. */
  predicate Queued(open: seq<Entry>, e: Entry) {
    e in open
  }

  /** `n` has been expanded. */
  ghost predicate Done(expanded: map<Coord, nat>, n: Coord) {
    n in expanded
  }

  /** Recorded costs and back-pointers. */
  ghost predicate ScoresSound(grid: Grid, start: Coord, cameFrom: map<Coord, Coord>, gScore: map<Coord, nat>) {
    && RootedAt(start, cameFrom, gScore)
    && CostsBounded(grid, start, gScore)
    && BackPointersSound(grid, cameFrom, gScore)
  }

  /** The start costs 0 and has no back-pointer; every other recorded
      coordinate has one. */
  ghost predicate RootedAt(start: Coord, cameFrom: map<Coord, Coord>, gScore: map<Coord, nat>) {
    && start in gScore && gScore[start] == 0 && start !in cameFrom
    && (forall n {:trigger Recorded(gScore, n)} :: Recorded(gScore, n) && n != start ==> n in cameFrom)
  }

  /** Recorded coordinates other than the start are enterable, and no cost
      reaches the number of recorded coordinates. */
  ghost predicate CostsBounded(grid: Grid, start: Coord, gScore: map<Coord, nat>) {
    forall n {:trigger Recorded(gScore, n)} :: Recorded(gScore, n) ==>
      gScore[n] < |gScore| && (n == start || Open(grid, n))
  }

  /** Each back-pointer is an accepted move from a strictly cheaper recorded
      coordinate. */
  ghost predicate BackPointersSound(grid: Grid, cameFrom: map<Coord, Coord>, gScore: map<Coord, nat>) {
    forall n {:trigger Linked(cameFrom, n)} :: Linked(cameFrom, n) ==>
      && n in gScore && cameFrom[n] in gScore
      && Step(grid, cameFrom[n], n) && gScore[cameFrom[n]] < gScore[n]
  }

  /** Every frontier entry is for a recorded coordinate and its priority is at
      least cost plus estimate, except the start's first entry, pushed with 0. */
  ghost predicate EntriesSound(start: Coord, goal: Coord, open: seq<Entry>, gScore: map<Coord, nat>) {
    forall e {:trigger Queued(open, e)} :: Queued(open, e) ==>
      e.at in gScore && (e.f >= gScore[e.at] + Distance(e.at, goal) || (e.at == start && e.f == 0))
  }

  /** The priority a coordinate is pushed with for its current cost. */
  ghost function Key(start: Coord, goal: Coord, gScore: map<Coord, nat>, n: Coord): int
    requires n in gScore
  {
    if n == start then 0 else gScore[n] + Distance(n, goal)
  }

  /** Every recorded coordinate is either waiting in the frontier with its
      current cost, or was last expanded with that cost. */
  ghost predicate Frontier(start: Coord, goal: Coord, open: seq<Entry>, gScore: map<Coord, nat>, expanded: map<Coord, nat>) {
    forall n {:trigger Recorded(gScore, n)} :: Recorded(gScore, n) ==>
      Entry(Key(start, goal, gScore, n), n) in open || (n in expanded && expanded[n] <= gScore[n])
  }

  /** After a coordinate was expanded with cost c, each of its accepted moves
      has a cost of at most c + 1 (apart from the coordinates in `skip`, whose
      expansion is under way). */
  ghost predicate ClosedExcept(grid: Grid, gScore: map<Coord, nat>, expanded: map<Coord, nat>, skip: set<Coord>) {
    forall n, m {:trigger Done(expanded, n), Step(grid, n, m)} :: Done(expanded, n) && n !in skip && Step(grid, n, m) ==>
      m in gScore && gScore[m] <= expanded[n] + 1
  }

  ghost predicate Searching(grid: Grid, start: Coord, goal: Coord, open: seq<Entry>, cameFrom: map<Coord, Coord>,
                            gScore: map<Coord, nat>, expanded: map<Coord, nat>, cells: seq<Coord>, skip: set<Coord>) {
    && ScoresSound(grid, start, cameFrom, gScore)
    && EntriesSound(start, goal, open, gScore)
    && Frontier(start, goal, open, gScore, expanded)
    && ClosedExcept(grid, gScore, expanded, skip)
    && goal !in expanded
    && (forall n {:trigger Recorded(gScore, n)} :: Recorded(gScore, n) ==> n in cells)
  }

  /** Following any walk from the start, the search state always holds a
      frontier entry whose priority does not exceed the walk's number of moves. */
  lemma {:induction false} FrontierCoversWalk(grid: Grid, start: Coord, goal: Coord, open: seq<Entry>, gScore: map<Coord, nat>,
                                              expanded: map<Coord, nat>, w: seq<Coord>, j: nat)
    requires Walk(grid, w, start, goal)
    requires Frontier(start, goal, open, gScore, expanded)
    requires ClosedExcept(grid, gScore, expanded, {})
    requires goal !in expanded
    requires j < |w| && w[j] in gScore && gScore[w[j]] <= j
    ensures exists e :: e in open && e.f <= |w| - 1
    decreases |w| - j
  {
    var n := w[j];
    assert Recorded(gScore, n);
    if Entry(Key(start, goal, gScore, n), n) in open {
      if n != start {
        Admissible(grid, w, start, goal, j);
      }
    } else {
      assert Done(expanded, n);
      assert j < |w| - 1;
      assert Step(grid, w[j], w[j + 1]);
      FrontierCoversWalk(grid, start, goal, open, gScore, expanded, w, j + 1);
    }
  }

  /** When the goal is popped, its cost is at most the length of every walk. */
  lemma GoalCostOptimal(grid: Grid, start: Coord, goal: Coord, open: seq<Entry>, cameFrom: map<Coord, Coord>,
                        gScore: map<Coord, nat>, expanded: map<Coord, nat>, cells: seq<Coord>, w: seq<Coord>)
    requires Searching(grid, start, goal, open, cameFrom, gScore, expanded, cells, {})
    requires |open| > 0 && Least(open).at == goal
    requires Walk(grid, w, start, goal)
    ensures goal in gScore && gScore[goal] <= |w| - 1
  {
    FrontierCoversWalk(grid, start, goal, open, gScore, expanded, w, 0);
    var e :| e in open && e.f <= |w| - 1;
    assert Queued(open, Least(open)) && Queued(open, e);
    assert EntryLe(Least(open), e);
    DistanceZeroIff(goal, goal);
  }

  /** An exhausted frontier means no walk reaches the goal. */
  lemma ExhaustedUnreachable(grid: Grid, start: Coord, goal: Coord, cameFrom: map<Coord, Coord>,
                             gScore: map<Coord, nat>, expanded: map<Coord, nat>, cells: seq<Coord>, w: seq<Coord>)
    requires Searching(grid, start, goal, [], cameFrom, gScore, expanded, cells, {})
    ensures !Walk(grid, w, start, goal)
  {
    if Walk(grid, w, start, goal) {
      FrontierCoversWalk(grid, start, goal, [], gScore, expanded, w, 0);
    }
  }

  /** One cost improvement keeps the costs and back-pointers sound. */
  lemma ImproveScores(grid: Grid, start: Coord, cameFrom: map<Coord, Coord>, gScore: map<Coord, nat>,
                      current: Coord, neighbor: Coord, tentative: nat)
    requires ScoresSound(grid, start, cameFrom, gScore)
    requires current in gScore && Step(grid, current, neighbor) && tentative == gScore[current] + 1
    requires neighbor !in gScore || tentative < gScore[neighbor]
    ensures neighbor != start
    ensures ScoresSound(grid, start, cameFrom[neighbor := current], gScore[neighbor := tentative])
  {
    var g' := gScore[neighbor := tentative];
    var c' := cameFrom[neighbor := current];
    assert |g'| >= |gScore|;
    forall n | Recorded(g', n) && n != start
      ensures n in c'
    {
      if n != neighbor {
        assert Recorded(gScore, n);
      }
    }
    forall n | Recorded(g', n)
      ensures g'[n] < |g'| && (n == start || Open(grid, n))
    {
      if n != neighbor {
        assert Recorded(gScore, n);
      } else {
        assert Recorded(gScore, current);
        if neighbor in gScore {
          assert Recorded(gScore, neighbor);
        }
      }
    }
    forall n | Linked(c', n)
      ensures n in g' && c'[n] in g' && Step(grid, c'[n], n) && g'[c'[n]] < g'[n]
    {
      if n != neighbor {
        assert Linked(cameFrom, n);
      }
    }
  }

  /** One cost improvement keeps the frontier entries sound and every
      recorded coordinate accounted for. */
  lemma ImproveFrontier(start: Coord, goal: Coord, open: seq<Entry>, gScore: map<Coord, nat>, expanded: map<Coord, nat>,
                        neighbor: Coord, tentative: nat)
    requires EntriesSound(start, goal, open, gScore) && Frontier(start, goal, open, gScore, expanded)
    requires neighbor != start && (neighbor !in gScore || tentative < gScore[neighbor])
    ensures var g' := gScore[neighbor := tentative];
      var open' := open + [Entry(tentative + Distance(neighbor, goal), neighbor)];
      EntriesSound(start, goal, open', g') && Frontier(start, goal, open', g', expanded)
  {
    var g' := gScore[neighbor := tentative];
    var open' := open + [Entry(tentative + Distance(neighbor, goal), neighbor)];
    forall e | Queued(open', e)
      ensures e.at in g' && (e.f >= g'[e.at] + Distance(e.at, goal) || (e.at == start && e.f == 0))
    {
      if e != open'[|open|] {
        assert Queued(open, e);
      }
    }
    forall n | Recorded(g', n)
      ensures Entry(Key(start, goal, g', n), n) in open' || (n in expanded && expanded[n] <= g'[n])
    {
      if n != neighbor {
        assert Recorded(gScore, n);
        assert Key(start, goal, g', n) == Key(start, goal, gScore, n);
        assert Entry(Key(start, goal, gScore, n), n) in open ==> Entry(Key(start, goal, gScore, n), n) in open';
      } else {
        assert open'[|open|] == Entry(Key(start, goal, g', n), n);
      }
    }
  }

  /** Lowering one cost keeps the expanded coordinates' promise. */
  lemma ImproveClosed(grid: Grid, gScore: map<Coord, nat>, expanded: map<Coord, nat>, skip: set<Coord>,
                      neighbor: Coord, tentative: nat)
    requires ClosedExcept(grid, gScore, expanded, skip)
    requires neighbor !in gScore || tentative < gScore[neighbor]
    ensures ClosedExcept(grid, gScore[neighbor := tentative], expanded, skip)
  {
    var g' := gScore[neighbor := tentative];
    forall n, m | Done(expanded, n) && n !in skip && Step(grid, n, m)
      ensures m in g' && g'[m] <= expanded[n] + 1
    {
    }
  }

  /** One cost improvement lowers the termination measure. */
  lemma ImproveMeasure(grid: Grid, start: Coord, cameFrom: map<Coord, Coord>, gScore: map<Coord, nat>, cells: seq<Coord>,
                       current: Coord, neighbor: Coord, tentative: nat)
    requires ScoresSound(grid, start, cameFrom, gScore)
    requires cells == AllCells(grid) + [start]
    requires forall n {:trigger Recorded(gScore, n)} :: Recorded(gScore, n) ==> n in cells
    requires current in gScore && Open(grid, neighbor) && tentative == gScore[current] + 1
    requires neighbor !in gScore || tentative < gScore[neighbor]
    ensures neighbor in cells
    ensures Potential(gScore[neighbor := tentative], cells, |cells|) < Potential(gScore, cells, |cells|)
  {
    var g' := gScore[neighbor := tentative];
    CellsContain(|grid|, |grid[0]|, neighbor);
    assert neighbor in cells;
    forall x | x in g'.Keys
      ensures x in cells
    {
      if x != neighbor {
        assert Recorded(gScore, x);
      }
    }
    SubsetCard(g'.Keys, cells);
    assert Recorded(gScore, current);
    assert |g'| == |g'.Keys|;
    PotentialDrops(gScore, g', cells, |cells|, neighbor);
  }

  /** One cost improvement of the expansion loop (record the back-pointer and
      the new cost, push the neighbour) keeps the search state sound, only
      lowers costs and lowers the termination measure. */
  lemma Improve(grid: Grid, start: Coord, goal: Coord, open: seq<Entry>, cameFrom: map<Coord, Coord>,
                gScore: map<Coord, nat>, expanded: map<Coord, nat>, cells: seq<Coord>,
                current: Coord, neighbor: Coord, tentative: nat)
    requires Searching(grid, start, goal, open, cameFrom, gScore, expanded, cells, {current})
    requires cells == AllCells(grid) + [start]
    requires current in gScore && Step(grid, current, neighbor) && tentative == gScore[current] + 1
    requires neighbor !in gScore || tentative < gScore[neighbor]
    ensures var g' := gScore[neighbor := tentative];
      && Searching(grid, start, goal, open + [Entry(tentative + Distance(neighbor, goal), neighbor)],
                   cameFrom[neighbor := current], g', expanded, cells, {current})
      && Potential(g', cells, |cells|) < Potential(gScore, cells, |cells|)
      && (forall n :: n in gScore ==> n in g' && g'[n] <= gScore[n])
  {
    ImproveScores(grid, start, cameFrom, gScore, current, neighbor, tentative);
    ImproveFrontier(start, goal, open, gScore, expanded, neighbor, tentative);
    ImproveClosed(grid, gScore, expanded, {current}, neighbor, tentative);
    ImproveMeasure(grid, start, cameFrom, gScore, cells, current, neighbor, tentative);
    forall n | Recorded(gScore[neighbor := tentative], n)
      ensures n in cells
    {
      if n != neighbor {
        assert Recorded(gScore, n);
      }
    }
  }

  /** The neighbours reached by the first `i` table entries that the filters
      accept all have a cost of at most `bound`. */
  ghost predicate Covered(grid: Grid, gScore: map<Coord, nat>, current: Coord, ds: seq<(int, int)>, i: nat, bound: int)
    requires i <= |ds|
  {
    forall j :: 0 <= j < i && Step(grid, current, Shift(current, ds[j])) ==>
      Shift(current, ds[j]) in gScore && gScore[Shift(current, ds[j])] <= bound
  }

  /** Costs that only go down keep the covered entries covered, and one more
      entry is covered once its neighbour's cost is within the bound. */
  lemma CoveredNext(grid: Grid, g0: map<Coord, nat>, g1: map<Coord, nat>, current: Coord, ds: seq<(int, int)>, i: nat, bound: int)
    requires i < |ds| && Covered(grid, g0, current, ds, i, bound)
    requires forall n :: n in g0 ==> n in g1 && g1[n] <= g0[n]
    requires Step(grid, current, Shift(current, ds[i])) ==>
      Shift(current, ds[i]) in g1 && g1[Shift(current, ds[i])] <= bound
    ensures Covered(grid, g1, current, ds, i + 1, bound)
  {
  }

  /** The state before the first pop: only the start, pushed with priority 0. */
  lemma InitialState(grid: Grid, start: Coord, goal: Coord)
    ensures Searching(grid, start, goal, [Entry(0, start)], map[], map[start := 0], map[], AllCells(grid) + [start], {})
  {
    var g: map<Coord, nat> := map[start := 0];
    assert forall n :: Recorded(g, n) ==> n == start;
    assert Key(start, goal, g, start) == 0;
  }

  /** Popping the least entry for a coordinate other than the goal and
      recording it as expanded with its current cost leaves a sound state in
      which only that coordinate's promise is outstanding. */
  lemma PopState(grid: Grid, start: Coord, goal: Coord, open: seq<Entry>, cameFrom: map<Coord, Coord>,
                 gScore: map<Coord, nat>, expanded: map<Coord, nat>, cells: seq<Coord>, top: Entry)
    requires Searching(grid, start, goal, open, cameFrom, gScore, expanded, cells, {})
    requires top in open && top.at != goal
    ensures top.at in gScore
    ensures Searching(grid, start, goal, RemoveOne(open, top), cameFrom, gScore,
                      expanded[top.at := gScore[top.at]], cells, {top.at})
  {
    assert Queued(open, top);
    var rest := RemoveOne(open, top);
    var ex := expanded[top.at := gScore[top.at]];
    forall e | Queued(rest, e)
      ensures e.at in gScore && (e.f >= gScore[e.at] + Distance(e.at, goal) || (e.at == start && e.f == 0))
    {
      assert Queued(open, e);
    }
    forall n | Recorded(gScore, n)
      ensures Entry(Key(start, goal, gScore, n), n) in rest || (n in ex && ex[n] <= gScore[n])
    {
      if n != top.at {
        assert Entry(Key(start, goal, gScore, n), n) != top;
      }
    }
    forall n, m | Done(ex, n) && n !in {top.at} && Step(grid, n, m)
      ensures m in gScore && gScore[m] <= ex[n] + 1
    {
      assert Done(expanded, n);
    }
  }

  /** Once every table entry is covered, the expanded coordinate's promise
      holds again. */
  lemma FinishExpansion(grid: Grid, gScore: map<Coord, nat>, expanded: map<Coord, nat>, current: Coord)
    requires ClosedExcept(grid, gScore, expanded, {current})
    requires current in expanded
    requires Covered(grid, gScore, current, Directions(Parity(current)), 6, expanded[current] + 1)
    ensures ClosedExcept(grid, gScore, expanded, {})
  {
    forall m | Step(grid, current, m)
      ensures m in gScore && gScore[m] <= expanded[current] + 1
    {
      var j := StepHasDirection(grid, current, m);
    }
  }

  /** When the goal is popped, its back-pointer chain is a shortest walk. */
  lemma GoalFound(grid: Grid, start: Coord, goal: Coord, open: seq<Entry>, cameFrom: map<Coord, Coord>,
                  gScore: map<Coord, nat>, expanded: map<Coord, nat>, cells: seq<Coord>, path: seq<Coord>)
    requires Searching(grid, start, goal, open, cameFrom, gScore, expanded, cells, {})
    requires |open| > 0 && Least(open).at == goal
    requires Walk(grid, path, start, goal) && goal in gScore && |path| - 1 <= gScore[goal]
    ensures forall w :: Walk(grid, w, start, goal) ==> |path| <= |w|
    ensures start == goal ==> path == [start]
    ensures goal != start ==> Open(grid, goal)
  {
    forall w | Walk(grid, w, start, goal)
      ensures |path| <= |w|
    {
      GoalCostOptimal(grid, start, goal, open, cameFrom, gScore, expanded, cells, w);
    }
    if start == goal {
      assert Walk(grid, [start], start, goal);
    }
    Conclude(grid, start, goal, path);
  }

  // ---------------------------------------------------------------------------
  // The search

  /** `s` follows back-pointers: each element but the last has one, and it
      is the next element. */
  ghost predicate BackChain(cameFrom: map<Coord, Coord>, s: seq<Coord>) {
    forall i :: 0 <= i < |s| - 1 ==> s[i] in cameFrom && cameFrom[s[i]] == s[i + 1]
  }

  lemma BackChainExtend(cameFrom: map<Coord, Coord>, s: seq<Coord>)
    requires BackChain(cameFrom, s) && |s| > 0 && s[|s| - 1] in cameFrom
    ensures BackChain(cameFrom, s + [cameFrom[s[|s| - 1]]])
  {
  }

  /** Costs strictly fall along a back-pointer chain, so it repeats nothing,
      and read backwards it is a walk of accepted moves. */
  lemma {:induction false} BackChainReversed(grid: Grid, cameFrom: map<Coord, Coord>, gScore: map<Coord, nat>, s: seq<Coord>)
    requires BackPointersSound(grid, cameFrom, gScore) && BackChain(cameFrom, s)
    requires |s| > 0 && s[0] in gScore
    ensures forall i :: 0 <= i < |s| ==> s[i] in gScore
    ensures forall i, j :: 0 <= i < j < |s| ==> gScore[s[i]] > gScore[s[j]]
    ensures Walk(grid, Reversed(s), s[|s| - 1], s[0])
    ensures NoRepeats(Reversed(s))
  {
    if |s| > 1 {
      var t := s[1..];
      assert Linked(cameFrom, s[0]);
      assert BackChain(cameFrom, t);
      BackChainReversed(grid, cameFrom, gScore, t);
      assert forall i :: 1 <= i < |s| ==> s[i] == t[i - 1];
      assert gScore[s[0]] > gScore[s[1]];
      var r := Reversed(s);
      forall k | 0 <= k < |r| - 1
        ensures Step(grid, r[k], r[k + 1])
      {
        var m := |s| - 1 - k;
        assert r[k] == s[m] && r[k + 1] == s[m - 1];
        assert Linked(cameFrom, s[m - 1]) && cameFrom[s[m - 1]] == s[m];
      }
    }
  }

  /** Follows the back-pointers from the goal to the start and reverses the
      collected coordinates. */
  method ReconstructPath(ghost grid: Grid, ghost start: Coord, cameFrom: map<Coord, Coord>,
                         gScore: map<Coord, nat>, goal: Coord) returns (path: seq<Coord>)
    requires RootedAt(start, cameFrom, gScore) && BackPointersSound(grid, cameFrom, gScore)
    requires goal in gScore
    ensures Walk(grid, path, start, goal)
    ensures NoRepeats(path)
    ensures |path| - 1 <= gScore[goal]
  {
    var current := goal;
    var back: seq<Coord> := [];
    while current in cameFrom
      invariant current in gScore
      invariant |back| + gScore[current] <= gScore[goal]
      invariant (back + [current])[0] == goal
      invariant BackChain(cameFrom, back + [current])
      decreases gScore[current]
    {
      assert Linked(cameFrom, current);
      BackChainExtend(cameFrom, back + [current]);
      assert back + [current] + [cameFrom[current]] == (back + [current]) + [cameFrom[current]];
      back := back + [current];
      current := cameFrom[current];
    }
    assert Recorded(gScore, current);
    back := back + [current];
    BackChainReversed(grid, cameFrom, gScore, back);
    path := Reversed(back);
  }

  /** The state of the expansion loop after the first `i` table entries. */
  ghost predicate Expanding(grid: Grid, start: Coord, goal: Coord, current: Coord, i: nat,
                            open: seq<Entry>, cameFrom: map<Coord, Coord>, gScore: map<Coord, nat>,
                            expanded: map<Coord, nat>, cells: seq<Coord>, open0: seq<Entry>, pot0: nat)
    requires i <= 6
  {
    && Searching(grid, start, goal, open, cameFrom, gScore, expanded, cells, {current})
    && cells == AllCells(grid) + [start]
    && current in gScore && current in expanded && expanded[current] == gScore[current]
    && Covered(grid, gScore, current, Directions(Parity(current)), i, expanded[current] + 1)
    && Potential(gScore, cells, |cells|) <= pot0
    && (Potential(gScore, cells, |cells|) == pot0 ==> open == open0)
  }

  /** A table entry the filters reject, or whose neighbour already costs at
      most one more than the current coordinate, changes nothing. */
  lemma ExpandingSkip(grid: Grid, start: Coord, goal: Coord, current: Coord, i: nat,
                      open: seq<Entry>, cameFrom: map<Coord, Coord>, gScore: map<Coord, nat>,
                      expanded: map<Coord, nat>, cells: seq<Coord>, open0: seq<Entry>, pot0: nat)
    requires i < 6 && Expanding(grid, start, goal, current, i, open, cameFrom, gScore, expanded, cells, open0, pot0)
    requires var nb := Shift(current, Directions(Parity(current))[i]);
      Step(grid, current, nb) ==> nb in gScore && gScore[nb] <= gScore[current] + 1
    ensures Expanding(grid, start, goal, current, i + 1, open, cameFrom, gScore, expanded, cells, open0, pot0)
  {
    CoveredNext(grid, gScore, gScore, current, Directions(Parity(current)), i, expanded[current] + 1);
  }

  /** A table entry whose neighbour gets a lower cost. */
  lemma ExpandingImprove(grid: Grid, start: Coord, goal: Coord, current: Coord, i: nat,
                         open: seq<Entry>, cameFrom: map<Coord, Coord>, gScore: map<Coord, nat>,
                         expanded: map<Coord, nat>, cells: seq<Coord>, open0: seq<Entry>, pot0: nat,
                         neighbor: Coord, tentative: nat)
    requires i < 6 && Expanding(grid, start, goal, current, i, open, cameFrom, gScore, expanded, cells, open0, pot0)
    requires neighbor == Shift(current, Directions(Parity(current))[i]) && Step(grid, current, neighbor)
    requires tentative == gScore[current] + 1 && (neighbor !in gScore || tentative < gScore[neighbor])
    ensures Expanding(grid, start, goal, current, i + 1, open + [Entry(tentative + Distance(neighbor, goal), neighbor)],
                      cameFrom[neighbor := current], gScore[neighbor := tentative], expanded, cells, open0, pot0)
    ensures forall n :: n in gScore ==> n in gScore[neighbor := tentative] && gScore[neighbor := tentative][n] <= gScore[n]
  {
    Improve(grid, start, goal, open, cameFrom, gScore, expanded, cells, current, neighbor, tentative);
    CoveredNext(grid, gScore, gScore[neighbor := tentative], current, Directions(Parity(current)), i, expanded[current] + 1);
  }

  /** The expansion loop of one popped coordinate: every table entry whose
      neighbour is in bounds, does not block and passes the movement filter
      gets the cost one above the current one, unless it already has a cost
      at most that, in which case nothing changes. */
  method ExpandNeighbors(grid: Grid, ghost start: Coord, goal: Coord, current: Coord, open0: seq<Entry>,
                         cameFrom0: map<Coord, Coord>, gScore0: map<Coord, nat>,
                         ghost expanded: map<Coord, nat>, ghost cells: seq<Coord>)
    returns (open: seq<Entry>, cameFrom: map<Coord, Coord>, gScore: map<Coord, nat>)
    requires Searching(grid, start, goal, open0, cameFrom0, gScore0, expanded, cells, {current})
    requires cells == AllCells(grid) + [start]
    requires current in gScore0 && current in expanded && expanded[current] == gScore0[current]
    ensures Searching(grid, start, goal, open, cameFrom, gScore, expanded, cells, {})
    ensures Potential(gScore, cells, |cells|) <= Potential(gScore0, cells, |cells|)
    ensures Potential(gScore, cells, |cells|) == Potential(gScore0, cells, |cells|) ==> open == open0
    ensures forall n :: n in gScore0 ==> n in gScore && gScore[n] <= gScore0[n]
  {
    open, cameFrom, gScore := open0, cameFrom0, gScore0;
    ghost var pot0 := Potential(gScore0, cells, |cells|);
    var directions := Directions(current.col % 2);
    assert directions == Directions(Parity(current));
    for i := 0 to |directions|
      invariant Expanding(grid, start, goal, current, i, open, cameFrom, gScore, expanded, cells, open0, pot0)
      invariant forall n :: n in gScore0 ==> n in gScore && gScore[n] <= gScore0[n]
    {
      var (dx, dy) := directions[i];
      var neighbor := Coord(current.row + dx, current.col + dy);
      FiltersAcceptSteps(grid, current, i);
      assert neighbor == Shift(current, directions[i]);
      if 0 <= neighbor.row < |grid| && 0 <= neighbor.col < |grid[0]| {
        var cell := grid[neighbor.row][neighbor.col];
        if cell == Obstacle || cell == Wall {
          ExpandingSkip(grid, start, goal, current, i, open, cameFrom, gScore, expanded, cells, open0, pot0);
          continue;
        }
        if !(dx == 0 || dy == 0 || dx + dy == 0) {
          ExpandingSkip(grid, start, goal, current, i, open, cameFrom, gScore, expanded, cells, open0, pot0);
          continue;
        }
        var tentative := gScore[current] + 1;
        assert !Blocks(grid[neighbor.row][neighbor.col]);
        assert Step(grid, current, neighbor);
        if neighbor !in gScore || tentative < gScore[neighbor] {
          ExpandingImprove(grid, start, goal, current, i, open, cameFrom, gScore, expanded, cells, open0, pot0,
                           neighbor, tentative);
          cameFrom := cameFrom[neighbor := current];
          gScore := gScore[neighbor := tentative];
          open := open + [Entry(tentative + Distance(neighbor, goal), neighbor)];
        } else {
          ExpandingSkip(grid, start, goal, current, i, open, cameFrom, gScore, expanded, cells, open0, pot0);
        }
      } else {
        ExpandingSkip(grid, start, goal, current, i, open, cameFrom, gScore, expanded, cells, open0, pot0);
      }
    }
    FinishExpansion(grid, gScore, expanded, current);
  }

  /** A* from `start` to `goal`: a shortest walk, or None when the frontier
      runs empty. */
  method AStar(grid: Grid, start: Coord, goal: Coord) returns (r: Option<seq<Coord>>)
    ensures r.Some? ==> Walk(grid, r.value, start, goal) && NoRepeats(r.value)
    ensures r.Some? ==> forall w :: Walk(grid, w, start, goal) ==> |r.value| <= |w|
    ensures r.None? ==> forall w :: !Walk(grid, w, start, goal)
    ensures start == goal ==> r == Some([start])
    ensures goal != start && !Open(grid, goal) ==> r.None?
  {
    var open := [Entry(0, start)];
    var cameFrom: map<Coord, Coord> := map[];
    var gScore: map<Coord, nat> := map[start := 0];
    ghost var expanded: map<Coord, nat> := map[];
    ghost var cells := AllCells(grid) + [start];
    InitialState(grid, start, goal);
    while |open| > 0
      invariant Searching(grid, start, goal, open, cameFrom, gScore, expanded, cells, {})
      decreases Potential(gScore, cells, |cells|), |open|
    {
      ghost var before := open;
      var top := Least(open);
      assert Queued(open, top);
      open := RemoveOne(open, top);
      var current := top.at;
      if current == goal {
        var path := ReconstructPath(grid, start, cameFrom, gScore, goal);
        GoalFound(grid, start, goal, before, cameFrom, gScore, expanded, cells, path);
        return Some(path);
      }
      PopState(grid, start, goal, before, cameFrom, gScore, expanded, cells, top);
      expanded := expanded[current := gScore[current]];
      open, cameFrom, gScore := ExpandNeighbors(grid, start, goal, current, open, cameFrom, gScore, expanded, cells);
    }
    forall w
      ensures !Walk(grid, w, start, goal)
    {
      ExhaustedUnreachable(grid, start, goal, cameFrom, gScore, expanded, cells, w);
    }
    assert !Walk(grid, [start], start, goal);
    r := None;
  }

  /** The consequences of returning a walk that is no longer than any other. */
  lemma Conclude(grid: Grid, start: Coord, goal: Coord, path: seq<Coord>)
    requires Walk(grid, path, start, goal)
    requires start == goal ==> |path| <= 1
    ensures start == goal ==> path == [start]
    ensures goal != start ==> Open(grid, goal)
  {
    if goal != start {
      assert Step(grid, path[|path| - 2], path[|path| - 1]);
    }
  }
}
