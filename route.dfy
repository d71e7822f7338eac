/** The route planner: one search per treasure, in order, from the last
    treasure reached; a leg without a walk is skipped and the position stays
    where it was. */
module Route {
  import opened HexGrid
  import opened Heuristic
  import opened Moves
  import opened Search

  /** Some walk of accepted moves leads from `a` to `b`. */
  ghost predicate Reachable(grid: Grid, a: Coord, b: Coord) {
    exists w :: Walk(grid, w, a, b)
  }

  /** `p` is a walk from `a` to `b` no longer than any other. */
  ghost predicate Shortest(grid: Grid, p: seq<Coord>, a: Coord, b: Coord) {
    Walk(grid, p, a, b) && forall w :: Walk(grid, w, a, b) ==> |p| <= |w|
  }

  /** Everything of a leg after its first coordinate, as `path[1:]` takes it. */
  function Tail(p: seq<Coord>): seq<Coord> {
    if p == [] then [] else p[1..]
  }

  /** The tails of the legs, one after the other. */
  function Tails(paths: seq<seq<Coord>>): seq<Coord> {
    if paths == [] then [] else Tails(paths[..|paths| - 1]) + Tail(paths[|paths| - 1])
  }

  /** The number of moves the legs make together. */
  function StepCount(paths: seq<seq<Coord>>): int {
    if paths == [] then 0 else StepCount(paths[..|paths| - 1]) + |paths[|paths| - 1]| - 1
  }

  /** Where the route stands after the legs found so far: the end of the last
      leg, or the start when none was found (legs are never empty). */
  function Position(start: Coord, paths: seq<seq<Coord>>): Coord {
    if paths == [] || paths[|paths| - 1] == [] then start
    else paths[|paths| - 1][|paths[|paths| - 1]| - 1]
  }

  /** `paths` are the legs the planner finds for `targets`: for each target in
      turn, a shortest walk from the current position if there is a walk at
      all, and nothing otherwise. */
  ghost predicate RouteOf(grid: Grid, start: Coord, targets: seq<Coord>, paths: seq<seq<Coord>>)
    decreases |targets|
  {
    if targets == [] then paths == []
    else
      var earlier := targets[..|targets| - 1];
      var t := targets[|targets| - 1];
      || (RouteOf(grid, start, earlier, paths) && !Reachable(grid, Position(start, paths), t))
      || (&& |paths| > 0
          && RouteOf(grid, start, earlier, paths[..|paths| - 1])
          && Reachable(grid, Position(start, paths[..|paths| - 1]), t)
          && Shortest(grid, paths[|paths| - 1], Position(start, paths[..|paths| - 1]), t))
  }

  /** There is at most one leg per target. */
  lemma {:induction false} RouteOfBound(grid: Grid, start: Coord, targets: seq<Coord>, paths: seq<seq<Coord>>)
    requires RouteOf(grid, start, targets, paths)
    ensures |paths| <= |targets|
    decreases |targets|
  {
    if targets != [] {
      var earlier := targets[..|targets| - 1];
      if RouteOf(grid, start, earlier, paths) && !Reachable(grid, Position(start, paths), targets[|targets| - 1]) {
        RouteOfBound(grid, start, earlier, paths);
      } else {
        RouteOfBound(grid, start, earlier, paths[..|paths| - 1]);
      }
    }
  }

  /** The legs of a route are walks from one position to the next, and each
      leg ends on its target. */
  lemma {:induction false} RouteLegs(grid: Grid, start: Coord, targets: seq<Coord>, paths: seq<seq<Coord>>, k: nat)
    requires RouteOf(grid, start, targets, paths)
    requires k < |paths|
    ensures Shortest(grid, paths[k], Position(start, paths[..k]), Position(start, paths[..k + 1]))
    ensures paths[k][|paths[k]| - 1] in targets
    decreases |targets|
  {
    var earlier := targets[..|targets| - 1];
    var t := targets[|targets| - 1];
    if RouteOf(grid, start, earlier, paths) && !Reachable(grid, Position(start, paths), t) {
      RouteLegs(grid, start, earlier, paths, k);
    } else if k < |paths| - 1 {
      var init := paths[..|paths| - 1];
      RouteLegs(grid, start, earlier, init, k);
      assert init[k] == paths[k] && init[..k] == paths[..k] && init[..k + 1] == paths[..k + 1];
    } else {
      assert paths[..k + 1] == paths;
    }
  }

  /** The concatenated tails make one move per element. */
  lemma {:induction false} TailsLength(paths: seq<seq<Coord>>)
    requires forall k :: 0 <= k < |paths| ==> |paths[k]| >= 1
    ensures |Tails(paths)| == StepCount(paths)
    decreases |paths|
  {
    if paths != [] {
      TailsLength(paths[..|paths| - 1]);
    }
  }

  /** A target without a walk from the current position adds no leg. */
  lemma RouteSkip(grid: Grid, start: Coord, targets: seq<Coord>, i: nat, paths: seq<seq<Coord>>)
    requires i < |targets| && RouteOf(grid, start, targets[..i], paths)
    requires forall w :: !Walk(grid, w, Position(start, paths), targets[i])
    ensures RouteOf(grid, start, targets[..i + 1], paths)
  {
    assert targets[..i + 1][..i] == targets[..i];
  }

  /** A shortest walk to the next target becomes the next leg. */
  lemma RouteFound(grid: Grid, start: Coord, targets: seq<Coord>, i: nat, paths: seq<seq<Coord>>, p: seq<Coord>)
    requires i < |targets| && RouteOf(grid, start, targets[..i], paths)
    requires Shortest(grid, p, Position(start, paths), targets[i])
    ensures RouteOf(grid, start, targets[..i + 1], paths + [p])
  {
    assert targets[..i + 1][..i] == targets[..i];
    assert (paths + [p])[..|paths|] == paths;
    assert Reachable(grid, Position(start, paths), targets[i]);
  }

  /** After a found leg the position is the leg's target, and the complete
      route grows by exactly the leg's tail. */
  lemma ExtendRoute(start: Coord, paths: seq<seq<Coord>>, complete: seq<Coord>, p: seq<Coord>, t: Coord)
    requires complete == [start] + Tails(paths)
    requires |p| > 0 && p[|p| - 1] == t
    ensures Position(start, paths + [p]) == t
    ensures complete + p[1..] == [start] + Tails(paths + [p])
  {
    var q := paths + [p];
    assert q[..|q| - 1] == paths && q[|q| - 1] == p;
    assert Tails(q) == Tails(paths) + p[1..];
    calc {
      complete + p[1..];
      ([start] + Tails(paths)) + p[1..];
      [start] + (Tails(paths) + p[1..]);
    }
  }

  /** A found leg keeps every leg non-empty and free of repeats. */
  lemma LegsAppend(paths: seq<seq<Coord>>, p: seq<Coord>)
    requires forall k :: 0 <= k < |paths| ==> |paths[k]| >= 1 && NoRepeats(paths[k])
    requires |p| >= 1 && NoRepeats(p)
    ensures forall k :: 0 <= k < |paths| + 1 ==> |(paths + [p])[k]| >= 1 && NoRepeats((paths + [p])[k])
  {
    forall k | 0 <= k < |paths| + 1
      ensures |(paths + [p])[k]| >= 1 && NoRepeats((paths + [p])[k])
    {
      if k < |paths| {
        assert (paths + [p])[k] == paths[k];
      } else {
        assert (paths + [p])[k] == p;
      }
    }
  }

  /** One found leg: the route gains it as its next leg, the position moves to
      the target, and the complete route, still a walk from the start, gains
      exactly the leg's tail. */
  lemma FoundLeg(grid: Grid, start: Coord, targets: seq<Coord>, i: nat, paths: seq<seq<Coord>>,
                 complete: seq<Coord>, p: seq<Coord>)
    requires i < |targets| && RouteOf(grid, start, targets[..i], paths)
    requires complete == [start] + Tails(paths) && Walk(grid, complete, start, Position(start, paths))
    requires Walk(grid, p, Position(start, paths), targets[i])
    requires forall w :: Walk(grid, w, Position(start, paths), targets[i]) ==> |p| <= |w|
    ensures RouteOf(grid, start, targets[..i + 1], paths + [p])
    ensures Position(start, paths + [p]) == targets[i]
    ensures complete + p[1..] == [start] + Tails(paths + [p])
    ensures Walk(grid, complete + p[1..], start, targets[i])
  {
    RouteFound(grid, start, targets, i, paths, p);
    ExtendRoute(start, paths, complete, p, targets[i]);
    WalkAppend(grid, complete, p, start, Position(start, paths), targets[i]);
  }

  /** Chains the searches over `targets`: after each found leg the position
      moves to its target and the leg's tail is appended to the complete
      route; a target without a walk adds nothing. */
  method Plan(grid: Grid, start: Coord, targets: seq<Coord>)
    returns (paths: seq<seq<Coord>>, complete: seq<Coord>, pos: Coord)
    ensures RouteOf(grid, start, targets, paths)
    ensures pos == Position(start, paths)
    ensures complete == [start] + Tails(paths)
    ensures Walk(grid, complete, start, pos)
    ensures |complete| == 1 + StepCount(paths)
    ensures |paths| <= |targets|
    ensures forall k :: 0 <= k < |paths| ==> NoRepeats(paths[k])
  {
    paths := [];
    complete := [start];
    pos := start;
    for i := 0 to |targets|
      invariant RouteOf(grid, start, targets[..i], paths)
      invariant pos == Position(start, paths)
      invariant complete == [start] + Tails(paths)
      invariant Walk(grid, complete, start, pos)
      invariant forall k :: 0 <= k < |paths| ==> |paths[k]| >= 1 && NoRepeats(paths[k])
    {
      var treasure := targets[i];
      var path := AStar(grid, pos, treasure);
      if path.Some? {
        FoundLeg(grid, start, targets, i, paths, complete, path.value);
        LegsAppend(paths, path.value);
        paths := paths + [path.value];
        pos := treasure;
        complete := complete + path.value[1..];
      } else {
        RouteSkip(grid, start, targets, i, paths);
      }
    }
    assert targets[..|targets|] == targets;
    RouteOfBound(grid, start, targets, paths);
    TailsLength(paths);
  }

  // ---------------------------------------------------------------------------
  // The route on the world map

  /** Where the leg for target `k` starts when no leg before it was skipped. */
  function Prev(start: Coord, targets: seq<Coord>, k: nat): Coord
    requires k <= |targets|
  {
    if k == 0 then start else targets[k - 1]
  }

  /** Dropping the last target leaves the earlier starting points as they are. */
  lemma PrevPrefix(start: Coord, targets: seq<Coord>, k: nat)
    requires k < |targets|
    ensures Prev(start, targets[..|targets| - 1], k) == Prev(start, targets, k)
  {
  }

  /** Each target is reachable from the one before it, the first one from the
      start. */
  ghost predicate ChainReachable(grid: Grid, start: Coord, targets: seq<Coord>) {
    forall k :: 0 <= k < |targets| ==> Reachable(grid, Prev(start, targets, k), targets[k])
  }

  /** Dropping the last target keeps the chain reachable. */
  lemma ChainPrefix(grid: Grid, start: Coord, targets: seq<Coord>)
    requires ChainReachable(grid, start, targets) && targets != []
    ensures ChainReachable(grid, start, targets[..|targets| - 1])
  {
    var earlier := targets[..|targets| - 1];
    forall k | 0 <= k < |earlier|
      ensures Reachable(grid, Prev(start, earlier, k), earlier[k])
    {
      assert Prev(start, earlier, k) == Prev(start, targets, k);
      assert Reachable(grid, Prev(start, targets, k), targets[k]);
    }
  }

  /** When every target is reachable from the one before it, no leg is
      skipped: there is one leg per target, each a shortest walk from the
      previous target, and the route ends on the last target. */
  lemma {:induction false} RouteReachesAll(grid: Grid, start: Coord, targets: seq<Coord>, paths: seq<seq<Coord>>)
    requires RouteOf(grid, start, targets, paths) && ChainReachable(grid, start, targets)
    ensures |paths| == |targets|
    ensures Position(start, paths) == Prev(start, targets, |targets|)
    ensures forall k :: 0 <= k < |paths| ==> Shortest(grid, paths[k], Prev(start, targets, k), targets[k])
    decreases |targets|, 1
  {
    if targets != [] {
      var n := |targets| - 1;
      var earlier := targets[..n];
      LastNotSkipped(grid, start, targets, paths);
      var init := paths[..|paths| - 1];
      ChainPrefix(grid, start, targets);
      RouteReachesAll(grid, start, earlier, init);
      PrevPrefix(start, targets, n);
      LegsExtend(grid, start, targets, paths, earlier, init);
    }
  }

  /** In a chain of reachable targets the last target is not skipped: the
      route's last leg is a shortest walk to it from where the earlier legs
      end. */
  lemma {:induction false} LastNotSkipped(grid: Grid, start: Coord, targets: seq<Coord>, paths: seq<seq<Coord>>)
    requires targets != [] && RouteOf(grid, start, targets, paths) && ChainReachable(grid, start, targets)
    ensures |paths| > 0 && RouteOf(grid, start, targets[..|targets| - 1], paths[..|paths| - 1])
    ensures Shortest(grid, paths[|paths| - 1], Position(start, paths[..|paths| - 1]), targets[|targets| - 1])
    decreases |targets|, 0
  {
    var n := |targets| - 1;
    var earlier := targets[..n];
    if RouteOf(grid, start, earlier, paths) {
      // The earlier targets alone would account for every leg, so the route
      // would stand on the previous target, from which the last one is
      // reachable; hence this disjunct of the definition does not apply.
      ChainPrefix(grid, start, targets);
      RouteReachesAll(grid, start, earlier, paths);
      assert Reachable(grid, Prev(start, targets, n), targets[n]);
    }
  }

  /** The legs for the earlier targets and a shortest last leg are together
      the legs for all targets. */
  lemma LegsExtend(grid: Grid, start: Coord, targets: seq<Coord>, paths: seq<seq<Coord>>,
                   earlier: seq<Coord>, init: seq<seq<Coord>>)
    requires |paths| == |targets| > 0
    requires earlier == targets[..|targets| - 1] && init == paths[..|paths| - 1]
    requires forall k :: 0 <= k < |init| ==> Shortest(grid, init[k], Prev(start, earlier, k), earlier[k])
    requires Shortest(grid, paths[|paths| - 1], Prev(start, targets, |targets| - 1), targets[|targets| - 1])
    ensures forall k :: 0 <= k < |paths| ==> Shortest(grid, paths[k], Prev(start, targets, k), targets[k])
  {
    forall k | 0 <= k < |paths|
      ensures Shortest(grid, paths[k], Prev(start, targets, k), targets[k])
    {
      if k < |init| {
        assert init[k] == paths[k] && earlier[k] == targets[k];
        assert Prev(start, earlier, k) == Prev(start, targets, k);
        assert Shortest(grid, init[k], Prev(start, earlier, k), earlier[k]);
      } else {
        assert k == |paths| - 1 && k == |targets| - 1;
      }
    }
  }

  /** A shortest walk is no longer than a given walk and makes at least as
      many moves as the distance estimate. */
  lemma LegBounds(grid: Grid, p: seq<Coord>, w: seq<Coord>, a: Coord, b: Coord)
    requires Shortest(grid, p, a, b) && Walk(grid, w, a, b)
    ensures Distance(a, b) + 1 <= |p| <= |w|
  {
    WalkAtLeastDistance(grid, p, a, b);
  }

  // Walks on the world map for the legs of the route, each put together from
  // segments of at most three moves.

  lemma WorldSegment1() returns (w: seq<Coord>)
    ensures |w| == 4 && Walk(WorldMap, w, Coord(5, 0), Coord(2, 1))
  {
    w := [Coord(5, 0), Coord(4, 0), Coord(3, 1), Coord(2, 1)];
  }

  lemma WorldSegment2() returns (w: seq<Coord>)
    ensures |w| == 3 && Walk(WorldMap, w, Coord(2, 1), Coord(1, 3))
  {
    w := [Coord(2, 1), Coord(2, 2), Coord(1, 3)];
  }

  lemma WorldSegment3() returns (w: seq<Coord>)
    ensures |w| == 4 && Walk(WorldMap, w, Coord(1, 3), Coord(0, 5))
  {
    w := [Coord(1, 3), Coord(0, 3), Coord(0, 4), Coord(0, 5)];
  }

  lemma WorldSegment4() returns (w: seq<Coord>)
    ensures |w| == 4 && Walk(WorldMap, w, Coord(0, 5), Coord(0, 8))
  {
    w := [Coord(0, 5), Coord(0, 6), Coord(0, 7), Coord(0, 8)];
  }

  lemma WorldSegment5() returns (w: seq<Coord>)
    ensures |w| == 4 && Walk(WorldMap, w, Coord(0, 8), Coord(2, 7))
  {
    w := [Coord(0, 8), Coord(1, 8), Coord(2, 8), Coord(2, 7)];
  }

  lemma WorldSegment6() returns (w: seq<Coord>)
    ensures |w| == 3 && Walk(WorldMap, w, Coord(2, 7), Coord(2, 9))
  {
    w := [Coord(2, 7), Coord(2, 8), Coord(2, 9)];
  }

  lemma WorldSegment7() returns (w: seq<Coord>)
    ensures |w| == 4 && Walk(WorldMap, w, Coord(2, 9), Coord(3, 6))
  {
    w := [Coord(2, 9), Coord(2, 8), Coord(2, 7), Coord(3, 6)];
  }

  lemma WorldSegment8() returns (w: seq<Coord>)
    ensures |w| == 3 && Walk(WorldMap, w, Coord(3, 6), Coord(4, 4))
  {
    w := [Coord(3, 6), Coord(3, 5), Coord(4, 4)];
  }

  lemma WorldFirstWalk() returns (w: seq<Coord>)
    ensures |w| == 6 && Walk(WorldMap, w, Coord(5, 0), Coord(1, 3))
  {
    var u := WorldSegment1();
    var v := WorldSegment2();
    WalkAppend(WorldMap, u, v, Coord(5, 0), Coord(2, 1), Coord(1, 3));
    w := u + v[1..];
  }

  lemma WorldSecondWalk() returns (w: seq<Coord>)
    ensures |w| == 10 && Walk(WorldMap, w, Coord(1, 3), Coord(2, 7))
  {
    var u := WorldSegment3();
    var v := WorldSegment4();
    var x := WorldSegment5();
    WalkAppend(WorldMap, u, v, Coord(1, 3), Coord(0, 5), Coord(0, 8));
    WalkAppend(WorldMap, u + v[1..], x, Coord(1, 3), Coord(0, 8), Coord(2, 7));
    w := u + v[1..] + x[1..];
  }

  lemma WorldThirdWalk() returns (w: seq<Coord>)
    ensures |w| == 3 && Walk(WorldMap, w, Coord(2, 7), Coord(2, 9))
  {
    w := WorldSegment6();
  }

  lemma WorldFourthWalk() returns (w: seq<Coord>)
    ensures |w| == 6 && Walk(WorldMap, w, Coord(2, 9), Coord(4, 4))
  {
    var u := WorldSegment7();
    var v := WorldSegment8();
    WalkAppend(WorldMap, u, v, Coord(2, 9), Coord(3, 6), Coord(4, 4));
    w := u + v[1..];
  }

  /** On the world map every treasure is reached in turn; the last two legs
      are as short as the distance estimate allows (2 and 5 moves) and the
      first two are within one and four moves of it. */
  lemma WorldRoute(paths: seq<seq<Coord>>)
    requires RouteOf(WorldMap, WorldStart, WorldTreasures, paths)
    ensures |paths| == 4 && Position(WorldStart, paths) == Coord(4, 4)
    ensures 5 <= |paths[0]| <= 6 && 6 <= |paths[1]| <= 10 && |paths[2]| == 3 && |paths[3]| == 6
  {
    var ts := WorldTreasures;
    var w0 := WorldFirstWalk();
    var w1 := WorldSecondWalk();
    var w2 := WorldThirdWalk();
    var w3 := WorldFourthWalk();
    assert ChainReachable(WorldMap, WorldStart, ts) by {
      assert Reachable(WorldMap, Prev(WorldStart, ts, 0), ts[0]);
      assert Reachable(WorldMap, Prev(WorldStart, ts, 1), ts[1]);
      assert Reachable(WorldMap, Prev(WorldStart, ts, 2), ts[2]);
      assert Reachable(WorldMap, Prev(WorldStart, ts, 3), ts[3]);
    }
    RouteReachesAll(WorldMap, WorldStart, ts, paths);
    LegBounds(WorldMap, paths[0], w0, Prev(WorldStart, ts, 0), ts[0]);
    LegBounds(WorldMap, paths[1], w1, Prev(WorldStart, ts, 1), ts[1]);
    LegBounds(WorldMap, paths[2], w2, Prev(WorldStart, ts, 2), ts[2]);
    LegBounds(WorldMap, paths[3], w3, Prev(WorldStart, ts, 3), ts[3]);
  }
}
