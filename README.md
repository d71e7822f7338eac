# Hexagonal-grid A* treasure route — Dafny model

This project models the path-finding core of `A_Star_Virtual_World.py`. That is a
small program that plans a route across a hexagonal "virtual world". The world
is a 6 × 10 grid of tagged cells: empty `.`, start `S`, treasure `T`, markers
`R1`/`R2`, walls `#` and obstacles `O`.

From the start cell, the program runs an A* search to each treasure in turn.
Every move costs 1. The distance estimate reads each (row, column) pair as the
first two cube coordinates x and y, with z = -x - y, and takes the largest of
the three coordinate differences. It is applied to the raw offset coordinates,
so it is not the fewest moves on the grid: from (5, 0) to (1, 3) it is 4, while
an open grid needs 5 moves.
Each found leg is collected, and its tail is appended to one complete route.

The model is split into five modules:

- `HexGrid` (`grid.dfy`): cell tags, coordinates, and the rectangular grid
  (a parameter, not a global). Also the bounds test, the blocking rule, and
  the static world map with its start and treasure positions.
- `Heuristic` (`heuristic.dfy`): `hexagonal_heuristic` as `Distance`, with
  its metric properties.
- `Moves` (`moves.dfy`): the two direction tables selected by column parity
  and the three filters of the expansion loop. Together these give the
  accepted-move relation `Step`. A `Walk` is a sequence whose every
  consecutive pair is an accepted move. This module also proves that the
  estimate never exceeds the moves a walk still makes.
- `Search` (`search.dfy`): `a_star_search` as the method `AStar`, with
  `ExpandNeighbors` (the `for dx, dy` loop) and `ReconstructPath` (the
  back-pointer loop) as helper methods.
  - The heap is a sequence of `Entry(f, coordinate)`. A pop takes its least
    entry in the order (f, row, column), the order Python's tuple comparison
    gives.
  - Duplicate entries, re-opening and the absence of stale-entry skipping are
    kept as in the source.
  - The quantified invariants of the search state are stated through four
    named membership tests, `Recorded`, `Linked`, `Queued` and `Done`. Each
    means plain `in` on the costs, the back-pointers, the frontier and the
    expanded set. They exist so that the verifier instantiates the invariants
    only where a proof names them.
  - `AStar` is proved to return a shortest walk of accepted moves, or `None`
    exactly when no walk exists. Termination is proved by a measure: the sum
    of all recorded costs over the finitely many grid cells, with the number
    of heap entries as a tie-breaker.
- `Route` (`route.dfy`): the route loop at lines 105-112 as the method
  `Plan(grid, start, targets)`. It is specified by the ghost predicate
  `RouteOf`: a target without any walk is skipped and the position stays put.
  A concrete lemma shows that on the world map all four treasures are reached.

Points where the code departs from textbook A*, kept as the code has them:

- The frontier starts with the entry `(0, start)`, not with the heuristic
  value of the start (line 43). The `f_score` entry for the start (line 46)
  is never read.
- Stale heap entries are not skipped. A popped coordinate is always expanded
  again, with its current cost. The model keeps this, and the invariants show
  it does no harm.
- The `directions` table comment speaks of rows. The parity is taken on the
  column (`current_y % 2`).

## Model

| member | source | states |
|---|---|---|
| HexGrid.Blocks | A_Star_Virtual_World.py:64 | a cell blocks movement exactly when it is an obstacle `O` or a wall `#` |
| HexGrid.InBounds | A_Star_Virtual_World.py:62 | a coordinate is inside the grid when its row is below the number of rows and its column below the length of row 0 |
| HexGrid.Open | A_Star_Virtual_World.py:62-65 | a move may enter a cell exactly when it is inside the grid and does not block |
| HexGrid.TagCell | A_Star_Virtual_World.py:64 | exactly the seven map tags denote a cell, and a cell blocks movement iff its tag is `O` or `#` |
| HexGrid.WorldMapLayout | A_Star_Virtual_World.py:7-14 | the world map is 6 rows of 10 cells, the start position holds `S`, and every treasure position holds `T` and can be entered |
| Heuristic.Distance | A_Star_Virtual_World.py:34-38 | `hexagonal_heuristic`: the largest of the row, column and z = -row - col differences; the reference every admissibility and length bound below is stated against |
| Heuristic.DistanceZeroIff | A_Star_Virtual_World.py:34-38 | the estimate is 0 exactly when both coordinates are equal (it is a `nat`, so never negative) |
| Heuristic.DistanceSymmetric | A_Star_Virtual_World.py:34-38 | the estimate does not depend on argument order |
| Heuristic.DistanceTriangle | A_Star_Virtual_World.py:34-38 | the estimate obeys the triangle inequality |
| Moves.Parity | A_Star_Virtual_World.py:59 | the table selector `current_y % 2` is 0 or 1, also for negative columns |
| Moves.Directions | A_Star_Virtual_World.py:28-31 | each parity has a table of six offsets |
| Moves.Step | A_Star_Virtual_World.py:58-67 | the move relation the expansion loop accepts: the offset is in the table of the source column's parity, the target is in bounds and not blocking, and the offset passes the movement filter |
| Moves.FiveMovesPerParity | A_Star_Virtual_World.py:66 | the movement filter removes exactly `(1, 1)` from the even table and `(-1, -1)` from the odd one, leaving five moves each |
| Moves.StepIsUnit | A_Star_Virtual_World.py:58-67 | every accepted move is at estimate distance exactly 1 |
| Moves.StepReversible | A_Star_Virtual_World.py:28-31 | every accepted move can be undone by an accepted move when its source cell is enterable |
| Moves.FiltersAcceptSteps | A_Star_Virtual_World.py:60-67 | for each table entry, the bounds, blocking and movement filters accept the shifted cell iff it is an accepted move |
| Moves.StepHasDirection | A_Star_Virtual_World.py:60-61 | every accepted move is the source shifted by one entry of its parity's table |
| Moves.WalkEntersOpenCells | A_Star_Virtual_World.py:62-65 | every element of a walk after the first is in bounds and not `O` or `#` |
| Moves.Admissible | A_Star_Virtual_World.py:34-38 | from any position on a walk, the estimate to its end is at most the number of moves left |
| Moves.WalkAtLeastDistance | A_Star_Virtual_World.py:34-38 | every walk makes at least as many moves as the estimate between its ends |
| Moves.WalkAppend | A_Star_Virtual_World.py:112 | a walk followed by the tail of a walk from its end is a walk |
| Search.EntryLe | A_Star_Virtual_World.py:49 | the order `heappop` uses on `(f, (row, col))` tuples: priority first, then row, then column |
| Search.Least | A_Star_Virtual_World.py:49 | the popped entry is in the frontier and is least in the (f, row, column) order |
| Search.RemoveOne | A_Star_Virtual_World.py:49 | popping removes exactly one occurrence of the entry (multiset difference), and nothing else |
| Search.ReversedReversible | A_Star_Virtual_World.py:56 | reversing `path[::-1]` twice gives the path back, and reversing keeps every coordinate with its multiplicity |
| Search.ReconstructPath | A_Star_Virtual_World.py:51-56 | following back-pointers from the goal and reversing gives a walk from start to goal with no repeated coordinate and at most the goal's cost in moves |
| Search.BackChainReversed | A_Star_Virtual_World.py:52-56 | costs strictly fall along a back-pointer chain, so it repeats nothing, and reversed it is a walk of accepted moves |
| Search.InitialState | A_Star_Virtual_World.py:42-45 | the initial frontier `[(0, start)]` with `g_score = {start: 0}` and no back-pointers satisfies the search invariant |
| Search.PopState | A_Star_Virtual_World.py:48-49 | popping an entry for a non-goal coordinate keeps the invariant, with only that coordinate's neighbours outstanding |
| Search.FrontierCoversWalk | A_Star_Virtual_World.py:48-49 | for every walk from the start to the goal, the frontier holds an entry whose priority is at most the walk's number of moves |
| Search.GoalCostOptimal | A_Star_Virtual_World.py:48-50 | when the goal is popped, its recorded cost is at most the moves of any walk to it |
| Search.GoalFound | A_Star_Virtual_World.py:50-56 | the reconstructed path is no longer than any walk; for start = goal it is `[start]`; otherwise the goal is enterable |
| Search.Conclude | A_Star_Virtual_World.py:50-56 | a walk from start to goal of at most one element when start = goal is `[start]`, and otherwise ends on an enterable cell |
| Search.ExhaustedUnreachable | A_Star_Virtual_World.py:75 | when the frontier is empty, no walk leads from the start to the goal |
| Search.ImproveScores | A_Star_Virtual_World.py:69-71 | recording a back-pointer and a lower cost keeps the start rooted and pointer-free, costs bounded, and every back-pointer an accepted move from a strictly cheaper coordinate |
| Search.ImproveFrontier | A_Star_Virtual_World.py:72-73 | pushing `(tentative + h, neighbor)` keeps every entry's priority at least cost plus estimate and every recorded coordinate in the frontier or expanded |
| Search.ImproveClosed | A_Star_Virtual_World.py:69-71 | lowering a cost keeps every expanded coordinate's neighbours within one move of its expansion cost |
| Search.ImproveMeasure | A_Star_Virtual_World.py:68-71 | a cost improvement strictly lowers the termination measure |
| Search.Improve | A_Star_Virtual_World.py:68-73 | one improvement keeps the search invariant, only lowers costs and lowers the measure |
| Search.PotentialDrops | A_Star_Virtual_World.py:69-71 | lowering costs never raises the sum of costs over the cells, and lowering one strictly lowers it |
| Search.ExpandingSkip | A_Star_Virtual_World.py:62-67 | a table entry rejected by the filters, or whose neighbour already costs at most one more, changes nothing and is covered |
| Search.ExpandingImprove | A_Star_Virtual_World.py:68-73 | an improving table entry keeps the loop invariant and only lowers costs |
| Search.FinishExpansion | A_Star_Virtual_World.py:60-73 | after all six table entries, every accepted move from the expanded coordinate costs at most one more |
| Search.ExpandNeighbors | A_Star_Virtual_World.py:58-73 | the expansion keeps the search invariant (start never gets a back-pointer, back-pointers lower the cost), recorded costs only decrease, and the measure falls or nothing is pushed |
| Search.AStar | A_Star_Virtual_World.py:41-75 | the result is a shortest walk from start to goal with no repeated coordinate, or `None` iff no walk exists; `[start]` when start = goal; `None` when the goal is blocked or outside the grid |
| Route.RouteOf | A_Star_Virtual_World.py:105-112 | the reference definition of the route loop, target by target: a target without a walk from the current position adds no leg; otherwise the next leg is a shortest walk to it from there |
| Route.RouteOfBound | A_Star_Virtual_World.py:107-110 | a route has at most one leg per target |
| Route.RouteLegs | A_Star_Virtual_World.py:107-111 | each leg is a shortest walk from the position before it to the position after it, and ends on a target |
| Route.TailsLength | A_Star_Virtual_World.py:112 | the appended tails have one element per move of the legs |
| Route.RouteSkip | A_Star_Virtual_World.py:109 | a target without a walk from the current position adds no leg |
| Route.RouteFound | A_Star_Virtual_World.py:108-110 | a shortest walk to the next target becomes the next leg |
| Route.ExtendRoute | A_Star_Virtual_World.py:111-112 | after a found leg, the position is its target and the complete route gains exactly the leg's tail |
| Route.LegsAppend | A_Star_Virtual_World.py:110 | appending a non-empty, repeat-free leg keeps every leg non-empty and repeat-free |
| Route.FoundLeg | A_Star_Virtual_World.py:108-112 | a found shortest leg extends the route, moves the position to the target, and extends the complete route by its tail, which is still a walk from the start |
| Route.Plan | A_Star_Virtual_World.py:105-112 | the legs satisfy `RouteOf`; the position is the last reached target or the start; the complete route is the start followed by every leg's tail; it is a walk of 1 + Σ(len(p) − 1) elements; there are at most as many legs as targets; and no leg repeats a coordinate |
| Route.RouteReachesAll | A_Star_Virtual_World.py:107-111 | when each target is reachable from the previous one, every target gets a leg, each a shortest walk from the previous target |
| Route.LastNotSkipped | A_Star_Virtual_World.py:107-110 | when each target is reachable from the previous one, the last target is not skipped: the last leg is a shortest walk to it from where the earlier legs end |
| Route.WorldRoute | A_Star_Virtual_World.py:101-112 | on the world map, all four treasures are reached and the route ends at (4, 4); the legs have 5–6, 6–10, exactly 3 and exactly 6 elements |

## Left out

- Drawing (`create_hexagon`, `draw_path`, the figure, legend and axes; lines 78-98 and 115-140): presentation with floating-point geometry.
- The `colors` table (lines 17-25): presentation only.
- The two `print` calls (lines 129 and 132): output only.
- The internals of `heapq` (line 4): the frontier is a sequence with a pop of its least entry, not a binary heap. Which of several equal entries sits where in the heap is not modelled; equal entries are identical tuples, so the pop result is the same.
- The `f_score` dictionary (lines 46 and 72): it is only written. Its value is kept as the priority pushed with each entry.
- The global `map_elements` is a parameter of every operation. The world map constant is used only by the concrete lemmas.
- String tags are a datatype `Cell`. `TagCell` gives the mapping from the strings.
- `Route.Plan`: Python's `if path:` is modelled as "the search returned a path". A* never returns an empty list, so the two agree.
- `Search.ExpandNeighbors` and `Search.ReconstructPath`: these are inner loops of the single Python function `a_star_search`, written as separate methods.
- `Route.WorldRoute`: states bounds, not exact lengths, for the first two legs (6 and 10 elements on the map). The lower bounds come from the distance estimate. The exact values would need a proof that no shorter walk exists, which means searching the map cell by cell, and that proof is not written.
