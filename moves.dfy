/** The neighbour rule of the search: two direction tables selected by the
    parity of the column, and the filters a candidate move must pass. */
module Moves {
  import opened HexGrid
  import opened Heuristic

  /** The parity that selects a direction table; Dafny's `%` agrees with
      Python's for the divisor 2, also on negative columns. */
  function Parity(c: Coord): (p: int)
    ensures p == 0 || p == 1
  {
    c.col % 2
  }

  /** The six (row, column) offsets tried from a cell, in table order. */
  function Directions(parity: int): (ds: seq<(int, int)>)
    requires parity == 0 || parity == 1
    ensures |ds| == 6
  {
    if parity == 0 then [(0, 1), (-1, 1), (-1, 0), (0, -1), (1, 0), (1, 1)]
    else [(0, 1), (-1, 0), (-1, -1), (0, -1), (1, -1), (1, 0)]
  }

  /** The movement filter: a delta with both components non-zero is accepted
      only when they cancel. */
  predicate Axial(d: (int, int)) {
    d.0 == 0 || d.1 == 0 || d.0 + d.1 == 0
  }

  function Shift(c: Coord, d: (int, int)): Coord {
    Coord(c.row + d.0, c.col + d.1)
  }

  /** `b` is a move the expansion loop accepts from `a`: its offset is in the
      table of `a`'s column parity, it lands on an enterable cell and it
      passes the movement filter. */
  predicate Step(grid: Grid, a: Coord, b: Coord) {
    var d := (b.row - a.row, b.col - a.col);
    d in Directions(Parity(a)) && Open(grid, b) && Axial(d)
  }

  /** The movement filter removes exactly one entry of each table, (1, 1) from
      the even one and (-1, -1) from the odd one, so five moves remain each. */
  lemma FiveMovesPerParity()
    ensures forall d :: d in Directions(0) && Axial(d) <==> d in [(0, 1), (-1, 1), (-1, 0), (0, -1), (1, 0)]
    ensures forall d :: d in Directions(1) && Axial(d) <==> d in [(0, 1), (-1, 0), (0, -1), (1, -1), (1, 0)]
    ensures (1, 1) in Directions(0) && !Axial((1, 1))
    ensures (-1, -1) in Directions(1) && !Axial((-1, -1))
  {
  }

  /** Every accepted move is a unit step of the distance estimate. */
  lemma StepIsUnit(grid: Grid, a: Coord, b: Coord)
    requires Step(grid, a, b)
    ensures Distance(a, b) == 1
  {
  }

  /** The expansion loop's filters applied to table entry `j` accept exactly
      the accepted moves: the shifted cell is in bounds, does not block, and
      the entry passes the movement filter. */
  lemma FiltersAcceptSteps(grid: Grid, c: Coord, j: nat)
    requires j < 6
    ensures var d := Directions(Parity(c))[j];
      Step(grid, c, Shift(c, d)) <==> Open(grid, Shift(c, d)) && Axial(d)
  {
    var d := Directions(Parity(c))[j];
    assert (Shift(c, d).row - c.row, Shift(c, d).col - c.col) == d;
  }

  /** Every accepted move can be undone: the reverse offset is in the table
      of the target's column parity and passes the movement filter, so the
      move back is accepted whenever the source cell is enterable. */
  lemma StepReversible(grid: Grid, a: Coord, b: Coord)
    requires Step(grid, a, b) && Open(grid, a)
    ensures Step(grid, b, a)
  {
    var d := (b.row - a.row, b.col - a.col);
    if d.1 != 0 {
      // A move that changes the column flips its parity.
      assert Parity(b) == 1 - Parity(a);
    }
  }

  /** An accepted move is the shift of its source by one table entry. */
  lemma StepHasDirection(grid: Grid, a: Coord, b: Coord) returns (j: nat)
    requires Step(grid, a, b)
    ensures j < 6 && b == Shift(a, Directions(Parity(a))[j])
  {
    var d := (b.row - a.row, b.col - a.col);
    var ds := Directions(Parity(a));
    j :| 0 <= j < |ds| && ds[j] == d;
  }

  /** A sequence of coordinates from `a` to `b` whose every consecutive pair is
      an accepted move; the first element itself is not checked. */
  ghost predicate Walk(grid: Grid, w: seq<Coord>, a: Coord, b: Coord) {
    && |w| >= 1 && w[0] == a && w[|w| - 1] == b
    && forall i :: 0 <= i < |w| - 1 ==> Step(grid, w[i], w[i + 1])
  }

  /** Every element of a walk after the first is an enterable cell. */
  lemma WalkEntersOpenCells(grid: Grid, w: seq<Coord>, a: Coord, b: Coord)
    requires Walk(grid, w, a, b)
    ensures forall i :: 1 <= i < |w| ==> Open(grid, w[i])
  {
    forall i | 1 <= i < |w|
      ensures Open(grid, w[i])
    {
      assert Step(grid, w[i - 1], w[i]);
    }
  }

  /** Admissibility: from any position of a walk, the estimate to the walk's
      end never exceeds the number of moves the walk still makes. */
  lemma {:induction false} Admissible(grid: Grid, w: seq<Coord>, a: Coord, b: Coord, j: nat)
    requires Walk(grid, w, a, b)
    requires j < |w|
    ensures Distance(w[j], b) <= |w| - 1 - j
    decreases |w| - j
  {
    if j == |w| - 1 {
      DistanceZeroIff(w[j], b);
    } else {
      Admissible(grid, w, a, b, j + 1);
      StepIsUnit(grid, w[j], w[j + 1]);
      DistanceTriangle(w[j], w[j + 1], b);
    }
  }

  /** Every walk makes at least as many moves as the estimate between its ends. */
  lemma WalkAtLeastDistance(grid: Grid, w: seq<Coord>, a: Coord, b: Coord)
    requires Walk(grid, w, a, b)
    ensures Distance(a, b) <= |w| - 1
  {
    Admissible(grid, w, a, b, 0);
  }

  /** Walks compose: a walk to `b` followed by the tail of a walk from `b`. */
  lemma WalkAppend(grid: Grid, u: seq<Coord>, v: seq<Coord>, a: Coord, b: Coord, c: Coord)
    requires Walk(grid, u, a, b) && Walk(grid, v, b, c)
    ensures Walk(grid, u + v[1..], a, c)
  {
    var w := u + v[1..];
    forall i | 0 <= i < |w| - 1
      ensures Step(grid, w[i], w[i + 1])
    {
      if i < |u| - 1 {
        assert w[i] == u[i] && w[i + 1] == u[i + 1];
      } else {
        assert w[i] == v[i - |u| + 1] && w[i + 1] == v[i - |u| + 2];
      }
    }
  }
}
