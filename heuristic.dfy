/** The search's distance estimate: each (row, column) pair is read as the two
    first cube coordinates x and y, the third being z = -x - y, and the estimate
    is the largest of the three coordinate differences. */
module Heuristic {
  import opened HexGrid

  function Abs(x: int): nat {
    if x < 0 then -x else x
  }

  function Max(a: nat, b: nat): nat {
    if a < b then b else a
  }

  /** max(|dx|, |dy|, |dz|) with z = -row - col. */
  function Distance(a: Coord, b: Coord): nat {
    var za := -a.row - a.col;
    var zb := -b.row - b.col;
    Max(Max(Abs(a.row - b.row), Abs(a.col - b.col)), Abs(za - zb))
  }

  /** The estimate vanishes exactly on equal coordinates. */
  lemma DistanceZeroIff(a: Coord, b: Coord)
    ensures Distance(a, b) == 0 <==> a == b
  {
  }

  /** The estimate does not depend on the order of its arguments. */
  lemma DistanceSymmetric(a: Coord, b: Coord)
    ensures Distance(a, b) == Distance(b, a)
  {
  }

  lemma AbsTriangle(x: int, y: int)
    ensures Abs(x + y) <= Abs(x) + Abs(y)
  {
  }

  /** The estimate bounds each coordinate difference and is one of them. */
  lemma DistanceComponents(a: Coord, b: Coord)
    ensures Abs(a.row - b.row) <= Distance(a, b)
    ensures Abs(a.col - b.col) <= Distance(a, b)
    ensures Abs((-a.row - a.col) - (-b.row - b.col)) <= Distance(a, b)
  {
  }

  /** The estimate is a metric: it obeys the triangle inequality. */
  lemma DistanceTriangle(a: Coord, b: Coord, c: Coord)
    ensures Distance(a, c) <= Distance(a, b) + Distance(b, c)
  {
    DistanceComponents(a, b);
    DistanceComponents(b, c);
    var za, zb, zc := -a.row - a.col, -b.row - b.col, -c.row - c.col;
    AbsTriangle(a.row - b.row, b.row - c.row);
    AbsTriangle(a.col - b.col, b.col - c.col);
    AbsTriangle(za - zb, zb - zc);
    assert (a.row - b.row) + (b.row - c.row) == a.row - c.row;
    assert (a.col - b.col) + (b.col - c.col) == a.col - c.col;
    assert (za - zb) + (zb - zc) == za - zc;
  }
}
