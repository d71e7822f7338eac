/** The hexagonal world: cell tags, coordinates, the rectangular grid and its
    passability rule, and the static map the route planner runs on. */
module HexGrid {

  /** A cell tag. `'.'` is Empty, `'S'` Start, `'T'` Treasure, `'R1'`/`'R2'`
      the two marker tags, `'#'` Wall and `'O'` Obstacle. */
  datatype Cell = Empty | Start | Treasure | R1 | R2 | Wall | Obstacle

  /** A grid position (row, column); the second component is the column. */
  datatype Coord = Coord(row: int, col: int)

  /** A rectangular grid: every row is as long as the first one. */
  type Grid = g: seq<seq<Cell>> | forall r :: 0 <= r < |g| ==> |g[r]| == |g[0]|

  /** Movement is blocked exactly by obstacles and walls. */
  predicate Blocks(c: Cell) {
    c == Obstacle || c == Wall
  }

  /** The bounds test of the expansion loop: the column range is taken from row 0. */
  predicate InBounds(grid: Grid, c: Coord) {
    0 <= c.row < |grid| && 0 <= c.col < |grid[0]|
  }

  /** A cell a move may enter: inside the grid and not blocking. */
  predicate Open(grid: Grid, c: Coord) {
    InBounds(grid, c) && !Blocks(grid[c.row][c.col])
  }

  /** The tag a string denotes; any other string is not a tag of the map. */
  function TagCell(tag: string): (r: Option<Cell>)
    ensures r.Some? <==> tag in {".", "S", "T", "R1", "R2", "#", "O"}
    ensures r.Some? ==> (Blocks(r.value) <==> tag == "O" || tag == "#")
  {
    match tag
    case "." => Some(Empty)
    case "S" => Some(Start)
    case "T" => Some(Treasure)
    case "R1" => Some(R1)
    case "R2" => Some(R2)
    case "#" => Some(Wall)
    case "O" => Some(Obstacle)
    case _ => None
  }

  datatype Option<T> = None | Some(value: T)

  /** The static map of the virtual world (six rows of ten cells). */
  const WorldMap: Grid := [
    [Empty, Empty, Empty, Empty, Empty, R2, Empty, Empty, Empty, Empty],
    [Empty, Empty, Wall, Treasure, Obstacle, Empty, Obstacle, Obstacle, Empty, Empty],
    [Obstacle, R1, Empty, Obstacle, Empty, Wall, Obstacle, Treasure, Empty, Treasure],
    [Empty, Empty, Obstacle, Empty, Obstacle, Empty, Empty, R2, Wall, Empty],
    [Empty, Wall, Empty, Wall, Treasure, Empty, Wall, Empty, Obstacle, Empty],
    [Start, Empty, Empty, Empty, R1, Empty, Empty, Empty, Empty, Empty]
  ]

  /** The start position and the treasures visited in order. */
  const WorldStart: Coord := Coord(5, 0)
  const WorldTreasures: seq<Coord> := [Coord(1, 3), Coord(2, 7), Coord(2, 9), Coord(4, 4)]

  /** The map is 6 by 10, the start position holds the start tag and every
      treasure position holds a treasure, so each of them is enterable. */
  lemma WorldMapLayout()
    ensures |WorldMap| == 6 && |WorldMap[0]| == 10
    ensures WorldMap[WorldStart.row][WorldStart.col] == Start && Open(WorldMap, WorldStart)
    ensures forall t :: t in WorldTreasures ==> Open(WorldMap, t) && WorldMap[t.row][t.col] == Treasure
  {
  }
}
