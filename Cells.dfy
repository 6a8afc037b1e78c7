/** The grid's data model shared by every generator variant: the four
    directions, grid coordinates, and the `Cell` record (a visited flag and
    four wall flags, all present on a new cell). */
module Cells {

  datatype Direction = N | E | S | W

  /** The four directions in the order every variant lists its neighbours. */
  const DIRECTIONS: seq<Direction> := [N, E, S, W]

  /** A grid coordinate; `x` is the column, `y` the row, and the grid is
      addressed `maze[y][x]`. */
  datatype Pos = Pos(x: int, y: int)

  /** The neighbour one step away: N = (x, y - 1), E = (x + 1, y),
      S = (x, y + 1), W = (x - 1, y). */
  function Step(p: Pos, d: Direction): (q: Pos)
    ensures d == N <==> q.y < p.y
    ensures d == S <==> q.y > p.y
    ensures d == E <==> q.x > p.x
    ensures d == W <==> q.x < p.x
    ensures (q.x == p.x && (q.y == p.y - 1 || q.y == p.y + 1)) || (q.y == p.y && (q.x == p.x - 1 || q.x == p.x + 1))
  {
    match d
    case N => Pos(p.x, p.y - 1)
    case E => Pos(p.x + 1, p.y)
    case S => Pos(p.x, p.y + 1)
    case W => Pos(p.x - 1, p.y)
  }

  /** The direction that leads back (`StepBack`); no direction is its own
      opposite. */
  function Opposite(d: Direction): (o: Direction)
    ensures o != d
  {
    match d
    case N => S
    case S => N
    case E => W
    case W => E
  }

  /** Stepping `d` then `Opposite(d)` returns to the starting cell, and the
      opposite of the opposite is the direction itself. */
  lemma StepBack(p: Pos, d: Direction)
    ensures Step(Step(p, d), Opposite(d)) == p
    ensures Opposite(Opposite(d)) == d
  {
  }

  predicate InGrid(p: Pos, width: int, height: int)
  {
    0 <= p.x < width && 0 <= p.y < height
  }

  /** A cell: whether the walk (or a reservation) has claimed it, and which of
      its four walls are present. */
  datatype Cell = Cell(visited: bool, n: bool, e: bool, s: bool, w: bool)

  /** A newly constructed cell: not visited, every wall present. */
  const INITIAL: Cell := Cell(false, true, true, true, true)

  /** A reserved glyph cell: visited and every wall present. */
  const RESERVED: Cell := Cell(true, true, true, true, true)

  function Wall(c: Cell, d: Direction): bool
  {
    match d
    case N => c.n
    case E => c.e
    case S => c.s
    case W => c.w
  }

  /** Python's `all(cell.walls.values())`. */
  predicate AllWalls(c: Cell)
  {
    c.n && c.e && c.s && c.w
  }

  /** The cell with wall `d` cleared and nothing else changed. */
  function WithoutWall(c: Cell, d: Direction): (r: Cell)
    ensures !Wall(r, d)
    ensures r.visited == c.visited
    ensures forall d' :: d' != d ==> Wall(r, d') == Wall(c, d')
  {
    match d
    case N => c.(n := false)
    case E => c.(e := false)
    case S => c.(s := false)
    case W => c.(w := false)
  }

  /** The cell with wall `d` set and nothing else changed. */
  function WithWall(c: Cell, d: Direction): (r: Cell)
    ensures Wall(r, d)
    ensures r.visited == c.visited
    ensures forall d' :: d' != d ==> Wall(r, d') == Wall(c, d')
  {
    match d
    case N => c.(n := true)
    case E => c.(e := true)
    case S => c.(s := true)
    case W => c.(w := true)
  }

  /** The 13 x 5 "42" bitmap, indexed `[row][column]`. */
  const GLYPH: seq<seq<int>> := [
    [1, 1, 0, 0, 1, 0, 0, 1, 1, 1, 1, 1, 0],
    [1, 1, 0, 0, 1, 0, 0, 0, 0, 0, 0, 1, 0],
    [1, 1, 1, 1, 1, 0, 0, 1, 1, 1, 1, 1, 0],
    [0, 0, 0, 0, 1, 0, 0, 1, 0, 0, 0, 0, 0],
    [0, 0, 0, 0, 1, 0, 0, 1, 1, 1, 1, 1, 0]
  ]

  const GLYPH_WIDTH := 13
  const GLYPH_HEIGHT := 5

  /** Column `ox`, row `oy` of a 13 x 5 bitmap `bits` is a 1-cell. */
  predicate Bit(bits: seq<seq<int>>, ox: int, oy: int)
  {
    0 <= oy < GLYPH_HEIGHT && 0 <= ox < GLYPH_WIDTH && oy < |bits| && ox < |bits[oy]| && bits[oy][ox] == 1
  }

  /** Column `ox`, row `oy` of the "42" bitmap is a 1-cell. */
  predicate GlyphAt(ox: int, oy: int)
  {
    Bit(GLYPH, ox, oy)
  }

  /** The 16 (dx, dy) offsets of the 5 x 5 "42" shape placed at a corner. */
  const PATTERN_42: seq<(int, int)> := [
    (0, 0), (1, 0), (3, 0), (4, 0),
    (0, 1), (1, 1), (4, 1),
    (0, 2), (1, 2), (3, 2), (4, 2),
    (0, 4), (1, 4), (2, 4), (3, 4), (4, 4)
  ]
}
