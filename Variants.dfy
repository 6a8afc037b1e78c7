/** The five constructors: each checks the size, builds a grid of new cells
    and reserves (or does not reserve) the "42" glyph in its own way. What
    a whole run of each variant guarantees follows from them and from
    `Spanning`. */
module Variants {
  import opened Cells
  import opened Trees
  import opened Paths
  import opened Carving
  import opened Spanning
  import opened Glyph
  import opened Generator

  /** The message of the size check in recursive_dfs.py, iterative_dfs.py,
      goodmaze.py and maze.py. */
  const INVALID_SIZE := "Invalid maze size"
  /** The message of the size check in ma.py. */
  const NOT_POSITIVE := "Maze dimensions must be positive"

  /** A new grid with the cells of `cells` reserved: every wall in place on
      both sides, and exactly the reserved cells visited. */
  lemma NewGridMarked(width: nat, height: nat, cells: set<Pos>)
    ensures SymmetricGrid(MarkAll(NewGrid(width, height), cells))
    ensures forall q :: q in AllCells(width, height) ==> AllWalls(MarkAll(NewGrid(width, height), cells)[q])
    ensures VisitedIn(MarkAll(NewGrid(width, height), cells)) == cells * AllCells(width, height)
  {
    var g := NewGrid(width, height);
    var g' := MarkAll(g, cells);
    NewGridFacts(width, height);
    MarkAllSymmetric(g, cells);
    forall q ensures q in VisitedIn(g') <==> q in cells * AllCells(width, height) {
      if q in g {
        assert q !in VisitedIn(g);
      }
    }
  }

  /** recursive_dfs.py's `__init__`: raises unless both sizes are positive;
      otherwise a grid of new cells in which the squeezed, centred glyph is
      reserved (visited, all four walls) from 7 x 5 on, and nothing below. */
  method NewRecursive(width: int, height: int) returns (r: Outcome, m: MazeGenerator?)
    ensures r.Raised? <==> width <= 0 || height <= 0
    ensures r.Raised? ==> r.error == INVALID_SIZE && m == null
    ensures r.Done? ==> m != null && fresh(m) && m.Valid() && m.width == width && m.height == height
    ensures r.Done? ==> m.patternCells == if Fits(Scaled, width, height) then Placed(Scaled, GLYPH_HEIGHT, 0, width, height) else {}
    ensures r.Done? ==> m.Grid() == MarkAll(NewGrid(width, height), m.patternCells)
  {
    if width <= 0 || height <= 0 {
      return Raised(INVALID_SIZE), null;
    }
    m := new MazeGenerator(width, height);
    m.ReserveScaled(true);
    r := Done;
  }

  /** iterative_dfs.py's `__init__`: the same size check and the same cells
      reserved, but the reserved cells are left as new cells. */
  method NewIterative(width: int, height: int) returns (r: Outcome, m: MazeGenerator?)
    ensures r.Raised? <==> width <= 0 || height <= 0
    ensures r.Raised? ==> r.error == INVALID_SIZE && m == null
    ensures r.Done? ==> m != null && fresh(m) && m.Valid() && m.width == width && m.height == height
    ensures r.Done? ==> m.patternCells == if Fits(Scaled, width, height) then Placed(Scaled, GLYPH_HEIGHT, 0, width, height) else {}
    ensures r.Done? ==> m.Grid() == NewGrid(width, height)
  {
    if width <= 0 || height <= 0 {
      return Raised(INVALID_SIZE), null;
    }
    m := new MazeGenerator(width, height);
    m.ReserveScaled(false);
    r := Done;
  }

  /** goodmaze.py's `__init__`: the same size check, then the glyph centred
      as it is is reserved. The placement needs at least 13 x 5. */
  method NewGoodMaze(width: int, height: int) returns (r: Outcome, m: MazeGenerator?)
    requires width <= 0 || height <= 0 || Fits(Centered, width, height)
    ensures r.Raised? <==> width <= 0 || height <= 0
    ensures r.Raised? ==> r.error == INVALID_SIZE && m == null
    ensures r.Done? ==> m != null && fresh(m) && m.Valid() && m.width == width && m.height == height
    ensures r.Done? ==> m.patternCells == Placed(Centered, GLYPH_HEIGHT, 0, width, height)
    ensures r.Done? ==> m.Grid() == MarkAll(NewGrid(width, height), m.patternCells)
  {
    if width <= 0 || height <= 0 {
      return Raised(INVALID_SIZE), null;
    }
    m := new MazeGenerator(width, height);
    m.ReserveCentered();
    r := Done;
  }

  /** The `__init__` of maze.py (`message` is `INVALID_SIZE`) and of ma.py
      (`message` is `NOT_POSITIVE`): the size check and a grid of new cells,
      with nothing reserved. */
  method NewPlain(width: int, height: int, message: string) returns (r: Outcome, m: MazeGenerator?)
    ensures r.Raised? <==> width <= 0 || height <= 0
    ensures r.Raised? ==> r.error == message && m == null
    ensures r.Done? ==> m != null && fresh(m) && m.Valid() && m.width == width && m.height == height
    ensures r.Done? ==> m.patternCells == {} && m.Grid() == NewGrid(width, height)
  {
    if width <= 0 || height <= 0 {
      return Raised(message), null;
    }
    m := new MazeGenerator(width, height);
    r := Done;
  }

  /** A whole run of maze.py or ma.py (`__init__`, then `generate` from any
      start): every cell ends visited, `width * height - 1` walls are
      removed, and adjacent cells agree on every wall between them. */
  lemma PlainRun(width: nat, height: nat, start: Pos, r: Run)
    requires InGrid(start, width, height) && Grown(NewGrid(width, height), r, start, {})
    ensures forall q :: q in AllCells(width, height) ==> q in r.grid && r.grid[q].visited
    ensures |r.log| == width * height - 1
    ensures SymmetricGrid(r.grid)
  {
    var g := NewGrid(width, height);
    NewGridFacts(width, height);
    assert forall q :: q in g ==> !g[q].visited by {
      forall q | q in g ensures !g[q].visited {
        assert q !in VisitedIn(g);
      }
    }
    GrownFillsGrid(g, r, start, width, height);
    GrownSymmetric(g, r, start, {});
  }

  /** A whole run of recursive_dfs.py or goodmaze.py (`__init__` reserving
      `cells`, then `generate` from a start outside them): every reserved
      cell is still visited with all four walls, the carves form a tree
      (one cell more reached than carved), and wall symmetry holds. */
  lemma ReservedRun(width: nat, height: nat, cells: set<Pos>, start: Pos, r: Run)
    requires InGrid(start, width, height) && start !in cells
    requires Grown(MarkAll(NewGrid(width, height), cells), r, start, cells)
    ensures forall q :: q in cells * AllCells(width, height) ==> r.grid[q] == RESERVED
    ensures |Reach(start, r.log)| == |r.log| + 1
    ensures SymmetricGrid(r.grid)
  {
    var g := MarkAll(NewGrid(width, height), cells);
    NewGridMarked(width, height, cells);
    GrownKeepsReserved(g, r, start, cells);
    GrownTree(g, r, start, cells);
    GrownSymmetric(g, r, start, cells);
  }

  /** A whole run of iterative_dfs.py (`__init__` reserving `cells` without
      marking them, then `generate` from a start outside them): every
      reserved cell is still a new cell, unvisited with all four walls, and
      every cell joined to the start by a path of unreserved cells ends
      visited. */
  lemma IterativeRun(width: nat, height: nat, cells: set<Pos>, start: Pos, r: Run, path: seq<Pos>)
    requires InGrid(start, width, height) && start !in cells
    requires Grown(NewGrid(width, height), r, start, cells)
    requires IsPath(path, width, height, cells) && |path| > 0 && path[0] == start
    ensures forall q :: q in cells * AllCells(width, height) ==> r.grid[q] == INITIAL
    ensures forall i :: 0 <= i < |path| ==> path[i] in r.grid && r.grid[path[i]].visited
  {
    var g := NewGrid(width, height);
    NewGridFacts(width, height);
    assert cells + VisitedIn(g) == cells;
    GrownKeepsReserved(g, r, start, cells);
    GrownReachesComponent(g, r, start, cells, width, height, path);
    GrownVisits(g, r, start, cells);
  }
}
