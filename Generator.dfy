/** The maze generator object shared by all variants: a `width x height`
    grid of cells updated in place, the set of reserved glyph cells, and the
    operations that carve a perfect maze into it. */
module Generator {
  import opened Cells
  import opened Trees
  import opened Paths
  import opened Carving
  import opened Spanning
  import opened Walks
  import opened Stacks
  import opened Glyph
  import opened Render
  import opened Hex

  /** What a call that can raise `ValueError` did: it returned, or it raised
      with this message. */
  datatype Outcome = Done | Raised(error: string)

  /** The message maze.py's `insert_42` raises below 13 x 5. */
  const TOO_SMALL_CENTERED := "Maze too small for 42 pattern"
  /** The message ma.py's `insert_42` raises below 5 x 5. */
  const TOO_SMALL_CORNER := "Maze too small to contain 42 pattern"
  /** The message ma.py's `insert_42` raises at an offset outside the maze. */
  const OUT_OF_BOUNDS := "42 pattern out of maze bounds"

  /** A grid of rows: `height` rows of `width` cells each. */
  predicate Shaped(m: seq<seq<Cell>>, width: int, height: int)
  {
    |m| == height && forall y :: 0 <= y < |m| ==> |m[y]| == width
  }

  /** The grid as a value: the cell at every in-bounds coordinate. */
  ghost function Snapshot(m: seq<seq<Cell>>, width: nat, height: nat): (g: map<Pos, Cell>)
    requires Shaped(m, width, height)
    ensures g.Keys == AllCells(width, height)
  {
    map q | q in AllCells(width, height) :: m[q.y][q.x]
  }

  /** Replacing one cell of the rows replaces that cell of the snapshot. */
  lemma SnapshotUpdate(m: seq<seq<Cell>>, width: nat, height: nat, p: Pos, c: Cell)
    requires Shaped(m, width, height) && InGrid(p, width, height)
    ensures Shaped(m[p.y := m[p.y][p.x := c]], width, height)
    ensures Snapshot(m[p.y := m[p.y][p.x := c]], width, height) == Snapshot(m, width, height)[p := c]
  {
    var m' := m[p.y := m[p.y][p.x := c]];
    assert Shaped(m', width, height);
    var a, b := Snapshot(m', width, height), Snapshot(m, width, height)[p := c];
    assert a.Keys == b.Keys;
    forall q | q in a ensures a[q] == b[q] {
      if q != p {
        assert q.y != p.y || q.x != p.x;
      }
    }
  }

  /** The grid `__init__` builds: a new cell at every coordinate. */
  ghost function NewGrid(width: nat, height: nat): (g: map<Pos, Cell>)
    ensures g.Keys == AllCells(width, height)
  {
    map q | q in AllCells(width, height) :: INITIAL
  }

  /** A new grid has every wall in place on both sides of every shared
      wall, and no cell claimed. */
  lemma NewGridFacts(width: nat, height: nat)
    ensures SymmetricGrid(NewGrid(width, height))
    ensures forall q :: q in NewGrid(width, height) ==> AllWalls(NewGrid(width, height)[q])
    ensures VisitedIn(NewGrid(width, height)) == {}
  {
    var g := NewGrid(width, height);
    forall q, d | q in g && Step(q, d) in g
      ensures Wall(g[q], d) == Wall(g[Step(q, d)], Opposite(d))
    {
      assert g[q] == INITIAL && g[Step(q, d)] == INITIAL;
    }
    assert forall q :: q in g ==> !g[q].visited;
  }

  class MazeGenerator {
    const width: nat
    const height: nat
    /** `maze[y][x]` is the cell in row `y`, column `x`. */
    var maze: seq<seq<Cell>>
    /** The reserved glyph cells; empty in the variants without a glyph. */
    var patternCells: set<Pos>

    ghost predicate Valid()
      reads this
    {
      Shaped(maze, width, height)
    }

    /** The part of `__init__` after the size check: a grid of new cells and
        no reserved cells yet. */
    constructor (width: nat, height: nat)
      ensures Valid() && this.width == width && this.height == height
      ensures patternCells == {} && Grid() == NewGrid(width, height)
    {
      this.width := width;
      this.height := height;
      maze := seq(height, _ => seq(width, _ => INITIAL));
      patternCells := {};
    }

    /** `_in_bounds`: `(x, y)` is a cell of the grid. */
    predicate InBounds(x: int, y: int)
      ensures InBounds(x, y) <==> Pos(x, y) in AllCells(width, height)
    {
      InGrid(Pos(x, y), width, height)
    }

    /** The grid as a value: the cell at every in-bounds coordinate. */
    ghost function Grid(): (g: map<Pos, Cell>)
      reads this
      requires Valid()
      ensures g.Keys == AllCells(width, height)
    {
      Snapshot(maze, width, height)
    }

    /** Replaces the cell at `p`; used for every in-place change of a cell. */
    method SetCell(p: Pos, c: Cell)
      requires Valid() && InBounds(p.x, p.y)
      modifies this
      ensures Valid() && patternCells == old(patternCells)
      ensures Grid() == old(Grid())[p := c]
    {
      SnapshotUpdate(maze, width, height, p, c);
      maze := maze[p.y := maze[p.y][p.x := c]];
    }

    /** Clears wall `d` of the cell at `p1` and the opposite wall of its
        neighbour `p2` across that wall; no other cell changes. */
    method RemoveWall(p1: Pos, p2: Pos, d: Direction)
      requires Valid() && InBounds(p1.x, p1.y) && InBounds(p2.x, p2.y) && p2 == Step(p1, d)
      modifies this
      ensures Valid() && patternCells == old(patternCells)
      ensures Grid() == OpenWall(old(Grid()), p1, d)
    {
      ghost var g := Grid();
      assert maze[p1.y][p1.x] == g[p1];
      SetCell(p1, WithoutWall(maze[p1.y][p1.x], d));
      assert maze[p2.y][p2.x] == Grid()[p2] == g[p2];
      SetCell(p2, WithoutWall(maze[p2.y][p2.x], Opposite(d)));
    }

    /** The three checks `_walk` makes before carving into `q`: in bounds,
        not reserved, not visited. */
    predicate Free(q: Pos)
      reads this
      requires Valid()
      ensures Free(q) <==> Stacks.Free(Grid(), q, patternCells)
    {
      InBounds(q.x, q.y) && q !in patternCells && !maze[q.y][q.x].visited
    }

    /** The recursive `_walk`: marks `p` visited, then makes one pass per
        direction of the shuffled order `order(p)`. The grid it leaves and the
        carves it makes (ghost) are those of `WalkRun`. */
    method Walk(p: Pos, order: Pos -> seq<Direction>) returns (ghost log: seq<Carve>)
      requires Valid() && InBounds(p.x, p.y)
      modifies this
      decreases UnvisitedIn(Grid()), if p in UnvisitedIn(Grid()) then 0 else 2
      ensures Valid() && patternCells == old(patternCells)
      ensures Run(Grid(), log) == WalkRun(old(Grid()), p, order, patternCells)
    {
      ghost var g0 := Grid();
      SetCell(p, maze[p.y][p.x].(visited := true));
      MarkVisited(g0, p);
      var directions := order(p);
      log := [];
      var i := 0;
      while i < |directions|
        invariant 0 <= i <= |directions|
        invariant Valid() && patternCells == old(patternCells)
        invariant UnvisitedIn(Grid()) <= UnvisitedIn(g0) - {p}
        invariant LoopRun(Grid(), p, directions, i, log, order, patternCells) == WalkRun(g0, p, order, patternCells)
      {
        Shrinks(UnvisitedIn(Grid()), UnvisitedIn(g0), p);
        log := Pass(p, directions, i, order, log);
        i := i + 1;
      }
    }

    /** One pass of `_walk`'s loop at `p`, in direction `directions[i]`: the
        neighbour there is skipped when it is out of bounds, reserved or
        visited; otherwise the wall to it is removed and the walk goes on from
        it. The grid and the carves afterwards are those of `LoopRun` one pass
        further on. */
    method Pass(p: Pos, directions: seq<Direction>, i: nat, order: Pos -> seq<Direction>, ghost log: seq<Carve>)
      returns (ghost log': seq<Carve>)
      requires Valid() && InBounds(p.x, p.y) && i < |directions|
      modifies this
      decreases UnvisitedIn(Grid()), 1
      ensures Valid() && patternCells == old(patternCells)
      ensures UnvisitedIn(Grid()) <= UnvisitedIn(old(Grid()))
      ensures LoopRun(Grid(), p, directions, i + 1, log', order, patternCells)
           == LoopRun(old(Grid()), p, directions, i, log, order, patternCells)
    {
      var d := directions[i];
      var next := Step(p, d);
      ghost var g1 := Grid();
      if !InBounds(next.x, next.y) || next in patternCells || maze[next.y][next.x].visited {
        LoopRunSkip(g1, p, directions, i, log, order, patternCells);
        return log;
      }
      LoopRunOpen(g1, p, directions, i, log, order, patternCells);
      RemoveWall(p, next, d);
      OpenKeepsUnvisited(g1, p, d);
      ghost var sub := Walk(next, order);
      log' := log + [Carve(p, d)] + sub;
    }
  
    /** `generate` of the recursive variants, from a start the caller has
        drawn in bounds and outside the reserved cells: one `_walk`. The grid
        afterwards and the carves are those of `WalkRun`, so everything proved
        about `Grown` holds of them. */
    method Generate(start: Pos, order: Pos -> seq<Direction>) returns (ghost log: seq<Carve>)
      requires Valid() && InBounds(start.x, start.y) && start !in patternCells && Shuffles(order)
      modifies this
      ensures Valid() && patternCells == old(patternCells)
      ensures Run(Grid(), log) == WalkRun(old(Grid()), start, order, patternCells)
      ensures Grown(old(Grid()), Run(Grid(), log), start, patternCells)
    {
      WalkRunSound(Grid(), start, order, patternCells);
      log := Walk(start, order);
    }

    /** The `neighbors` list one pass of the stack loop builds for `top`: the
        directions N, E, S, W, in that order, whose neighbour is in bounds,
        not reserved and not visited. */
    method Neighbors(top: Pos) returns (c: seq<Direction>)
      requires Valid()
      ensures c == Candidates(Grid(), top, DIRECTIONS, patternCells)
    {
      c := [];
      var i := 0;
      while i < |DIRECTIONS|
        invariant 0 <= i <= |DIRECTIONS|
        invariant c == Candidates(Grid(), top, DIRECTIONS[..i], patternCells)
      {
        var d := DIRECTIONS[i];
        var q := Step(top, d);
        assert DIRECTIONS[..i + 1][..i] == DIRECTIONS[..i];
        if Free(q) {
          c := c + [d];
        }
        i := i + 1;
      }
      assert DIRECTIONS[..i] == DIRECTIONS;
    }

    /** One pass of the stack loop: mark the top visited, list its free
        neighbours, and either carve into the one `draw` picks and push it,
        or pop. The grid, stack and carves afterwards are those of
        `IterStep`. */
    method IterPass(stack: seq<Pos>, draw: (nat, nat) -> nat, picks: nat, ghost log: seq<Carve>)
      returns (stack': seq<Pos>, picks': nat, ghost log': seq<Carve>)
      requires Valid() && stack != [] && ValidDraw(draw) && picks == |log|
      requires StackOk(State(Grid(), stack, log))
      modifies this
      ensures Valid() && patternCells == old(patternCells) && picks' == |log'|
      ensures State(Grid(), stack', log') == IterStep(State(old(Grid()), stack, log), draw, patternCells)
    {
      var top := stack[|stack| - 1];
      assert top in Grid();
      SetCell(top, maze[top.y][top.x].(visited := true));
      stack', picks', log' := IterMove(stack, draw, picks, log, old(Grid()));
    }

    /** The rest of a pass, once the top is marked: carve into a drawn
        neighbour and push it, or pop. */
    method IterMove(stack: seq<Pos>, draw: (nat, nat) -> nat, picks: nat, ghost log: seq<Carve>, ghost g0: map<Pos, Cell>)
      returns (stack': seq<Pos>, picks': nat, ghost log': seq<Carve>)
      requires Valid() && stack != [] && ValidDraw(draw) && picks == |log|
      requires StackOk(State(g0, stack, log)) && Grid() == Mark(g0, stack)
      modifies this
      ensures Valid() && patternCells == old(patternCells) && picks' == |log'|
      ensures State(Grid(), stack', log') == IterStep(State(g0, stack, log), draw, patternCells)
    {
      var top := stack[|stack| - 1];
      var neighbors := Neighbors(top);
      if neighbors != [] {
        var d := neighbors[draw(picks, |neighbors|)];
        assert d in neighbors;
        var next := Step(top, d);
        RemoveWall(top, next, d);
        stack', picks', log' := stack + [next], picks + 1, log + [Carve(top, d)];
      } else {
        stack', picks', log' := stack[..|stack| - 1], picks, log;
      }
    }

    /** iterative_dfs.py's `generate`, from a start the caller has drawn in
        bounds and outside the reserved cells: `while stack` runs passes until
        the stack is empty. `draw(k, n)` is the `k`-th `randrange(n)`. The
        grid afterwards and the carves are those of `IterRun`, so everything
        proved about `Grown` holds of them. */
    method GenerateIterative(start: Pos, draw: (nat, nat) -> nat) returns (ghost log: seq<Carve>)
      requires Valid() && InBounds(start.x, start.y) && start !in patternCells && ValidDraw(draw)
      modifies this
      ensures Valid() && patternCells == old(patternCells)
      ensures
        var r := IterRun(State(old(Grid()), [start], []), draw, patternCells);
        Grid() == r.grid && log == r.log
      ensures Grown(old(Grid()), Run(Grid(), log), start, patternCells)
    {
      ghost var s0 := State(Grid(), [start], []);
      IterRunGrown(s0.grid, start, draw, patternCells);
      var stack := [start];
      var picks := 0;
      log := [];
      while stack != []
        invariant Valid() && patternCells == old(patternCells) && picks == |log|
        invariant StackOk(State(Grid(), stack, log))
        invariant IterRun(State(Grid(), stack, log), draw, patternCells) == IterRun(s0, draw, patternCells)
        decreases UnvisitedIn(Grid()) - Elems(stack), |stack|
      {
        ghost var s := State(Grid(), stack, log);
        IterStepShrinks(s, draw, patternCells);
        stack, picks, log := IterPass(stack, draw, picks, log);
      }
    }
  
    /** The reservation in the constructors of recursive_dfs.py (`mark`) and
        iterative_dfs.py (not `mark`): below 7 x 5 nothing is reserved;
        otherwise every 1-cell of the bitmap, squeezed to the width and
        centred, is reserved when in bounds, and with `mark` set to a visited
        cell with all four walls. */
    method ReserveScaled(mark: bool)
      requires Valid()
      modifies this
      ensures Valid()
      ensures patternCells == if Fits(Scaled, width, height) then Placed(Scaled, GLYPH_HEIGHT, 0, width, height) else {}
      ensures Grid() == if mark then MarkAll(old(Grid()), patternCells) else old(Grid())
    {
      patternCells := {};
      MarkNone(Grid());
      if width < 7 || height < GLYPH_HEIGHT {
        return;
      }
      ReserveScaledRows(mark, Grid());
    }

    /** The loops of `ReserveScaled` once the size check has passed, from no
        reserved cell on the grid `g0`. */
    method ReserveScaledRows(mark: bool, ghost g0: map<Pos, Cell>)
      requires Valid() && Fits(Scaled, width, height)
      requires patternCells == {} && Grid() == if mark then MarkAll(g0, patternCells) else g0
      modifies this
      ensures Valid() && patternCells == Placed(Scaled, GLYPH_HEIGHT, 0, width, height)
      ensures Grid() == if mark then MarkAll(g0, patternCells) else g0
    {
      var base := Base(Scaled, width, height);
      for oy := 0 to GLYPH_HEIGHT
        invariant Valid() && patternCells == Placed(Scaled, oy, 0, width, height)
        invariant Grid() == if mark then MarkAll(g0, patternCells) else g0
      {
        ReserveScaledRow(oy, base, mark, g0);
        PlacedRow(GLYPH, Scaled, oy, width, height);
      }
    }

    /** One pass of `ReserveScaledRows`' outer loop: the inner loop over the
        columns of bitmap row `oy`. */
    method ReserveScaledRow(oy: int, base: Pos, mark: bool, ghost g0: map<Pos, Cell>)
      requires Valid() && 0 <= oy < GLYPH_HEIGHT && base == Base(Scaled, width, height)
      requires patternCells == Placed(Scaled, oy, 0, width, height)
      requires Grid() == if mark then MarkAll(g0, patternCells) else g0
      modifies this
      ensures Valid() && patternCells == Placed(Scaled, oy, GLYPH_WIDTH, width, height)
      ensures Grid() == if mark then MarkAll(g0, patternCells) else g0
    {
      for ox := 0 to GLYPH_WIDTH
        invariant Valid() && patternCells == Placed(Scaled, oy, ox, width, height)
        invariant Grid() == if mark then MarkAll(g0, patternCells) else g0
      {
        ReserveScaledAt(ox, oy, base, mark, g0);
      }
    }

    /** One position of `ReserveScaledRow`'s loop: a 1-cell of the bitmap whose
        squeezed place is in bounds is reserved, and with `mark` set to a
        visited cell with all four walls. */
    method ReserveScaledAt(ox: int, oy: int, base: Pos, mark: bool, ghost g0: map<Pos, Cell>)
      requires Valid() && 0 <= ox < GLYPH_WIDTH && 0 <= oy < GLYPH_HEIGHT && base == Base(Scaled, width, height)
      requires patternCells == Placed(Scaled, oy, ox, width, height)
      requires Grid() == if mark then MarkAll(g0, patternCells) else g0
      modifies this
      ensures Valid() && patternCells == Placed(Scaled, oy, ox + 1, width, height)
      ensures Grid() == if mark then MarkAll(g0, patternCells) else g0
    {
      var q := Pos(base.x + ScaleX(ox, width), base.y + oy);
      assert q == Place(Scaled, ox, oy, width, height);
      if GlyphAt(ox, oy) && InBounds(q.x, q.y) {
        PlacedAdd(GLYPH, Scaled, oy, ox, width, height);
        if mark {
          MarkOneMore(g0, patternCells, q);
          SetCell(q, RESERVED);
        }
        patternCells := patternCells + {q};
      } else {
        PlacedSkip(GLYPH, Scaled, oy, ox, width, height);
      }
    }

    /** The reservation in goodmaze.py's constructor: every 1-cell of the
        bitmap, centred without a size check, is reserved and set to a
        visited cell with all four walls. Below 13 x 5 the corner is negative
        and the cells wrap around or fall off the grid, so the model
        requires the size. */
    method ReserveCentered()
      requires Valid() && Fits(Centered, width, height)
      modifies this
      ensures Valid()
      ensures patternCells == Placed(Centered, GLYPH_HEIGHT, 0, width, height)
      ensures Grid() == MarkAll(old(Grid()), patternCells)
    {
      patternCells := {};
      MarkNone(Grid());
      ReserveCenteredRows(Grid());
    }

    /** The loops of `ReserveCentered`, from no reserved cell on the grid
        `g0`. */
    method ReserveCenteredRows(ghost g0: map<Pos, Cell>)
      requires Valid() && Fits(Centered, width, height)
      requires patternCells == {} && Grid() == MarkAll(g0, patternCells)
      modifies this
      ensures Valid() && patternCells == Placed(Centered, GLYPH_HEIGHT, 0, width, height)
      ensures Grid() == MarkAll(g0, patternCells)
    {
      var base := Base(Centered, width, height);
      for oy := 0 to GLYPH_HEIGHT
        invariant Valid() && patternCells == Placed(Centered, oy, 0, width, height)
        invariant Grid() == MarkAll(g0, patternCells)
      {
        ReserveCenteredRow(oy, base, g0);
        PlacedRow(GLYPH, Centered, oy, width, height);
      }
    }

    /** One pass of `ReserveCentered`'s outer loop: the inner loop over the
        columns of bitmap row `oy`. */
    method ReserveCenteredRow(oy: int, base: Pos, ghost g0: map<Pos, Cell>)
      requires Valid() && Fits(Centered, width, height)
      requires 0 <= oy < GLYPH_HEIGHT && base == Base(Centered, width, height)
      requires patternCells == Placed(Centered, oy, 0, width, height) && Grid() == MarkAll(g0, patternCells)
      modifies this
      ensures Valid() && patternCells == Placed(Centered, oy, GLYPH_WIDTH, width, height)
      ensures Grid() == MarkAll(g0, patternCells)
    {
      for ox := 0 to GLYPH_WIDTH
        invariant Valid() && patternCells == Placed(Centered, oy, ox, width, height)
        invariant Grid() == MarkAll(g0, patternCells)
      {
        ReserveCenteredAt(ox, oy, base, g0);
      }
    }

    /** One position of `ReserveCenteredRow`'s loop: a 1-cell of the bitmap is
        reserved and set to a visited cell with all four walls. */
    method ReserveCenteredAt(ox: int, oy: int, base: Pos, ghost g0: map<Pos, Cell>)
      requires Valid() && Fits(Centered, width, height)
      requires 0 <= ox < GLYPH_WIDTH && 0 <= oy < GLYPH_HEIGHT && base == Base(Centered, width, height)
      requires patternCells == Placed(Centered, oy, ox, width, height) && Grid() == MarkAll(g0, patternCells)
      modifies this
      ensures Valid() && patternCells == Placed(Centered, oy, ox + 1, width, height)
      ensures Grid() == MarkAll(g0, patternCells)
    {
      if GlyphAt(ox, oy) {
        var q := Pos(base.x + ox, base.y + oy);
        assert q == Place(Centered, ox, oy, width, height);
        PlaceInGrid(Centered, ox, oy, width, height);
        PlacedAdd(GLYPH, Centered, oy, ox, width, height);
        MarkOneMore(g0, patternCells, q);
        SetCell(q, RESERVED);
        patternCells := patternCells + {q};
      } else {
        PlacedSkip(GLYPH, Centered, oy, ox, width, height);
      }
    }

    /** One glyph cell of maze.py's `insert_42`: the cell becomes visited
        with all four walls, and each existing neighbour gets its wall facing
        the cell set. */
    method GuardCell(p: Pos)
      requires Valid() && InBounds(p.x, p.y)
      modifies this
      ensures Valid() && patternCells == old(patternCells)
      ensures Grid() == GuardOne(old(Grid()), p)
    {
      SetCell(p, RESERVED);
      ShutWall(Step(p, N), S);
      ShutWall(Step(p, S), N);
      ShutWall(Step(p, W), E);
      ShutWall(Step(p, E), W);
    }

    /** Sets wall `d` of the cell at `q` when `q` is in the maze; the
        `y > 0`, `y < height - 1`, `x > 0` and `x < width - 1` tests of
        `insert_42` are this bounds test for the four neighbours. */
    method ShutWall(q: Pos, d: Direction)
      requires Valid()
      modifies this
      ensures Valid() && patternCells == old(patternCells)
      ensures Grid() == Shut(old(Grid()), q, d)
    {
      if InBounds(q.x, q.y) {
        assert maze[q.y][q.x] == Grid()[q];
        SetCell(q, WithWall(maze[q.y][q.x], d));
      }
    }

    /** maze.py's `insert_42`, called after `generate`: raises below 13 x 5
        before touching a cell; otherwise every 1-cell of the centred bitmap
        becomes visited with all four walls and every neighbour's wall facing
        it is set, so wall symmetry survives (`GuardedSymmetric`). */
    method Insert42Centered() returns (r: Outcome)
      requires Valid()
      modifies this
      ensures Valid() && patternCells == old(patternCells)
      ensures r.Raised? <==> !Fits(Centered, width, height)
      ensures r.Raised? ==> r.error == TOO_SMALL_CENTERED
      ensures r.Raised? ==> Grid() == old(Grid())
      ensures r.Done? ==> Grid() == Guarded(old(Grid()), Placed(Centered, GLYPH_HEIGHT, 0, width, height))
    {
      if width < GLYPH_WIDTH || height < GLYPH_HEIGHT {
        return Raised(TOO_SMALL_CENTERED);
      }
      GuardNone(Grid());
      ghost var cells := GuardRows(Grid());
      return Done;
    }

    /** The loops of `Insert42Centered` once the size check has passed, from
        no guarded cell on the grid `g0`: every 1-cell of the centred bitmap
        is guarded by `GuardCell`. */
    method GuardRows(ghost g0: map<Pos, Cell>) returns (ghost cells: set<Pos>)
      requires Valid() && Fits(Centered, width, height) && Grid() == Guarded(g0, {})
      modifies this
      ensures Valid() && patternCells == old(patternCells)
      ensures cells == Placed(Centered, GLYPH_HEIGHT, 0, width, height) && Grid() == Guarded(g0, cells)
    {
      var base := Base(Centered, width, height);
      cells := {};
      for oy := 0 to GLYPH_HEIGHT
        invariant Valid() && patternCells == old(patternCells)
        invariant cells == Placed(Centered, oy, 0, width, height) && Grid() == Guarded(g0, cells)
      {
        cells := GuardRow(oy, base, g0, cells);
        PlacedRow(GLYPH, Centered, oy, width, height);
      }
    }

    /** One pass of `GuardRows`' outer loop: the inner loop over the
        columns of bitmap row `oy`. */
    method GuardRow(oy: int, base: Pos, ghost g0: map<Pos, Cell>, ghost cells: set<Pos>)
      returns (ghost cells': set<Pos>)
      requires Valid() && Fits(Centered, width, height)
      requires 0 <= oy < GLYPH_HEIGHT && base == Base(Centered, width, height)
      requires cells == Placed(Centered, oy, 0, width, height) && Grid() == Guarded(g0, cells)
      modifies this
      ensures Valid() && patternCells == old(patternCells)
      ensures cells' == Placed(Centered, oy, GLYPH_WIDTH, width, height) && Grid() == Guarded(g0, cells')
    {
      cells' := cells;
      for ox := 0 to GLYPH_WIDTH
        invariant Valid() && patternCells == old(patternCells)
        invariant cells' == Placed(Centered, oy, ox, width, height) && Grid() == Guarded(g0, cells')
      {
        cells' := Insert42CenteredAt(ox, oy, base, g0, cells');
      }
    }

    /** One position of `GuardRow`'s loop: a 1-cell of the bitmap
        is guarded by `GuardCell`. */
    method Insert42CenteredAt(ox: int, oy: int, base: Pos, ghost g0: map<Pos, Cell>, ghost cells: set<Pos>)
      returns (ghost cells': set<Pos>)
      requires Valid() && Fits(Centered, width, height)
      requires 0 <= ox < GLYPH_WIDTH && 0 <= oy < GLYPH_HEIGHT && base == Base(Centered, width, height)
      requires cells == Placed(Centered, oy, ox, width, height) && Grid() == Guarded(g0, cells)
      modifies this
      ensures Valid() && patternCells == old(patternCells)
      ensures cells' == Placed(Centered, oy, ox + 1, width, height) && Grid() == Guarded(g0, cells')
    {
      if GlyphAt(ox, oy) {
        var p := Pos(base.x + ox, base.y + oy);
        assert p == Place(Centered, ox, oy, width, height);
        PlaceInGrid(Centered, ox, oy, width, height);
        PlacedAdd(GLYPH, Centered, oy, ox, width, height);
        GuardOneMore(g0, cells, p);
        GuardCell(p);
        cells' := cells + {p};
      } else {
        PlacedSkip(GLYPH, Centered, oy, ox, width, height);
        cells' := cells;
      }
    }

    /** maze.py's `_center_42`: the corner that centres a 5 x 5 shape,
        `((width - 5) // 2, (height - 5) // 2)` with floor division; nothing
        changes. */
    function Center42(): (c: Pos)
      ensures 2 * c.x <= width - 5 < 2 * c.x + 2
      ensures 2 * c.y <= height - 5 < 2 * c.y + 2
    {
      Pos((width - 5) / 2, (height - 5) / 2)
    }

    /** ma.py's `insert_42(top_x, top_y)`: raises below 5 x 5 before touching
        a cell; otherwise sets the cell of each `PATTERN_42` offset from the
        corner, in order, to a visited cell with all four walls, and raises
        at the first offset outside the maze, leaving the earlier ones set.
        It returns normally exactly when the corner is in
        `0..width-5 x 0..height-5`. */
    method Insert42At(tx: int, ty: int) returns (r: Outcome)
      requires Valid()
      modifies this
      ensures Valid() && patternCells == old(patternCells)
      ensures r.Done? <==> 0 <= tx <= width - 5 && 0 <= ty <= height - 5
      ensures r.Raised? ==> r.error == if width < 5 || height < 5 then TOO_SMALL_CORNER else OUT_OF_BOUNDS
      ensures width < 5 || height < 5 ==> Grid() == old(Grid())
      ensures width >= 5 && height >= 5 ==>
        Grid() == MarkAll(old(Grid()), Corner(tx, ty, FirstOutside(tx, ty, width, height, 0)))
    {
      if width < 5 || height < 5 {
        return Raised(TOO_SMALL_CORNER);
      }
      CornerFits(tx, ty, width, height);
      MarkNone(Grid());
      r := MarkCorner(tx, ty, Grid());
    }

    /** The loop of `Insert42At` once the size check has passed, from no
        marked cell on the grid `g0`: the offsets are marked in order up to
        the first one outside the maze, where it raises. */
    method MarkCorner(tx: int, ty: int, ghost g0: map<Pos, Cell>) returns (r: Outcome)
      requires Valid() && Grid() == MarkAll(g0, {})
      modifies this
      ensures Valid() && patternCells == old(patternCells)
      ensures r.Done? <==> FirstOutside(tx, ty, width, height, 0) == |PATTERN_42|
      ensures r.Raised? ==> r.error == OUT_OF_BOUNDS
      ensures Grid() == MarkAll(g0, Corner(tx, ty, FirstOutside(tx, ty, width, height, 0)))
    {
      var i := 0;
      while i < |PATTERN_42|
        invariant 0 <= i <= |PATTERN_42| && Valid() && patternCells == old(patternCells)
        invariant InsideUpTo(tx, ty, width, height, i) && Grid() == MarkAll(g0, Corner(tx, ty, i))
      {
        var q := OffsetCell(tx, ty, i);
        if !InBounds(q.x, q.y) {
          FirstOutsideAt(tx, ty, width, height, i);
          return Raised(OUT_OF_BOUNDS);
        }
        MarkOffset(q, tx, ty, i, g0);
        i := i + 1;
      }
      FirstOutsideAt(tx, ty, width, height, i);
      return Done;
    }

    /** One pass of `MarkCorner`'s loop at an offset inside the maze: its
        cell becomes visited with all four walls. */
    method MarkOffset(q: Pos, tx: int, ty: int, i: nat, ghost g0: map<Pos, Cell>)
      requires Valid() && i < |PATTERN_42| && q == OffsetCell(tx, ty, i)
      requires InBounds(q.x, q.y) && Grid() == MarkAll(g0, Corner(tx, ty, i))
      modifies this
      ensures Valid() && patternCells == old(patternCells)
      ensures Grid() == MarkAll(g0, Corner(tx, ty, i + 1))
    {
      CornerMark(g0, tx, ty, i);
      SetCell(q, RESERVED);
    }

    /** `display_ascii`, returning the lines it prints: the top border, then
        per row the line built cell by cell with `+=` and the floor line.
        They are `Picture`, whose shape and content `PictureText` states. */
    method DisplayAscii() returns (lines: seq<string>)
      requires Valid()
      ensures Covers(Grid(), width, height)
      ensures lines == Picture(Grid(), patternCells, width, height)
    {
      assert Covers(Grid(), width, height);
      lines := [Border(width)];
      for y := 0 to height
        invariant lines == [Border(width)] + Rows(Grid(), patternCells, width, y)
      {
        var cellsLine := CellsText(y);
        var floorLine := FloorText(y);
        lines := lines + [cellsLine, floorLine];
      }
    }

    /** The cells line of row `y`: `"|"`, then per cell `###` when it is
        reserved or has all four walls (blanks otherwise) and `|` when it
        has its east wall (a blank otherwise). */
    method CellsText(y: nat) returns (line: string)
      requires Valid() && y < height
      ensures forall x :: 0 <= x < width ==> Pos(x, y) in Grid()
      ensures line == CellsLine(Grid(), patternCells, y, width)
    {
      line := "|";
      for x := 0 to width
        invariant forall x' :: 0 <= x' < width ==> Pos(x', y) in Grid()
        invariant line == CellsLine(Grid(), patternCells, y, x)
      {
        var cell := maze[y][x];
        assert cell == Grid()[Pos(x, y)];
        if Pos(x, y) in patternCells {
          line := line + "###";
        } else if AllWalls(cell) {
          line := line + "###";
        } else {
          line := line + "   ";
        }
        if cell.e {
          line := line + "|";
        } else {
          line := line + " ";
        }
      }
    }

    /** The floor line of row `y`: `"+"`, then per cell `---+` when it is
        reserved or has its south wall, `   +` otherwise. */
    method FloorText(y: nat) returns (line: string)
      requires Valid() && y < height
      ensures forall x :: 0 <= x < width ==> Pos(x, y) in Grid()
      ensures line == FloorLine(Grid(), patternCells, y, width)
    {
      line := "+";
      for x := 0 to width
        invariant forall x' :: 0 <= x' < width ==> Pos(x', y) in Grid()
        invariant line == FloorLine(Grid(), patternCells, y, x)
      {
        var cell := maze[y][x];
        assert cell == Grid()[Pos(x, y)];
        if Pos(x, y) in patternCells || cell.s {
          line := line + "---+";
        } else {
          line := line + "   +";
        }
      }
    }

    /** ma.py's `to_hex_grid`: per row, per cell, the hexadecimal digit of
        its walls. It changes nothing, and `DecodeEncode` reads every digit
        back as the cell's walls. */
    method ToHexGrid() returns (hexMaze: seq<seq<string>>)
      requires Valid()
      ensures |hexMaze| == height
      ensures forall y :: 0 <= y < height ==> |hexMaze[y]| == width
      ensures forall x, y :: 0 <= x < width && 0 <= y < height ==> hexMaze[y][x] == Encode(Grid()[Pos(x, y)])
    {
      hexMaze := [];
      for y := 0 to height
        invariant |hexMaze| == y
        invariant forall y' :: 0 <= y' < y ==> |hexMaze[y']| == width
        invariant forall x, y' :: 0 <= x < width && 0 <= y' < y ==> hexMaze[y'][x] == Encode(Grid()[Pos(x, y')])
      {
        var hexRow := HexRow(y);
        hexMaze := hexMaze + [hexRow];
      }
    }

    /** One row of `to_hex_grid`. */
    method HexRow(y: nat) returns (hexRow: seq<string>)
      requires Valid() && y < height
      ensures |hexRow| == width
      ensures forall x :: 0 <= x < width ==> hexRow[x] == Encode(Grid()[Pos(x, y)])
    {
      hexRow := [];
      for x := 0 to width
        invariant |hexRow| == x
        invariant forall x' :: 0 <= x' < x ==> hexRow[x'] == Encode(Grid()[Pos(x', y)])
      {
        var cell := maze[y][x];
        assert cell == Grid()[Pos(x, y)];
        var value := CellValue(cell);
        hexRow := hexRow + [[HEX_DIGITS[value]]];
      }
    }
  }
}
