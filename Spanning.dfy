/** What a finished depth-first generation guarantees, whichever variant ran
    it (the recursive `_walk` or the stack loop of iterative_dfs.py): its
    carves form a spanning tree of the free cells joined to the start,
    reserved cells are left alone, and wall symmetry survives. */
module Spanning {
  import opened Cells
  import opened Trees
  import opened Paths
  import opened Carving

  /** The grid a generation leaves and the carves it made, in order. */
  datatype Run = Run(grid: map<Pos, Cell>, log: seq<Carve>)

  /** A generation from `p` on its way from grid `g0` to grid `g`: its carves
      `log` grow a tree from `p` into cells that were in the grid, not
      reserved and not visited in `g0`, and `g` is `g0` carved by them. */
  ghost predicate Partial(g0: map<Pos, Cell>, g: map<Pos, Cell>, p: Pos, log: seq<Carve>, blocked: set<Pos>)
  {
    && AttachedFrom(log, {p})
    && (forall q :: q in Targets(log) ==> q in g0 && q !in blocked && !g0[q].visited)
    && CarvedGrid(g0, g, Reach(p, log), Opened(log))
  }

  /** A finished generation from `p` on grid `g` with result `r`: `Partial`
      holds and every open neighbour of a reached cell is visited. */
  ghost predicate Grown(g: map<Pos, Cell>, r: Run, p: Pos, blocked: set<Pos>)
  {
    && Partial(g, r.grid, p, r.log, blocked)
    && VisitedAround(r.grid, Reach(p, r.log), blocked)
  }

  /** The cells already claimed (visited) before a generation. */
  ghost function VisitedIn(g: map<Pos, Cell>): set<Pos>
  {
    set q | q in g && g[q].visited
  }

  /** The carves form a tree: one cell more is reached than carved, and
      every reached cell is in the grid. */
  lemma GrownTree(g: map<Pos, Cell>, r: Run, p: Pos, blocked: set<Pos>)
    requires p in g && Grown(g, r, p, blocked)
    ensures Reach(p, r.log) <= g.Keys
    ensures |Reach(p, r.log)| == |r.log| + 1
  {
    TreeSize(r.log, {p});
  }

  /** Every reached cell ends visited. */
  lemma GrownVisits(g: map<Pos, Cell>, r: Run, p: Pos, blocked: set<Pos>)
    requires p in g && Grown(g, r, p, blocked)
    ensures forall q :: q in Reach(p, r.log) ==> q in r.grid && r.grid[q].visited
  {
    forall q | q in Reach(p, r.log) ensures q in r.grid && r.grid[q].visited {
      assert q in g;
      assert Carved(g[q], r.grid[q], q, Reach(p, r.log), Opened(r.log));
    }
  }

  /** A reserved cell other than the start is left exactly as it was:
      still visited if it was, and every wall in place. */
  lemma GrownKeepsReserved(g: map<Pos, Cell>, r: Run, p: Pos, blocked: set<Pos>)
    requires Grown(g, r, p, blocked)
    ensures forall q :: q in g && q in blocked && q != p ==> r.grid[q] == g[q]
  {
    OpenedWithinReach(r.log, {p});
    forall q | q in g && q in blocked && q != p ensures r.grid[q] == g[q] {
      assert q !in Reach(p, r.log);
      assert Carved(g[q], r.grid[q], q, Reach(p, r.log), Opened(r.log));
      assert Side(q, N) !in Opened(r.log) && Side(q, E) !in Opened(r.log);
      assert Side(q, S) !in Opened(r.log) && Side(q, W) !in Opened(r.log);
    }
  }

  /** Walls are removed in pairs, so a grid whose adjacent cells agree on
      every wall between them still does afterwards. */
  lemma GrownSymmetric(g: map<Pos, Cell>, r: Run, p: Pos, blocked: set<Pos>)
    requires Grown(g, r, p, blocked) && SymmetricGrid(g)
    ensures SymmetricGrid(r.grid)
  {
    OpenedSymmetric(r.log);
    CarvedSymmetric(g, r.grid, Reach(p, r.log), Opened(r.log));
  }

  /** No free neighbour of a reached cell is left behind: every neighbour in
      the grid outside `claimed` (which holds the reserved cells and the
      cells visited before) has been reached. */
  lemma GrownClosed(g: map<Pos, Cell>, r: Run, p: Pos, blocked: set<Pos>, claimed: set<Pos>, width: nat, height: nat)
    requires g.Keys == AllCells(width, height)
    requires Grown(g, r, p, blocked)
    requires blocked <= claimed && forall q :: q in g && g[q].visited ==> q in claimed
    ensures ClosedUnder(Reach(p, r.log), width, height, claimed)
  {
    var reach := Reach(p, r.log);
    forall q, d | q in reach && Open(Step(q, d), width, height, claimed)
      ensures Step(q, d) in reach
    {
      var n := Step(q, d);
      assert r.grid[n].visited;
      assert Carved(g[n], r.grid[n], n, reach, Opened(r.log));
    }
  }

  /** Every cell joined to the start by a path of cells that were neither
      reserved nor visited before is reached: the cells reached are the
      start's whole component. */
  lemma GrownReachesComponent(g: map<Pos, Cell>, r: Run, p: Pos, blocked: set<Pos>,
                              width: nat, height: nat, path: seq<Pos>)
    requires g.Keys == AllCells(width, height) && Grown(g, r, p, blocked)
    requires IsPath(path, width, height, blocked + VisitedIn(g)) && |path| > 0 && path[0] == p
    ensures forall i :: 0 <= i < |path| ==> path[i] in Reach(p, r.log)
  {
    GrownClosed(g, r, p, blocked, blocked + VisitedIn(g), width, height);
    ClosedHoldsPath(Reach(p, r.log), path, width, height, blocked + VisitedIn(g));
  }

  /** On a grid where nothing is reserved or visited, every cell is reached
      and visited and `width * height - 1` walls are carved: a spanning tree
      of the whole grid. */
  lemma GrownFillsGrid(g: map<Pos, Cell>, r: Run, p: Pos, width: nat, height: nat)
    requires g.Keys == AllCells(width, height) && p in g
    requires forall q :: q in g ==> !g[q].visited
    requires Grown(g, r, p, {})
    ensures Reach(p, r.log) == AllCells(width, height)
    ensures forall q :: q in r.grid ==> r.grid[q].visited
    ensures |r.log| == width * height - 1
  {
    GrownTree(g, r, p, {});
    AllCellsSize(width, height);
    GrownClosed(g, r, p, {}, {}, width, height);
    ClosedIsWholeGrid(Reach(p, r.log), p, width, height);
    GrownVisits(g, r, p, {});
  }
}
