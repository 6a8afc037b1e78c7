/** What a depth-first walk does to the grid, stated on snapshots of the grid
    (a map from coordinates to cells): the cells it reaches become visited,
    the wall sides it clears disappear, and nothing else changes. */
module Carving {
  import opened Cells
  import opened Trees

  /** The cell at `q` went from `a` to `b` in a walk that reached the cells
      `reached` and cleared the wall sides `cleared`: it is visited when it
      was or when it was reached, and it keeps a wall exactly when it had it
      and the walk did not clear it. */
  predicate Carved(a: Cell, b: Cell, q: Pos, reached: set<Pos>, cleared: set<Side>)
  {
    && b.visited == (a.visited || q in reached)
    && b.n == (a.n && Side(q, N) !in cleared)
    && b.e == (a.e && Side(q, E) !in cleared)
    && b.s == (a.s && Side(q, S) !in cleared)
    && b.w == (a.w && Side(q, W) !in cleared)
  }

  /** `after` is `before` with the cells `reached` visited and the wall sides
      `cleared` removed, and nothing else changed. */
  ghost predicate CarvedGrid(before: map<Pos, Cell>, after: map<Pos, Cell>, reached: set<Pos>, cleared: set<Side>)
  {
    && before.Keys == after.Keys
    && forall q :: q in before ==> Carved(before[q], after[q], q, reached, cleared)
  }

  /** Every open neighbour (in the grid, not blocked) of a cell of `cells` is
      visited. */
  ghost predicate VisitedAround(grid: map<Pos, Cell>, cells: set<Pos>, blocked: set<Pos>)
  {
    forall q, d :: q in cells && Step(q, d) in grid && Step(q, d) !in blocked ==> grid[Step(q, d)].visited
  }

  /** The neighbour in direction `d` is off the grid, blocked or visited. */
  ghost predicate Settled(grid: map<Pos, Cell>, q: Pos, blocked: set<Pos>)
  {
    q !in grid || q in blocked || grid[q].visited
  }

  /** Wall symmetry: two adjacent cells agree on the wall between them. */
  ghost predicate SymmetricGrid(g: map<Pos, Cell>)
  {
    forall q, d :: q in g && Step(q, d) in g ==> Wall(g[q], d) == Wall(g[Step(q, d)], Opposite(d))
  }

  ghost function UnvisitedIn(grid: map<Pos, Cell>): set<Pos>
  {
    set q | q in grid && !grid[q].visited
  }

  /** `_remove_wall` on a grid value: wall `d` of the cell at `p` and the
      opposite wall of its neighbour across it are cleared; no other wall
      and no visited flag changes. */
  function OpenWall(g: map<Pos, Cell>, p: Pos, d: Direction): (g': map<Pos, Cell>)
    requires p in g && Step(p, d) in g
    ensures g'.Keys == g.Keys
    ensures forall q :: q in g ==> g'[q].visited == g[q].visited
    ensures forall q, e :: q in g ==>
      Wall(g'[q], e) == (Wall(g[q], e) && Side(q, e) != Side(p, d) && Side(q, e) != Side(Step(p, d), Opposite(d)))
  {
    g[p := WithoutWall(g[p], d)][Step(p, d) := WithoutWall(g[Step(p, d)], Opposite(d))]
  }

  /** Removing a wall visits nothing. */
  lemma OpenKeepsUnvisited(g: map<Pos, Cell>, p: Pos, d: Direction)
    requires p in g && Step(p, d) in g
    ensures UnvisitedIn(OpenWall(g, p, d)) == UnvisitedIn(g)
  {
    var g' := OpenWall(g, p, d);
    forall q ensures q in UnvisitedIn(g') <==> q in UnvisitedIn(g) {
      if q in g {
        assert g'[q].visited == g[q].visited;
      }
    }
  }

  /** Two walks one after the other carve what both carve together. */
  lemma CarvedCompose(a: map<Pos, Cell>, b: map<Pos, Cell>, c: map<Pos, Cell>,
                      r1: set<Pos>, o1: set<Side>, r2: set<Pos>, o2: set<Side>)
    requires CarvedGrid(a, b, r1, o1) && CarvedGrid(b, c, r2, o2)
    ensures CarvedGrid(a, c, r1 + r2, o1 + o2)
  {
  }

  /** Clearing the wall between `p` and its neighbour `next` on a carved grid
      carves both sides of that wall. */
  lemma CarvedEdge(a: map<Pos, Cell>, b: map<Pos, Cell>, reached: set<Pos>, cleared: set<Side>, p: Pos, d: Direction)
    requires CarvedGrid(a, b, reached, cleared)
    requires p in b && Step(p, d) in b
    ensures CarvedGrid(a, OpenWall(b, p, d), reached, cleared + {Side(p, d), Side(Step(p, d), Opposite(d))})
  {
    var b' := OpenWall(b, p, d);
    var sides := {Side(p, d), Side(Step(p, d), Opposite(d))};
    forall q | q in a ensures Carved(a[q], b'[q], q, reached, cleared + sides) {
      CarvedCell(a[q], b[q], b'[q], q, reached, cleared, sides);
    }
  }

  /** One cell of `CarvedEdge`: clearing the wall sides `sides` of a carved
      cell carves them too. */
  lemma CarvedCell(a: Cell, b: Cell, b': Cell, q: Pos, reached: set<Pos>, cleared: set<Side>, sides: set<Side>)
    requires Carved(a, b, q, reached, cleared)
    requires b'.visited == b.visited
    requires forall e :: Wall(b', e) == (Wall(b, e) && Side(q, e) !in sides)
    ensures Carved(a, b', q, reached, cleared + sides)
  {
    assert Wall(b', N) == b'.n && Wall(b', E) == b'.e && Wall(b', S) == b'.s && Wall(b', W) == b'.w;
  }

  /** A wall of a carved cell is present exactly when it was and its side
      was not cleared. */
  lemma CarvedWall(a: Cell, b: Cell, q: Pos, d: Direction, reached: set<Pos>, cleared: set<Side>)
    requires Carved(a, b, q, reached, cleared)
    ensures Wall(b, d) == (Wall(a, d) && Side(q, d) !in cleared)
  {
  }

  /** Clearing wall sides in mirrored pairs keeps a symmetric grid
      symmetric. */
  lemma CarvedSymmetric(a: map<Pos, Cell>, b: map<Pos, Cell>, reached: set<Pos>, cleared: set<Side>)
    requires CarvedGrid(a, b, reached, cleared) && SymmetricGrid(a)
    requires forall s {:trigger Mirror(s)} :: s in cleared ==> Mirror(s) in cleared
    ensures SymmetricGrid(b)
  {
    forall q, d | q in b && Step(q, d) in b
      ensures Wall(b[q], d) == Wall(b[Step(q, d)], Opposite(d))
    {
      var q' := Step(q, d);
      assert Mirror(Side(q, d)) == Side(q', Opposite(d));
      assert Mirror(Side(q', Opposite(d))) == Side(q, d);
      CarvedWall(a[q], b[q], q, d, reached, cleared);
      CarvedWall(a[q'], b[q'], q', Opposite(d), reached, cleared);
    }
  }

  /** Opening the wall between `p` and its unvisited neighbour on a carved
      grid carves both sides of that wall and visits nothing. */
  lemma OpenStep(g0: map<Pos, Cell>, g1: map<Pos, Cell>, g2: map<Pos, Cell>,
                 reached: set<Pos>, cleared: set<Side>, p: Pos, d: Direction)
    requires CarvedGrid(g0, g1, reached, cleared)
    requires p in g1 && Step(p, d) in g1
    requires g2 == OpenWall(g1, p, d)
    ensures CarvedGrid(g0, g2, reached, cleared + {Side(p, d), Side(Step(p, d), Opposite(d))})
    ensures UnvisitedIn(g2) == UnvisitedIn(g1)
  {
    CarvedEdge(g0, g1, reached, cleared, p, d);
    CarvedVisited(g0, g1, reached, cleared);
    CarvedVisited(g0, g2, reached, cleared + {Side(p, d), Side(Step(p, d), Opposite(d))});
  }

  /** Marking the cell `p` visited is a walk that reaches `p` alone. */
  lemma MarkVisited(g: map<Pos, Cell>, p: Pos)
    requires p in g
    ensures CarvedGrid(g, g[p := g[p].(visited := true)], {p}, {})
    ensures UnvisitedIn(g[p := g[p].(visited := true)]) == UnvisitedIn(g) - {p}
  {
  }

  /** A walk only adds visited cells: what was visited stays visited and
      what it reached is visited. */
  lemma CarvedVisited(a: map<Pos, Cell>, b: map<Pos, Cell>, reached: set<Pos>, cleared: set<Side>)
    requires CarvedGrid(a, b, reached, cleared)
    ensures UnvisitedIn(b) == UnvisitedIn(a) - reached
    ensures forall q :: q in a && a[q].visited ==> b[q].visited
  {
  }

  /** Being visited around a set of cells survives a walk. */
  lemma VisitedAroundKept(a: map<Pos, Cell>, b: map<Pos, Cell>, cells: set<Pos>, blocked: set<Pos>,
                          reached: set<Pos>, cleared: set<Side>)
    requires CarvedGrid(a, b, reached, cleared)
    requires VisitedAround(a, cells, blocked)
    ensures VisitedAround(b, cells, blocked)
  {
  }

  /** The log of one carve-and-walk step of `_walk` at `p` in direction `d`:
      the carve into the unvisited neighbour, then the walk's log `sub` from
      it. The combined log still grows a tree from `p`, and reaches and clears
      what its parts reach and clear. */
  lemma {:induction false} WalkStepTree(g0: map<Pos, Cell>, g1: map<Pos, Cell>, g2: map<Pos, Cell>,
                                        blocked: set<Pos>, p: Pos, d: Direction, log: seq<Carve>, sub: seq<Carve>)
    requires AttachedFrom(log, {p})
    requires forall q :: q in Targets(log) ==> q in g0 && q !in blocked && !g0[q].visited
    requires CarvedGrid(g0, g1, Reach(p, log), Opened(log))
    requires p in g1 && Step(p, d) in g1 && Step(p, d) !in blocked && !g1[Step(p, d)].visited
    requires CarvedGrid(g0, g2, Reach(p, log), Opened(log) + {Side(p, d), Side(Step(p, d), Opposite(d))})
    requires AttachedFrom(sub, {Step(p, d)})
    requires forall q :: q in Targets(sub) ==> q in g2 && q !in blocked && !g2[q].visited
    ensures
      var all := log + [Carve(p, d)] + sub;
      && AttachedFrom(all, {p})
      && (forall q :: q in Targets(all) ==> q in g0 && q !in blocked && !g0[q].visited)
      && Reach(p, all) == Reach(p, log) + Reach(Step(p, d), sub)
      && Targets(all) == Targets(log) + Reach(Step(p, d), sub)
      && Opened(all) == Opened(log) + {Side(p, d), Side(Step(p, d), Opposite(d))} + Opened(sub)
  {
    var next := Step(p, d);
    assert next !in Reach(p, log);
    assert Reach(p, log) !! Targets(sub);
    GraftTree(log, p, d, sub);
  }

  /** The grid after one carve-and-walk step of `_walk` at `p`: the wall to
      `next` is removed (grid `g1` to `g2`) and the walk from `next` carves
      `g2` into `g3`. */
  lemma WalkStepGrid(g0: map<Pos, Cell>, g1: map<Pos, Cell>, g2: map<Pos, Cell>, g3: map<Pos, Cell>,
                     blocked: set<Pos>, p: Pos, d: Direction, reached: set<Pos>, cleared: set<Side>,
                     cells: set<Pos>, subReached: set<Pos>, subCleared: set<Side>)
    requires CarvedGrid(g0, g1, reached, cleared)
    requires VisitedAround(g1, cells, blocked)
    requires p in g1 && Step(p, d) in g1
    requires g2 == OpenWall(g1, p, d)
    requires CarvedGrid(g2, g3, subReached, subCleared)
    requires VisitedAround(g3, subReached, blocked)
    ensures CarvedGrid(g0, g3, reached + subReached, cleared + {Side(p, d), Side(Step(p, d), Opposite(d))} + subCleared)
    ensures VisitedAround(g3, cells + subReached, blocked)
    ensures forall q :: Settled(g1, q, blocked) ==> Settled(g3, q, blocked)
  {
    CarvedEdge(g0, g1, reached, cleared, p, d);
    CarvedCompose(g0, g2, g3, reached, cleared + {Side(p, d), Side(Step(p, d), Opposite(d))}, subReached, subCleared);
    CarvedVisited(g2, g3, subReached, subCleared);
    VisitedAroundKept(g2, g3, cells, blocked, subReached, subCleared);
  }
}
