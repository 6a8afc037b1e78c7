/** The recursive `_walk` of recursive_dfs.py, goodmaze.py, maze.py and
    ma.py as a function on grid values, and what it guarantees: the carves
    grow a spanning tree of the free cells it can reach, reserved cells are
    never touched, wall symmetry survives, and on an empty, unreserved grid
    every cell is reached. */
module Walks {
  import opened Cells
  import opened Trees
  import opened Paths
  import opened Carving
  import opened Spanning

  /** A shuffle of the four directions, as `random.shuffle` leaves the
      four-entry neighbour list. */
  predicate IsShuffle(s: seq<Direction>)
  {
    |s| == 4 && N in s && E in s && S in s && W in s
  }

  /** The random orders a walk uses: one shuffle per `_walk` call. Every call
      visits a different cell, so one shuffle per cell is as general as one
      per call. */
  ghost predicate Shuffles(order: Pos -> seq<Direction>)
  {
    forall q :: IsShuffle(order(q))
  }

  /** `_walk(p)` on grid `g`: mark `p` visited, then run the loop over the
      directions `order(p)`. `blocked` is the reserved set the walk skips
      (empty for maze.py and ma.py). */
  function WalkRun(g: map<Pos, Cell>, p: Pos, order: Pos -> seq<Direction>, blocked: set<Pos>): (r: Run)
    requires p in g
    ensures r.grid.Keys == g.Keys
    ensures UnvisitedIn(r.grid) <= UnvisitedIn(g) - {p}
    decreases UnvisitedIn(g), if g[p].visited then 1 else 0, 0
  {
    MarkVisited(g, p);
    LoopRun(g[p := g[p].(visited := true)], p, order(p), 0, [], order, blocked)
  }

  /** Passes `i..` of `_walk`'s loop at `p` over `directions`, with the carves
      `acc` made so far: a direction is skipped when its neighbour is off the
      grid, reserved or visited at the moment it is tried; otherwise the wall
      to it is removed and the walk recurses into it. */
  function LoopRun(g: map<Pos, Cell>, p: Pos, directions: seq<Direction>, i: nat, acc: seq<Carve>,
                   order: Pos -> seq<Direction>, blocked: set<Pos>): (r: Run)
    requires p in g && i <= |directions|
    ensures r.grid.Keys == g.Keys
    ensures UnvisitedIn(r.grid) <= UnvisitedIn(g)
    decreases UnvisitedIn(g), 0, |directions| - i + 1
  {
    if i == |directions| then Run(g, acc)
    else
      var d := directions[i];
      var next := Step(p, d);
      if next !in g || next in blocked || g[next].visited then
        LoopRun(g, p, directions, i + 1, acc, order, blocked)
      else
        var g' := OpenWall(g, p, d);
        OpenKeepsUnvisited(g, p, d);
        var sub := WalkRun(g', next, order, blocked);
        LoopRun(sub.grid, p, directions, i + 1, acc + [Carve(p, d)] + sub.log, order, blocked)
  }

  /** A pass of the loop that skips its direction moves on to the next. */
  lemma LoopRunSkip(g: map<Pos, Cell>, p: Pos, directions: seq<Direction>, i: nat, acc: seq<Carve>,
                    order: Pos -> seq<Direction>, blocked: set<Pos>)
    requires p in g && i < |directions|
    requires Step(p, directions[i]) !in g || Step(p, directions[i]) in blocked || g[Step(p, directions[i])].visited
    ensures LoopRun(g, p, directions, i, acc, order, blocked) == LoopRun(g, p, directions, i + 1, acc, order, blocked)
  {
  }

  /** A pass of the loop that carves opens the wall, walks from the
      neighbour, and moves on to the next direction with the carve and the
      walk's carves logged. */
  lemma LoopRunOpen(g: map<Pos, Cell>, p: Pos, directions: seq<Direction>, i: nat, acc: seq<Carve>,
                    order: Pos -> seq<Direction>, blocked: set<Pos>)
    requires p in g && i < |directions|
    requires Step(p, directions[i]) in g && Step(p, directions[i]) !in blocked && !g[Step(p, directions[i])].visited
    ensures
      var d := directions[i];
      var sub := WalkRun(OpenWall(g, p, d), Step(p, d), order, blocked);
      LoopRun(g, p, directions, i, acc, order, blocked) == LoopRun(sub.grid, p, directions, i + 1, acc + [Carve(p, d)] + sub.log, order, blocked)
  {
  }

  /** Cells left unvisited once `p` is marked: fewer than before, or the
      same when `p` was visited already. */
  lemma Shrinks(u: set<Pos>, u0: set<Pos>, p: Pos)
    requires u <= u0 - {p}
    ensures u < u0 || (u == u0 && p !in u0)
  {
    if p in u0 {
      assert p !in u;
    }
  }

  /** A cell whose neighbour in every direction of a shuffle is settled has
      every open neighbour visited. */
  lemma SettledAround(g: map<Pos, Cell>, p: Pos, directions: seq<Direction>, cells: set<Pos>, blocked: set<Pos>)
    requires IsShuffle(directions)
    requires forall j :: 0 <= j < |directions| ==> Settled(g, Step(p, directions[j]), blocked)
    requires VisitedAround(g, cells, blocked)
    ensures VisitedAround(g, {p} + cells, blocked)
  {
    forall d: Direction ensures Settled(g, Step(p, d), blocked) {
      var j :| 0 <= j < |directions| && directions[j] == d;
    }
  }

  /** The walk at `p` has passed directions `directions[..i]` of its loop,
      on the way from `g0` to `g` with the carves `log`: `Partial` holds,
      every open neighbour of a target is visited, and the neighbour in
      every direction tried is settled. */
  ghost predicate LoopInv(g0: map<Pos, Cell>, g: map<Pos, Cell>, p: Pos, directions: seq<Direction>, i: nat,
                          log: seq<Carve>, blocked: set<Pos>)
  {
    && Partial(g0, g, p, log, blocked)
    && VisitedAround(g, Targets(log), blocked)
    && forall j :: 0 <= j < i && j < |directions| ==> Settled(g, Step(p, directions[j]), blocked)
  }

  /** One carve-and-walk pass of `_walk` at `p`, in direction
      `d = directions[i]`: the loop has left grid `g1` with carves `log`, the
      pass opens the wall to the free neighbour (`g2`) and the walk from there
      ends with `r`. The loop invariant then holds with the pass counted. */
  lemma WalkStep(p: Pos, directions: seq<Direction>, i: nat, blocked: set<Pos>, g0: map<Pos, Cell>, log: seq<Carve>,
                 g1: map<Pos, Cell>, g2: map<Pos, Cell>, r: Run)
    requires i < |directions|
    requires LoopInv(g0, g1, p, directions, i, log, blocked)
    requires
      var next := Step(p, directions[i]);
      && p in g1 && next in g1 && next !in blocked && !g1[next].visited
      && g2 == OpenWall(g1, p, directions[i])
      && Grown(g2, r, next, blocked)
    ensures LoopInv(g0, r.grid, p, directions, i + 1, log + [Carve(p, directions[i])] + r.log, blocked)
  {
    var d := directions[i];
    var next := Step(p, d);
    var g3, sub := r.grid, r.log;
    OpenStep(g0, g1, g2, Reach(p, log), Opened(log), p, d);
    WalkStepTree(g0, g1, g2, blocked, p, d, log, sub);
    WalkStepGrid(g0, g1, g2, g3, blocked, p, d, Reach(p, log), Opened(log),
                 Targets(log), Reach(next, sub), Opened(sub));
  }

  /** What `_walk(p)` does, for every shuffle: its carves grow a tree from
      `p` into cells that were in the grid, not reserved and not visited;
      the grid afterwards is the old one with exactly the reached cells
      visited and the carved walls removed on both sides; and every open
      neighbour of a reached cell is visited. */
  lemma {:induction false} WalkRunSound(g: map<Pos, Cell>, p: Pos, order: Pos -> seq<Direction>, blocked: set<Pos>)
    requires p in g && Shuffles(order)
    ensures Grown(g, WalkRun(g, p, order, blocked), p, blocked)
    decreases UnvisitedIn(g), if g[p].visited then 1 else 0, 0
  {
    MarkVisited(g, p);
    var g' := g[p := g[p].(visited := true)];
    assert Reach(p, []) == {p};
    LoopRunSound(g, g', p, order(p), 0, [], order, blocked);
    var r := LoopRun(g', p, order(p), 0, [], order, blocked);
    SettledAround(r.grid, p, order(p), Targets(r.log), blocked);
  }

  /** The loop of `_walk(p)` keeps `LoopInv` to its end. */
  lemma {:induction false} LoopRunSound(g0: map<Pos, Cell>, g: map<Pos, Cell>, p: Pos, directions: seq<Direction>, i: nat,
                                        acc: seq<Carve>, order: Pos -> seq<Direction>, blocked: set<Pos>)
    requires p in g && i <= |directions| && Shuffles(order)
    requires LoopInv(g0, g, p, directions, i, acc, blocked)
    ensures
      var r := LoopRun(g, p, directions, i, acc, order, blocked);
      LoopInv(g0, r.grid, p, directions, |directions|, r.log, blocked)
    decreases UnvisitedIn(g), 0, |directions| - i + 1
  {
    if i < |directions| {
      var next := Step(p, directions[i]);
      if next !in g || next in blocked || g[next].visited {
        LoopRunSound(g0, g, p, directions, i + 1, acc, order, blocked);
      } else {
        LoopRunCarve(g0, g, p, directions, i, acc, order, blocked);
      }
    }
  }

  /** `LoopRunSound` for a pass that carves into the free neighbour. */
  lemma {:induction false} LoopRunCarve(g0: map<Pos, Cell>, g: map<Pos, Cell>, p: Pos, directions: seq<Direction>, i: nat,
                                        acc: seq<Carve>, order: Pos -> seq<Direction>, blocked: set<Pos>)
    requires p in g && i < |directions| && Shuffles(order)
    requires Step(p, directions[i]) in g && Step(p, directions[i]) !in blocked && !g[Step(p, directions[i])].visited
    requires LoopInv(g0, g, p, directions, i, acc, blocked)
    ensures
      var r := LoopRun(g, p, directions, i, acc, order, blocked);
      LoopInv(g0, r.grid, p, directions, |directions|, r.log, blocked)
    decreases UnvisitedIn(g), 0, |directions| - i
  {
    var d := directions[i];
    var next := Step(p, d);
    var g' := OpenWall(g, p, d);
    OpenKeepsUnvisited(g, p, d);
    var sub := WalkRun(g', next, order, blocked);
    WalkRunSound(g', next, order, blocked);
    WalkStep(p, directions, i, blocked, g0, acc, g, g', sub);
    LoopRunSound(g0, sub.grid, p, directions, i + 1, acc + [Carve(p, d)] + sub.log, order, blocked);
  }
}
