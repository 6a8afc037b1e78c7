/** The stack loop of iterative_dfs.py's `generate` as a function on grid
    values, and the invariant that shows it grows the same kind of spanning
    tree as the recursive `_walk`. */
module Stacks {
  import opened Cells
  import opened Trees
  import opened Carving
  import opened Spanning

  /** The loop's state: the grid, the stack of cells (its last entry is the
      top) and the carves made so far. */
  datatype State = State(grid: map<Pos, Cell>, stack: seq<Pos>, log: seq<Carve>)

  /** `randrange(n)` for the `k`-th draw: below `n` whenever `n > 0`. */
  ghost predicate ValidDraw(draw: (nat, nat) -> nat)
  {
    forall k: nat, n: nat :: 0 < n ==> draw(k, n) < n
  }

  /** The neighbour across `d` can be carved into: in the grid, not
      reserved and not visited. */
  predicate Free(g: map<Pos, Cell>, q: Pos, blocked: set<Pos>)
  {
    q in g && q !in blocked && !g[q].visited
  }

  /** The directions, in the order of `dirs`, whose neighbour of `top` is
      free: the `neighbors` list `generate` builds from N, E, S, W. */
  function Candidates(g: map<Pos, Cell>, top: Pos, dirs: seq<Direction>, blocked: set<Pos>): (c: seq<Direction>)
    ensures forall d :: d in c <==> d in dirs && Free(g, Step(top, d), blocked)
    ensures |c| <= |dirs|
  {
    if dirs == [] then []
    else
      var last := dirs[|dirs| - 1];
      var init := Candidates(g, top, dirs[..|dirs| - 1], blocked);
      assert forall d :: d in dirs <==> d in dirs[..|dirs| - 1] || d == last;
      if Free(g, Step(top, last), blocked) then init + [last] else init
  }

  /** The set of cells on the stack. */
  function Elems(stack: seq<Pos>): set<Pos>
  {
    set q | q in stack
  }

  /** The grid with the top of the stack marked visited, the first thing
      every pass of the loop does. */
  function Mark(g: map<Pos, Cell>, stack: seq<Pos>): (g': map<Pos, Cell>)
    requires forall q :: q in stack ==> q in g
    ensures g'.Keys == g.Keys
  {
    if stack == [] then g
    else
      var top := stack[|stack| - 1];
      g[top := g[top].(visited := true)]
  }

  /** `Mark` claims the top of the stack, if any, and changes nothing else:
      no wall, and no other cell's flag. */
  lemma MarkTop(g: map<Pos, Cell>, stack: seq<Pos>)
    requires forall q :: q in stack ==> q in g
    ensures forall q :: q in g ==> (Mark(g, stack)[q].visited <==> g[q].visited || (stack != [] && q == stack[|stack| - 1]))
    ensures forall q :: q in g ==> Mark(g, stack)[q].(visited := g[q].visited) == g[q]
  {
  }

  /** Every cell on the stack is in the grid, and every one below the top
      has been visited. */
  predicate StackOk(s: State)
  {
    && (forall q :: q in s.stack ==> q in s.grid)
    && (forall i :: 0 <= i < |s.stack| - 1 ==> s.grid[s.stack[i]].visited)
  }

  /** One pass of `while stack`: mark the top visited, list its free
      neighbours; with some, carve into the one `draw` picks and push it;
      with none, pop. */
  function IterStep(s: State, draw: (nat, nat) -> nat, blocked: set<Pos>): (s': State)
    requires s.stack != [] && StackOk(s) && ValidDraw(draw)
    ensures StackOk(s')
    ensures s'.grid.Keys == s.grid.Keys
  {
    var top := s.stack[|s.stack| - 1];
    var g1 := Mark(s.grid, s.stack);
    var c := Candidates(g1, top, DIRECTIONS, blocked);
    if c != [] then
      var d := c[draw(|s.log|, |c|)];
      assert d in c;
      State(OpenWall(g1, top, d), s.stack + [Step(top, d)], s.log + [Carve(top, d)])
    else
      State(g1, s.stack[..|s.stack| - 1], s.log)
  }

  /** The loop runs passes until the stack is empty. Each pass either pops
      or carves into an unvisited cell that then joins the stack, so the
      unvisited cells off the stack shrink, or stay and the stack shrinks. */
  function IterRun(s: State, draw: (nat, nat) -> nat, blocked: set<Pos>): (r: State)
    requires StackOk(s) && ValidDraw(draw)
    ensures r.stack == [] && r.grid.Keys == s.grid.Keys
    decreases UnvisitedIn(s.grid) - Elems(s.stack), |s.stack|
  {
    if s.stack == [] then s
    else
      var s' := IterStep(s, draw, blocked);
      IterStepShrinks(s, draw, blocked);
      IterRun(s', draw, blocked)
  }

  /** The measure of `IterRun` goes down with every pass. */
  lemma IterStepShrinks(s: State, draw: (nat, nat) -> nat, blocked: set<Pos>)
    requires s.stack != [] && StackOk(s) && ValidDraw(draw)
    ensures
      var s' := IterStep(s, draw, blocked);
      var before, after := UnvisitedIn(s.grid) - Elems(s.stack), UnvisitedIn(s'.grid) - Elems(s'.stack);
      after < before || (after == before && |s'.stack| < |s.stack|)
  {
    var s' := IterStep(s, draw, blocked);
    var top := s.stack[|s.stack| - 1];
    var g1 := Mark(s.grid, s.stack);
    var c := Candidates(g1, top, DIRECTIONS, blocked);
    var before, after := UnvisitedIn(s.grid) - Elems(s.stack), UnvisitedIn(s'.grid) - Elems(s'.stack);
    assert UnvisitedIn(g1) == UnvisitedIn(s.grid) - {top};
    if c != [] {
      var d := c[draw(|s.log|, |c|)];
      assert d in c;
      PushShrinks(s, g1, top, d, blocked);
    } else {
      forall q | q in after ensures q in before {
        assert q != top;
      }
    }
  }

  /** A push leaves the unvisited cells off the stack one fewer: the pushed
      cell was unvisited and is now on the stack. */
  lemma PushShrinks(s: State, g1: map<Pos, Cell>, top: Pos, d: Direction, blocked: set<Pos>)
    requires s.stack != [] && StackOk(s) && top == s.stack[|s.stack| - 1] && g1 == Mark(s.grid, s.stack)
    requires UnvisitedIn(g1) == UnvisitedIn(s.grid) - {top} && Free(g1, Step(top, d), blocked)
    ensures
      var stack' := s.stack + [Step(top, d)];
      UnvisitedIn(OpenWall(g1, top, d)) - Elems(stack') < UnvisitedIn(s.grid) - Elems(s.stack)
  {
    var next := Step(top, d);
    OpenKeepsUnvisited(g1, top, d);
    assert next in UnvisitedIn(g1) && next !in Elems(s.stack);
    assert next in Elems(s.stack + [next]);
  }

  /** `b` is the neighbour of `a` across a wall whose two sides are both in
      `cleared`. */
  ghost predicate Linked(a: Pos, b: Pos, cleared: set<Side>)
  {
    exists d: Direction :: b == Step(a, d) && Side(a, d) in cleared && Side(b, Opposite(d)) in cleared
  }

  /** The stack is a path of the maze from `start` to the frontier: its
      bottom is `start`, every cell pushed on it is unreserved, and every
      two neighbouring entries are adjacent with the wall between them
      carved on both sides. */
  ghost predicate StackPath(s: State, start: Pos, blocked: set<Pos>)
  {
    && (s.stack != [] ==> s.stack[0] == start)
    && (forall i :: 0 < i < |s.stack| ==> s.stack[i] !in blocked)
    && (forall i :: 0 <= i < |s.stack| - 1 ==> Linked(s.stack[i], s.stack[i + 1], Opened(s.log)))
  }

  /** Pushing the unreserved neighbour across `d` of the top, with the carve
      into it logged, extends the path. */
  lemma PushPath(s: State, g: map<Pos, Cell>, d: Direction, start: Pos, blocked: set<Pos>)
    requires s.stack != [] && StackPath(s, start, blocked)
    requires Step(s.stack[|s.stack| - 1], d) !in blocked
    ensures
      var top := s.stack[|s.stack| - 1];
      StackPath(State(g, s.stack + [Step(top, d)], s.log + [Carve(top, d)]), start, blocked)
  {
    var top := s.stack[|s.stack| - 1];
    var stack', log' := s.stack + [Step(top, d)], s.log + [Carve(top, d)];
    OpenedConcat(s.log, [Carve(top, d)]);
    var cleared := Opened(log');
    assert Opened(s.log) <= cleared;
    assert Side(top, d) in cleared && Side(Step(top, d), Opposite(d)) in cleared;
    forall i | 0 <= i < |stack'| - 1 ensures Linked(stack'[i], stack'[i + 1], cleared) {
      if i < |s.stack| - 1 {
        assert stack'[i] == s.stack[i] && stack'[i + 1] == s.stack[i + 1];
        LinkedGrows(s.stack[i], s.stack[i + 1], Opened(s.log), cleared);
      }
    }
  }

  /** Popping the top keeps the rest a path. */
  lemma PopPath(s: State, g: map<Pos, Cell>, start: Pos, blocked: set<Pos>)
    requires s.stack != [] && StackPath(s, start, blocked)
    ensures StackPath(State(g, s.stack[..|s.stack| - 1], s.log), start, blocked)
  {
  }

  /** A link stays a link when more wall sides are cleared. */
  lemma LinkedGrows(a: Pos, b: Pos, cleared: set<Side>, more: set<Side>)
    requires Linked(a, b, cleared) && cleared <= more
    ensures Linked(a, b, more)
  {
  }

  /** What holds before every pass of the loop that started at `start` on
      grid `g0`: the carves grow a tree from `start` into cells that were
      free in `g0`, the grid with its top marked is `g0` carved by them,
      every cell on the stack has been reached, the stack is a path from
      `start` through carved walls, and every reached cell off the stack
      (popped, so its neighbours were all claimed) has every open neighbour
      visited. */
  ghost predicate IterInv(g0: map<Pos, Cell>, s: State, start: Pos, blocked: set<Pos>)
  {
    && StackOk(s)
    && s.grid.Keys == g0.Keys
    && Partial(g0, Mark(s.grid, s.stack), start, s.log, blocked)
    && (forall q :: q in s.stack ==> q in Reach(start, s.log))
    && StackPath(s, start, blocked)
    && VisitedAround(s.grid, Reach(start, s.log) - Elems(s.stack), blocked)
  }

  /** The loop starts with the start cell alone on the stack. */
  lemma IterInvInit(g0: map<Pos, Cell>, start: Pos, blocked: set<Pos>)
    requires start in g0
    ensures IterInv(g0, State(g0, [start], []), start, blocked)
  {
    MarkVisited(g0, start);
    assert Reach(start, []) == {start};
    assert Reach(start, []) - Elems([start]) == {};
  }

  /** A grid that only gains visited cells keeps every open neighbour of
      `cells` visited. */
  lemma VisitedAroundGrows(a: map<Pos, Cell>, b: map<Pos, Cell>, cells: set<Pos>, blocked: set<Pos>)
    requires a.Keys == b.Keys && VisitedAround(a, cells, blocked)
    requires forall q :: q in a && a[q].visited ==> b[q].visited
    ensures VisitedAround(b, cells, blocked)
  {
  }

  /** Popping leaves a top that is already visited, so marking it changes
      nothing. */
  lemma PopMark(s: State)
    requires s.stack != [] && StackOk(s)
    ensures
      var g1 := Mark(s.grid, s.stack);
      var rest := s.stack[..|s.stack| - 1];
      (forall q :: q in rest ==> q in g1) && Mark(g1, rest) == g1
  {
    var top := s.stack[|s.stack| - 1];
    var g1 := Mark(s.grid, s.stack);
    var rest := s.stack[..|s.stack| - 1];
    if rest != [] {
      var top' := rest[|rest| - 1];
      assert s.grid[top'].visited;
      assert g1[top'].(visited := true) == g1[top'];
    }
  }

  /** The popped cell joins the cells whose open neighbours are all
      visited. */
  lemma PopClosed(s: State, top: Pos, g1: map<Pos, Cell>, reach: set<Pos>, blocked: set<Pos>)
    requires s.stack != [] && StackOk(s) && top == s.stack[|s.stack| - 1] && g1 == Mark(s.grid, s.stack)
    requires VisitedAround(s.grid, reach - Elems(s.stack), blocked)
    requires forall d :: Settled(g1, Step(top, d), blocked)
    ensures VisitedAround(g1, reach - Elems(s.stack[..|s.stack| - 1]), blocked)
  {
    var rest := s.stack[..|s.stack| - 1];
    assert s.stack == rest + [top];
    VisitedAroundGrows(s.grid, g1, reach - Elems(s.stack), blocked);
    forall q | q in reach - Elems(rest) ensures q in reach - Elems(s.stack) || q == top {
      assert q !in rest;
    }
  }

  /** A pass that pops keeps `IterInv`: the popped cell has no free
      neighbour left. */
  lemma IterPopSound(g0: map<Pos, Cell>, s: State, start: Pos, draw: (nat, nat) -> nat, blocked: set<Pos>)
    requires s.stack != [] && ValidDraw(draw) && IterInv(g0, s, start, blocked)
    requires Candidates(Mark(s.grid, s.stack), s.stack[|s.stack| - 1], DIRECTIONS, blocked) == []
    ensures IterInv(g0, IterStep(s, draw, blocked), start, blocked)
  {
    PopStep(s, draw, blocked);
    PopInv(g0, s, start, IterStep(s, draw, blocked), blocked);
  }

  /** A pass whose top has no free neighbour pops it, and every neighbour
      of the popped cell is settled. */
  lemma PopStep(s: State, draw: (nat, nat) -> nat, blocked: set<Pos>)
    requires s.stack != [] && StackOk(s) && ValidDraw(draw)
    requires Candidates(Mark(s.grid, s.stack), s.stack[|s.stack| - 1], DIRECTIONS, blocked) == []
    ensures
      var top := s.stack[|s.stack| - 1];
      var g1 := Mark(s.grid, s.stack);
      && (forall d :: Settled(g1, Step(top, d), blocked))
      && IterStep(s, draw, blocked) == State(g1, s.stack[..|s.stack| - 1], s.log)
  {
    var top := s.stack[|s.stack| - 1];
    var g1 := Mark(s.grid, s.stack);
    forall d: Direction ensures Settled(g1, Step(top, d), blocked) {
      assert d == DIRECTIONS[0] || d == DIRECTIONS[1] || d == DIRECTIONS[2] || d == DIRECTIONS[3];
      assert d !in Candidates(g1, top, DIRECTIONS, blocked);
    }
  }

  /** `IterPopSound` given the state `s'` the pop leaves. */
  lemma PopInv(g0: map<Pos, Cell>, s: State, start: Pos, s': State, blocked: set<Pos>)
    requires s.stack != [] && IterInv(g0, s, start, blocked)
    requires
      var top := s.stack[|s.stack| - 1];
      var g1 := Mark(s.grid, s.stack);
      && (forall d :: Settled(g1, Step(top, d), blocked))
      && s' == State(g1, s.stack[..|s.stack| - 1], s.log)
    ensures IterInv(g0, s', start, blocked)
  {
    var top := s.stack[|s.stack| - 1];
    var g1 := Mark(s.grid, s.stack);
    PopMark(s);
    PopClosed(s, top, g1, Reach(start, s.log), blocked);
    PopPath(s, g1, start, blocked);
  }

  /** A pass that pushes keeps `IterInv`: the carve goes from the top, a
      reached cell, into a free cell not reached yet, which joins the stack
      unmarked. */
  lemma IterPushSound(g0: map<Pos, Cell>, s: State, start: Pos, draw: (nat, nat) -> nat, blocked: set<Pos>)
    requires s.stack != [] && ValidDraw(draw) && IterInv(g0, s, start, blocked)
    requires Candidates(Mark(s.grid, s.stack), s.stack[|s.stack| - 1], DIRECTIONS, blocked) != []
    ensures IterInv(g0, IterStep(s, draw, blocked), start, blocked)
  {
    var top := s.stack[|s.stack| - 1];
    var g1 := Mark(s.grid, s.stack);
    var c := Candidates(g1, top, DIRECTIONS, blocked);
    var d := c[draw(|s.log|, |c|)];
    assert d in c;
    PushInv(g0, s, start, d, IterStep(s, draw, blocked), blocked);
  }

  /** `IterPushSound` for the pass that pushes the neighbour in direction `d`
      of the top, given the state `s'` it leaves. */
  lemma PushInv(g0: map<Pos, Cell>, s: State, start: Pos, d: Direction, s': State, blocked: set<Pos>)
    requires s.stack != [] && IterInv(g0, s, start, blocked)
    requires
      var top := s.stack[|s.stack| - 1];
      var g1 := Mark(s.grid, s.stack);
      && Free(g1, Step(top, d), blocked)
      && s' == State(OpenWall(g1, top, d), s.stack + [Step(top, d)], s.log + [Carve(top, d)])
    ensures IterInv(g0, s', start, blocked)
  {
    var top := s.stack[|s.stack| - 1];
    var g1 := Mark(s.grid, s.stack);
    var next := Step(top, d);
    var g2 := OpenWall(g1, top, d);
    PushTree(g0, g1, start, s.log, top, d, blocked);
    PushGrid(g0, g1, g2, Reach(start, s.log), Opened(s.log), top, d);
    MarkPush(g2, s.stack, next);
    PushClosed(s, s', g1, Reach(start, s.log), next, blocked);
    PushPath(s, g2, d, start, blocked);
  }

  /** Marking after a push marks the pushed cell. */
  lemma MarkPush(g: map<Pos, Cell>, stack: seq<Pos>, next: Pos)
    requires forall q :: q in stack ==> q in g
    requires next in g
    ensures Mark(g, stack + [next]) == g[next := g[next].(visited := true)]
  {
    assert (stack + [next])[|stack|] == next;
  }

  /** The tree part of a push: the log grows by the carve from the top
      into the free neighbour. */
  lemma PushTree(g0: map<Pos, Cell>, g1: map<Pos, Cell>, start: Pos, log: seq<Carve>, top: Pos, d: Direction, blocked: set<Pos>)
    requires Partial(g0, g1, start, log, blocked)
    requires top in Reach(start, log) && Free(g1, Step(top, d), blocked)
    ensures
      var log' := log + [Carve(top, d)];
      && AttachedFrom(log', {start})
      && (forall q :: q in Targets(log') ==> q in g0 && q !in blocked && !g0[q].visited)
      && Reach(start, log') == Reach(start, log) + {Step(top, d)}
      && Opened(log') == Opened(log) + {Side(top, d), Side(Step(top, d), Opposite(d))}
  {
    var next := Step(top, d);
    assert Carved(g0[next], g1[next], next, Reach(start, log), Opened(log));
    AttachOne(log, {start}, Carve(top, d));
  }

  /** The grid part of a push: opening the wall and then marking the new
      top carves both sides of the wall and reaches the new top. */
  lemma PushGrid(g0: map<Pos, Cell>, g1: map<Pos, Cell>, g2: map<Pos, Cell>, reached: set<Pos>, cleared: set<Side>,
                 top: Pos, d: Direction)
    requires CarvedGrid(g0, g1, reached, cleared)
    requires top in g1 && Step(top, d) in g1 && g2 == OpenWall(g1, top, d)
    ensures
      var next := Step(top, d);
      CarvedGrid(g0, g2[next := g2[next].(visited := true)], reached + {next},
                 cleared + {Side(top, d), Side(next, Opposite(d))})
  {
    var next := Step(top, d);
    var sides := {Side(top, d), Side(next, Opposite(d))};
    CarvedEdge(g0, g1, reached, cleared, top, d);
    MarkVisited(g2, next);
    CarvedCompose(g0, g2, g2[next := g2[next].(visited := true)], reached, cleared + sides, {next}, {});
    assert cleared + sides + {} == cleared + sides;
  }

  /** The closure part of a push: the cells reached and off the stack are
      the same as before, and they only gained visited neighbours. */
  lemma PushClosed(s: State, s': State, g1: map<Pos, Cell>, reach: set<Pos>, next: Pos, blocked: set<Pos>)
    requires s.stack != [] && StackOk(s) && g1 == Mark(s.grid, s.stack)
    requires s'.stack == s.stack + [next]
    requires s'.grid.Keys == g1.Keys && forall q :: q in g1 ==> s'.grid[q].visited == g1[q].visited
    requires VisitedAround(s.grid, reach - Elems(s.stack), blocked)
    ensures VisitedAround(s'.grid, (reach + {next}) - Elems(s'.stack), blocked)
  {
    VisitedAroundGrows(s.grid, s'.grid, reach - Elems(s.stack), blocked);
    forall q | q in (reach + {next}) - Elems(s'.stack) ensures q in reach - Elems(s.stack) {
      assert q !in s'.stack;
    }
  }

  /** Every pass keeps `IterInv`. */
  lemma IterStepSound(g0: map<Pos, Cell>, s: State, start: Pos, draw: (nat, nat) -> nat, blocked: set<Pos>)
    requires s.stack != [] && ValidDraw(draw) && IterInv(g0, s, start, blocked)
    ensures IterInv(g0, IterStep(s, draw, blocked), start, blocked)
  {
    if Candidates(Mark(s.grid, s.stack), s.stack[|s.stack| - 1], DIRECTIONS, blocked) == [] {
      IterPopSound(g0, s, start, draw, blocked);
    } else {
      IterPushSound(g0, s, start, draw, blocked);
    }
  }

  /** The loop keeps `IterInv` to its end, where the stack is empty. */
  lemma {:induction false} IterRunSound(g0: map<Pos, Cell>, s: State, start: Pos, draw: (nat, nat) -> nat, blocked: set<Pos>)
    requires ValidDraw(draw) && IterInv(g0, s, start, blocked)
    ensures IterInv(g0, IterRun(s, draw, blocked), start, blocked)
    decreases UnvisitedIn(s.grid) - Elems(s.stack), |s.stack|
  {
    if s.stack != [] {
      IterStepSound(g0, s, start, draw, blocked);
      IterStepShrinks(s, draw, blocked);
      IterRunSound(g0, IterStep(s, draw, blocked), start, draw, blocked);
    }
  }

  /** What iterative_dfs.py's `generate` does from `start`, for every
      sequence of draws: the same guarantee as the recursive `_walk`. Its
      carves grow a tree from `start` into cells that were free, the grid
      is the old one carved by them, and every open neighbour of a reached
      cell is visited. */
  lemma IterRunGrown(g0: map<Pos, Cell>, start: Pos, draw: (nat, nat) -> nat, blocked: set<Pos>)
    requires start in g0 && ValidDraw(draw)
    ensures
      var r := IterRun(State(g0, [start], []), draw, blocked);
      Grown(g0, Run(r.grid, r.log), start, blocked)
  {
    IterInvInit(g0, start, blocked);
    IterRunSound(g0, State(g0, [start], []), start, draw, blocked);
    var r := IterRun(State(g0, [start], []), draw, blocked);
    assert Reach(start, r.log) - Elems(r.stack) == Reach(start, r.log);
  }
}
