/** The carve log of one generation run, as a graph: every carve removes the
    wall between a cell and its neighbour in one direction. A log grows a tree
    when each carve leads from a cell already reached to a cell not yet
    reached. */
module Trees {
  import opened Cells

  /** One `_remove_wall(cell, neighbour, dir)` call made while walking. */
  datatype Carve = Carve(from: Pos, dir: Direction)

  /** One side of a wall: the wall `dir` of the cell at `at`. */
  datatype Side = Side(at: Pos, dir: Direction)

  function Target(c: Carve): Pos
  {
    Step(c.from, c.dir)
  }

  /** The cells a log carves into. */
  function Targets(log: seq<Carve>): set<Pos>
  {
    if log == [] then {} else Targets(log[..|log| - 1]) + {Target(log[|log| - 1])}
  }

  /** The cells a run started at `root` has reached. */
  function Reach(root: Pos, log: seq<Carve>): set<Pos>
  {
    {root} + Targets(log)
  }

  /** The wall sides a log clears: both sides of every carved wall. */
  function Opened(log: seq<Carve>): set<Side>
  {
    if log == [] then {}
    else
      var c := log[|log| - 1];
      Opened(log[..|log| - 1]) + {Side(c.from, c.dir), Side(Target(c), Opposite(c.dir))}
  }

  /** Every carve leads from a cell already reached (from `reached` or by an
      earlier carve) to a cell not reached yet: the log grows a tree. */
  ghost predicate AttachedFrom(log: seq<Carve>, reached: set<Pos>)
  {
    log == [] ||
    var init, c := log[..|log| - 1], log[|log| - 1];
    && AttachedFrom(init, reached)
    && c.from in reached + Targets(init)
    && Target(c) !in reached + Targets(init)
  }

  lemma {:induction false} TargetsConcat(a: seq<Carve>, b: seq<Carve>)
    ensures Targets(a + b) == Targets(a) + Targets(b)
    decreases |b|
  {
    if b != [] {
      var b' := b[..|b| - 1];
      assert (a + b)[..|a + b| - 1] == a + b';
      TargetsConcat(a, b');
    } else {
      assert a + b == a;
    }
  }

  lemma {:induction false} OpenedConcat(a: seq<Carve>, b: seq<Carve>)
    ensures Opened(a + b) == Opened(a) + Opened(b)
    decreases |b|
  {
    if b != [] {
      var b' := b[..|b| - 1];
      assert (a + b)[..|a + b| - 1] == a + b';
      OpenedConcat(a, b');
    } else {
      assert a + b == a;
    }
  }

  /** A log attached to more reached cells stays attached, as long as it
      never carves into one of them. */
  lemma {:induction false} AttachedWiden(log: seq<Carve>, reached: set<Pos>, more: set<Pos>)
    requires AttachedFrom(log, reached)
    requires more !! Targets(log)
    ensures AttachedFrom(log, reached + more)
    decreases |log|
  {
    if log != [] {
      AttachedWiden(log[..|log| - 1], reached, more);
    }
  }

  /** Appending a log attached to everything the first log reached keeps the
      whole log attached. */
  lemma {:induction false} AttachedConcat(a: seq<Carve>, b: seq<Carve>, reached: set<Pos>)
    requires AttachedFrom(a, reached)
    requires AttachedFrom(b, reached + Targets(a))
    ensures AttachedFrom(a + b, reached)
    decreases |b|
  {
    if b == [] {
      assert a + b == a;
    } else {
      var b' := b[..|b| - 1];
      assert (a + b)[..|a + b| - 1] == a + b';
      AttachedConcat(a, b', reached);
      TargetsConcat(a, b');
      assert (a + b)[|a + b| - 1] == b[|b| - 1];
    }
  }

  /** A carve from a reached cell to a cell not reached yet extends a tree
      by that cell and the two sides of that wall. */
  lemma AttachOne(log: seq<Carve>, reached: set<Pos>, c: Carve)
    requires AttachedFrom(log, reached)
    requires c.from in reached + Targets(log) && Target(c) !in reached + Targets(log)
    ensures AttachedFrom(log + [c], reached)
    ensures Targets(log + [c]) == Targets(log) + {Target(c)}
    ensures Opened(log + [c]) == Opened(log) + {Side(c.from, c.dir), Side(Target(c), Opposite(c.dir))}
  {
    assert (log + [c])[..|log|] == log;
  }

  /** Grafting onto a tree grown from `p` the carve from `p` into a cell
      `next` it has not reached, followed by a tree grown from `next` that
      avoids it, gives a tree grown from `p` that reaches and clears what its
      parts reach and clear. */
  lemma GraftTree(log: seq<Carve>, p: Pos, d: Direction, sub: seq<Carve>)
    requires AttachedFrom(log, {p})
    requires Step(p, d) !in Reach(p, log)
    requires AttachedFrom(sub, {Step(p, d)})
    requires Reach(p, log) !! Targets(sub)
    ensures
      var all := log + [Carve(p, d)] + sub;
      && AttachedFrom(all, {p})
      && Reach(p, all) == Reach(p, log) + Reach(Step(p, d), sub)
      && Targets(all) == Targets(log) + Reach(Step(p, d), sub)
      && Opened(all) == Opened(log) + {Side(p, d), Side(Step(p, d), Opposite(d))} + Opened(sub)
  {
    var next := Step(p, d);
    var log' := log + [Carve(p, d)];
    assert log'[..|log'| - 1] == log;
    assert Opened(log') == Opened(log) + {Side(p, d), Side(next, Opposite(d))};
    assert Targets(log') == Targets(log) + {next};
    TargetsConcat(log', sub);
    OpenedConcat(log', sub);
    assert AttachedFrom(log', {p});
    AttachedWiden(sub, {next}, Reach(p, log));
    assert {next} + Reach(p, log) == {p} + Targets(log');
    AttachedConcat(log', sub, {p});
  }

  /** A tree grown from `reached` has exactly one new cell per carve, so
      carves = cells reached - 1 when it is grown from one root. */
  lemma {:induction false} TreeSize(log: seq<Carve>, reached: set<Pos>)
    requires AttachedFrom(log, reached)
    ensures reached !! Targets(log)
    ensures |reached + Targets(log)| == |reached| + |log|
    decreases |log|
  {
    if log != [] {
      var init, c := log[..|log| - 1], log[|log| - 1];
      TreeSize(init, reached);
      assert reached + Targets(log) == (reached + Targets(init)) + {Target(c)};
    }
  }

  /** Every carved wall belongs to a cell the log has reached. */
  lemma {:induction false} OpenedWithinReach(log: seq<Carve>, reached: set<Pos>)
    requires AttachedFrom(log, reached)
    ensures forall s :: s in Opened(log) ==> s.at in reached + Targets(log)
    decreases |log|
  {
    if log != [] {
      OpenedWithinReach(log[..|log| - 1], reached);
    }
  }

  /** The same wall seen from the other side: the opposite wall of the
      neighbour across it. */
  function Mirror(s: Side): (m: Side)
    ensures Step(m.at, m.dir) == s.at && Opposite(m.dir) == s.dir
  {
    assert Opposite(Opposite(s.dir)) == s.dir;
    Side(Step(s.at, s.dir), Opposite(s.dir))
  }

  /** Carving is symmetric: a cleared side always comes with the cleared
      opposite side of the neighbour across the wall. */
  lemma {:induction false} OpenedSymmetric(log: seq<Carve>)
    ensures forall s {:trigger Mirror(s)} :: s in Opened(log) ==> Mirror(s) in Opened(log)
    decreases |log|
  {
    if log != [] {
      var c := log[|log| - 1];
      OpenedSymmetric(log[..|log| - 1]);
      assert Mirror(Side(c.from, c.dir)) == Side(Target(c), Opposite(c.dir));
    }
  }
}
