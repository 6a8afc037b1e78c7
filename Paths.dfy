/** Reachability on the grid graph: cells are adjacent when one step apart,
    and a blocked set (the reserved glyph cells, or cells claimed before the
    walk) removes cells from the graph. */
module Paths {
  import opened Cells

  /** The cells `Pos(x, y)` with `0 <= x < width` in row `y`. */
  function Row(width: nat, y: int): (r: set<Pos>)
    ensures forall q :: q in r <==> q.y == y && 0 <= q.x < width
    ensures |r| == width
  {
    if width == 0 then {} else Row(width - 1, y) + {Pos(width - 1, y)}
  }

  /** Every cell of a `width x height` grid. */
  function AllCells(width: nat, height: nat): (r: set<Pos>)
    ensures forall q :: q in r <==> InGrid(q, width, height)
  {
    set x, y | 0 <= x < width && 0 <= y < height :: Pos(x, y)
  }

  /** A `width x height` grid has `width * height` cells: row by row, each
      new row adds `width` cells none of the rows above holds. */
  lemma {:induction false} AllCellsSize(width: nat, height: nat)
    ensures |AllCells(width, height)| == width * height
  {
    if height > 0 {
      var above, row := AllCells(width, height - 1), Row(width, height - 1);
      AllCellsSize(width, height - 1);
      forall q ensures q in AllCells(width, height) <==> q in above + row {
        assert q in row <==> q.y == height - 1 && 0 <= q.x < width;
      }
      assert AllCells(width, height) == above + row;
      assert above * row == {} by {
        forall q | q in above ensures q !in row { }
      }
      assert |above + row| == |above| + |row|;
      assert width * (height - 1) + width == width * height;
    } else {
      assert AllCells(width, height) == {};
    }
  }

  predicate Open(q: Pos, width: int, height: int, blocked: set<Pos>)
  {
    InGrid(q, width, height) && q !in blocked
  }

  predicate Adjacent(a: Pos, b: Pos)
  {
    b == Step(a, N) || b == Step(a, E) || b == Step(a, S) || b == Step(a, W)
  }

  /** No open neighbour of a cell of `cells` is missing from `cells`. */
  ghost predicate ClosedUnder(cells: set<Pos>, width: int, height: int, blocked: set<Pos>)
  {
    forall q, d :: q in cells && Open(Step(q, d), width, height, blocked) ==> Step(q, d) in cells
  }

  /** A walk through open cells, each adjacent to the next. */
  ghost predicate IsPath(path: seq<Pos>, width: int, height: int, blocked: set<Pos>)
  {
    && (forall i :: 0 <= i < |path| ==> Open(path[i], width, height, blocked))
    && (forall i :: 0 <= i < |path| - 1 ==> Adjacent(path[i], path[i + 1]))
  }

  /** A closed set that holds the first cell of a path holds all of it: a
      closed set contains everything reachable from inside it. */
  lemma {:induction false} ClosedHoldsPath(cells: set<Pos>, path: seq<Pos>, width: int, height: int, blocked: set<Pos>)
    requires ClosedUnder(cells, width, height, blocked)
    requires IsPath(path, width, height, blocked)
    requires |path| > 0 && path[0] in cells
    ensures forall i :: 0 <= i < |path| ==> path[i] in cells
    decreases |path|
  {
    if |path| > 1 {
      var init := path[..|path| - 1];
      assert IsPath(init, width, height, blocked);
      ClosedHoldsPath(cells, init, width, height, blocked);
      var a, b := path[|path| - 2], path[|path| - 1];
      assert a in cells && Open(b, width, height, blocked);
      assert Adjacent(a, b);
      if b == Step(a, N) {
      } else if b == Step(a, E) {
      } else if b == Step(a, S) {
      } else {
        assert b == Step(a, W);
      }
    }
  }

  /** With nothing blocked, a closed set holding the cell `a` holds the whole
      row of `a` up to column `x`. */
  lemma {:induction false} ClosedHoldsRow(cells: set<Pos>, a: Pos, x: int, width: int, height: int)
    requires ClosedUnder(cells, width, height, {})
    requires a in cells && InGrid(a, width, height) && 0 <= x < width
    ensures Pos(x, a.y) in cells
    decreases if x < a.x then a.x - x else x - a.x
  {
    if x < a.x {
      ClosedHoldsRow(cells, a, x + 1, width, height);
      assert Step(Pos(x + 1, a.y), W) == Pos(x, a.y);
    } else if x > a.x {
      ClosedHoldsRow(cells, a, x - 1, width, height);
      assert Step(Pos(x - 1, a.y), E) == Pos(x, a.y);
    }
  }

  /** With nothing blocked, a closed set holding the cell `a` holds the whole
      column of `a` up to row `y`. */
  lemma {:induction false} ClosedHoldsColumn(cells: set<Pos>, a: Pos, y: int, width: int, height: int)
    requires ClosedUnder(cells, width, height, {})
    requires a in cells && InGrid(a, width, height) && 0 <= y < height
    ensures Pos(a.x, y) in cells
    decreases if y < a.y then a.y - y else y - a.y
  {
    if y < a.y {
      ClosedHoldsColumn(cells, a, y + 1, width, height);
      assert Step(Pos(a.x, y + 1), N) == Pos(a.x, y);
    } else if y > a.y {
      ClosedHoldsColumn(cells, a, y - 1, width, height);
      assert Step(Pos(a.x, y - 1), S) == Pos(a.x, y);
    }
  }

  /** The grid with nothing blocked is connected: a closed set holding one
      cell of it is the whole grid. */
  lemma ClosedIsWholeGrid(cells: set<Pos>, a: Pos, width: nat, height: nat)
    requires ClosedUnder(cells, width, height, {})
    requires a in cells && InGrid(a, width, height)
    requires cells <= AllCells(width, height)
    ensures cells == AllCells(width, height)
  {
    forall q | InGrid(q, width, height) ensures q in cells {
      ClosedHoldsRow(cells, a, q.x, width, height);
      ClosedHoldsColumn(cells, Pos(q.x, a.y), q.y, width, height);
    }
  }
}
