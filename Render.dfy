/** `display_ascii` as a value: the lines it prints, one border line and
    then, per row, a line of cells with their east walls and a line of their
    south walls. Every cell takes four characters, so each line has
    `1 + 4 * width` of them. */
module Render {
  import opened Cells

  /** Every cell of the `width x height` grid has an entry in `g`. */
  ghost predicate Covers(g: map<Pos, Cell>, width: nat, height: nat)
  {
    forall x, y :: 0 <= x < width && 0 <= y < height ==> Pos(x, y) in g
  }

  /** Python's `s * count`. */
  function Repeat(s: string, count: nat): (r: string)
    ensures |r| == |s| * count
  {
    if count == 0 then "" else Repeat(s, count - 1) + s
  }

  /** The top border: `"+" + "---+" * width`. */
  function Border(width: nat): (b: string)
    ensures |b| == 1 + 4 * width && b[0] == '+'
  {
    "+" + Repeat("---+", width)
  }

  /** The four characters of a cell on its row's cells line: `###` when it
      is reserved or has all four walls (blanks otherwise), then `|` when it
      has its east wall (a blank otherwise). */
  function CellUnit(c: Cell, reserved: bool): (u: string)
    ensures |u| == 4
  {
    (if reserved || AllWalls(c) then "###" else "   ") + (if c.e then "|" else " ")
  }

  /** The four characters under a cell on its row's floor line. */
  function SouthEdge(c: Cell, reserved: bool): (u: string)
    ensures |u| == 4
  {
    (if reserved || c.s then "---" else "   ") + "+"
  }

  /** The cells line of row `y` as built up to column `n`: `"|"`, then per
      cell its fill and its east edge. */
  function CellsLine(g: map<Pos, Cell>, cells: set<Pos>, y: int, n: nat): (line: string)
    requires forall x :: 0 <= x < n ==> Pos(x, y) in g
    ensures |line| == 1 + 4 * n && line[0] == '|'
  {
    if n == 0 then "|"
    else
      var q := Pos(n - 1, y);
      CellsLine(g, cells, y, n - 1) + CellUnit(g[q], q in cells)
  }

  /** The floor line of row `y` as built up to column `n`: `"+"`, then per
      cell its south edge. */
  function FloorLine(g: map<Pos, Cell>, cells: set<Pos>, y: int, n: nat): (line: string)
    requires forall x :: 0 <= x < n ==> Pos(x, y) in g
    ensures |line| == 1 + 4 * n && line[0] == '+'
  {
    if n == 0 then "+"
    else
      var q := Pos(n - 1, y);
      FloorLine(g, cells, y, n - 1) + SouthEdge(g[q], q in cells)
  }

  /** The lines of the first `k` rows. */
  function Rows(g: map<Pos, Cell>, cells: set<Pos>, width: nat, k: nat): (r: seq<string>)
    requires Covers(g, width, k)
    ensures |r| == 2 * k
  {
    if k == 0 then []
    else Rows(g, cells, width, k - 1) + [CellsLine(g, cells, k - 1, width), FloorLine(g, cells, k - 1, width)]
  }

  /** Everything `display_ascii` prints, in order. */
  function Picture(g: map<Pos, Cell>, cells: set<Pos>, width: nat, height: nat): (p: seq<string>)
    requires Covers(g, width, height)
    ensures |p| == 1 + 2 * height && p[0] == Border(width)
  {
    [Border(width)] + Rows(g, cells, width, height)
  }

  /** The border is `+---+---+ ... +`: a `+` at every fourth character
      and `-` in between. */
  lemma {:induction false} BorderText(width: nat)
    ensures |Border(width)| == 1 + 4 * width
    ensures forall i :: 0 <= i < |Border(width)| ==> Border(width)[i] == if i % 4 == 0 then '+' else '-'
  {
    if width > 0 {
      BorderText(width - 1);
      var b, b' := Border(width - 1), Border(width);
      assert b' == b + "---+";
      forall i | 0 <= i < |b'| ensures b'[i] == if i % 4 == 0 then '+' else '-' {
        if i < |b| {
          assert b'[i] == b[i];
        }
      }
    }
  }

  /** Appending a four-character unit to a line of `k` columns leaves the
      earlier columns as they were and makes the unit column `k`. */
  lemma AppendUnit(before: string, unit: string, k: nat)
    requires |before| == 1 + 4 * k && |unit| == 4
    ensures (before + unit)[0] == before[0]
    ensures forall x :: 0 <= x < k ==> (before + unit)[1 + 4 * x..5 + 4 * x] == before[1 + 4 * x..5 + 4 * x]
    ensures (before + unit)[1 + 4 * k..5 + 4 * k] == unit
  {
    var line := before + unit;
    forall x | 0 <= x < k ensures line[1 + 4 * x..5 + 4 * x] == before[1 + 4 * x..5 + 4 * x] {
      assert line[..|before|] == before;
    }
    assert line[|before|..] == unit;
  }

  /** Column `x` of a cells line, characters `1 + 4x` to `4 + 4x`, is the
      unit of the cell at column `x`. */
  lemma {:induction false} CellsLineText(g: map<Pos, Cell>, cells: set<Pos>, y: int, n: nat)
    requires forall x :: 0 <= x < n ==> Pos(x, y) in g
    ensures forall x :: 0 <= x < n ==> CellsLine(g, cells, y, n)[1 + 4 * x..5 + 4 * x] == CellUnit(g[Pos(x, y)], Pos(x, y) in cells)
  {
    if n > 0 {
      CellsLineText(g, cells, y, n - 1);
      var q := Pos(n - 1, y);
      var before, line := CellsLine(g, cells, y, n - 1), CellsLine(g, cells, y, n);
      AppendUnit(before, CellUnit(g[q], q in cells), n - 1);
      forall x | 0 <= x < n ensures line[1 + 4 * x..5 + 4 * x] == CellUnit(g[Pos(x, y)], Pos(x, y) in cells) {
        if x < n - 1 {
          assert line[1 + 4 * x..5 + 4 * x] == before[1 + 4 * x..5 + 4 * x];
        }
      }
    }
  }

  /** Column `x` of a floor line, characters `1 + 4x` to `4 + 4x`, is the
      south edge of the cell at column `x`. */
  lemma {:induction false} FloorLineText(g: map<Pos, Cell>, cells: set<Pos>, y: int, n: nat)
    requires forall x :: 0 <= x < n ==> Pos(x, y) in g
    ensures forall x :: 0 <= x < n ==> FloorLine(g, cells, y, n)[1 + 4 * x..5 + 4 * x] == SouthEdge(g[Pos(x, y)], Pos(x, y) in cells)
  {
    if n > 0 {
      FloorLineText(g, cells, y, n - 1);
      var q := Pos(n - 1, y);
      var before, line := FloorLine(g, cells, y, n - 1), FloorLine(g, cells, y, n);
      AppendUnit(before, SouthEdge(g[q], q in cells), n - 1);
      forall x | 0 <= x < n ensures line[1 + 4 * x..5 + 4 * x] == SouthEdge(g[Pos(x, y)], Pos(x, y) in cells) {
        if x < n - 1 {
          assert line[1 + 4 * x..5 + 4 * x] == before[1 + 4 * x..5 + 4 * x];
        }
      }
    }
  }

  /** Row `y` of the first `k` gives two lines: its cells line at index
      `2y` and its floor line at `2y + 1`. */
  lemma {:induction false} RowsAt(g: map<Pos, Cell>, cells: set<Pos>, width: nat, k: nat, y: nat)
    requires Covers(g, width, k) && y < k
    ensures Rows(g, cells, width, k)[2 * y] == CellsLine(g, cells, y, width)
    ensures Rows(g, cells, width, k)[2 * y + 1] == FloorLine(g, cells, y, width)
  {
    if y < k - 1 {
      RowsAt(g, cells, width, k - 1, y);
      var before := Rows(g, cells, width, k - 1);
      assert Rows(g, cells, width, k) == before + [CellsLine(g, cells, k - 1, width), FloorLine(g, cells, k - 1, width)];
    }
  }

  /** The picture has `2 * height + 1` lines of `1 + 4 * width` characters.
      For the cell at column `x`, row `y`, line `2y + 1` shows `###` exactly
      when the cell is reserved or has all four walls and `|` after it
      exactly when it has its east wall; line `2y + 2` shows `---` under it
      exactly when it is reserved or has its south wall. So a reserved cell
      is always drawn filled and closed below. */
  lemma PictureText(g: map<Pos, Cell>, cells: set<Pos>, width: nat, height: nat)
    requires Covers(g, width, height)
    ensures |Picture(g, cells, width, height)| == 2 * height + 1
    ensures forall i :: 0 <= i < |Picture(g, cells, width, height)| ==> |Picture(g, cells, width, height)[i]| == 1 + 4 * width
    ensures Picture(g, cells, width, height)[0] == Border(width)
    ensures forall x, y :: 0 <= x < width && 0 <= y < height ==>
      var p := Picture(g, cells, width, height);
      && (p[2 * y + 1][1 + 4 * x..4 + 4 * x] == "###" <==> Pos(x, y) in cells || AllWalls(g[Pos(x, y)]))
      && (p[2 * y + 1][4 + 4 * x] == '|' <==> g[Pos(x, y)].e)
      && (p[2 * y + 2][1 + 4 * x..4 + 4 * x] == "---" <==> Pos(x, y) in cells || g[Pos(x, y)].s)
  {
    var p := Picture(g, cells, width, height);
    BorderText(width);
    forall i | 0 <= i < |p| ensures |p[i]| == 1 + 4 * width {
      if i > 0 {
        RowsAt(g, cells, width, height, (i - 1) / 2);
        CellsLineText(g, cells, (i - 1) / 2, width);
        FloorLineText(g, cells, (i - 1) / 2, width);
      }
    }
    forall x, y | 0 <= x < width && 0 <= y < height
      ensures p[2 * y + 1][1 + 4 * x..4 + 4 * x] == "###" <==> Pos(x, y) in cells || AllWalls(g[Pos(x, y)])
      ensures p[2 * y + 1][4 + 4 * x] == '|' <==> g[Pos(x, y)].e
      ensures p[2 * y + 2][1 + 4 * x..4 + 4 * x] == "---" <==> Pos(x, y) in cells || g[Pos(x, y)].s
    {
      RowsAt(g, cells, width, height, y);
      CellShown(g, cells, y, width, x);
    }
  }

  /** The cell at column `x` of row `y` on its two lines: `###` exactly when
      it is reserved or has all four walls, `|` after it exactly when it has
      its east wall, `---` under it exactly when it is reserved or has its
      south wall. */
  lemma CellShown(g: map<Pos, Cell>, cells: set<Pos>, y: int, width: nat, x: nat)
    requires forall x :: 0 <= x < width ==> Pos(x, y) in g
    requires x < width
    ensures |CellsLine(g, cells, y, width)| == |FloorLine(g, cells, y, width)| == 1 + 4 * width
    ensures CellsLine(g, cells, y, width)[1 + 4 * x..4 + 4 * x] == "###" <==> Pos(x, y) in cells || AllWalls(g[Pos(x, y)])
    ensures CellsLine(g, cells, y, width)[4 + 4 * x] == '|' <==> g[Pos(x, y)].e
    ensures FloorLine(g, cells, y, width)[1 + 4 * x..4 + 4 * x] == "---" <==> Pos(x, y) in cells || g[Pos(x, y)].s
  {
    CellsLineText(g, cells, y, width);
    FloorLineText(g, cells, y, width);
    var cellsLine, floorLine := CellsLine(g, cells, y, width), FloorLine(g, cells, y, width);
    var unit, edge := cellsLine[1 + 4 * x..5 + 4 * x], floorLine[1 + 4 * x..5 + 4 * x];
    assert cellsLine[1 + 4 * x..4 + 4 * x] == unit[..3] && cellsLine[4 + 4 * x] == unit[3];
    assert floorLine[1 + 4 * x..4 + 4 * x] == edge[..3];
    assert "   " != "###" && "   " != "---";
  }
}
