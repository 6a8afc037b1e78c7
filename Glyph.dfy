/** Where the "42" glyph lands and what reserving it does to the grid: the
    centred 13 x 5 bitmap of goodmaze.py and maze.py, the centred bitmap
    squeezed to the maze width of recursive_dfs.py and iterative_dfs.py,
    and the 16 offsets ma.py places at a caller's corner. */
module Glyph {
  import opened Cells
  import opened Carving

  /** How the bitmap is placed: centred and squeezed to widths below 13
      (`Scaled`), or centred as it is (`Centered`). */
  datatype Placement = Scaled | Centered

  /** `round(ox * scale_x)`: with `scale_x = width / 13` below width 13 this
      is `round(ox * width / 13)`, never a tie because 13 is odd, so it is
      `floor(ox * width / 13 + 1/2)`; from width 13 on `scale_x` is 1. */
  function ScaleX(ox: int, width: int): (r: int)
    ensures width >= GLYPH_WIDTH ==> r == ox
    ensures 0 <= ox && 0 < width < GLYPH_WIDTH ==> 26 * r - 13 < 2 * ox * width < 26 * r + 13
  {
    if width >= 13 then ox
    else
      var h := ox * width;
      var r := (2 * h + 13) / 26;
      assert 2 * ox * width == 2 * h;
      assert 26 * r <= 2 * h + 13 < 26 * r + 26;
      r
  }

  /** The top-left corner of the placed bitmap: `((width - pw) // 2,
      (height - ph) // 2)` with `pw` the (squeezed) bitmap width and
      `ph = 5`. Squeezing makes `pw = width`, so the corner column is 0. */
  function Base(pl: Placement, width: int, height: int): (b: Pos)
    ensures pl == Scaled && width < GLYPH_WIDTH ==> b.x == 0
    ensures pl == Centered || width >= GLYPH_WIDTH ==> 2 * b.x <= width - GLYPH_WIDTH <= 2 * b.x + 1
    ensures 2 * b.y <= height - GLYPH_HEIGHT <= 2 * b.y + 1
  {
    var pw := if pl == Scaled && width < GLYPH_WIDTH then width else GLYPH_WIDTH;
    Pos((width - pw) / 2, (height - GLYPH_HEIGHT) / 2)
  }

  /** The maze cell of bitmap column `ox`, row `oy`. */
  function Place(pl: Placement, ox: int, oy: int, width: int, height: int): (q: Pos)
    ensures q.y == Base(pl, width, height).y + oy
    ensures pl == Centered || width >= GLYPH_WIDTH ==> q.x == Base(pl, width, height).x + ox
    ensures pl == Scaled && width < GLYPH_WIDTH ==> q.x == ScaleX(ox, width)
  {
    var base := Base(pl, width, height);
    var mx := if pl == Scaled then ScaleX(ox, width) else ox;
    Pos(base.x + mx, base.y + oy)
  }

  /** The in-bounds cells of the 1-cells of bitmap `bits` at positions
      before `(ox, oy)` in the row-major order of the nested `for oy` /
      `for ox` loops. */
  ghost function PlacedBy(bits: seq<seq<int>>, pl: Placement, oy: nat, ox: nat, width: int, height: int): set<Pos>
    decreases oy, ox
  {
    if ox == 0 then
      if oy == 0 then {} else PlacedBy(bits, pl, oy - 1, GLYPH_WIDTH, width, height)
    else
      var q := Place(pl, ox - 1, oy, width, height);
      PlacedBy(bits, pl, oy, ox - 1, width, height) + if Bit(bits, ox - 1, oy) && InGrid(q, width, height) then {q} else {}
  }

  /** The same for the "42" bitmap; `Placed(pl, 5, 0, ...)` is all of it. */
  ghost function Placed(pl: Placement, oy: nat, ox: nat, width: int, height: int): set<Pos>
  {
    PlacedBy(GLYPH, pl, oy, ox, width, height)
  }

  /** One more bitmap position that is a 1-cell landing inside the maze
      adds its cell. */
  lemma PlacedAdd(bits: seq<seq<int>>, pl: Placement, oy: nat, ox: nat, width: int, height: int)
    requires ox < GLYPH_WIDTH && Bit(bits, ox, oy) && InGrid(Place(pl, ox, oy, width, height), width, height)
    ensures PlacedBy(bits, pl, oy, ox + 1, width, height) == PlacedBy(bits, pl, oy, ox, width, height) + {Place(pl, ox, oy, width, height)}
  {
  }

  /** Any other bitmap position adds nothing. */
  lemma PlacedSkip(bits: seq<seq<int>>, pl: Placement, oy: nat, ox: nat, width: int, height: int)
    requires ox < GLYPH_WIDTH && !(Bit(bits, ox, oy) && InGrid(Place(pl, ox, oy, width, height), width, height))
    ensures PlacedBy(bits, pl, oy, ox + 1, width, height) == PlacedBy(bits, pl, oy, ox, width, height)
  {
  }

  /** The start of a row is the end of the row before. */
  lemma PlacedRow(bits: seq<seq<int>>, pl: Placement, oy: nat, width: int, height: int)
    ensures PlacedBy(bits, pl, oy + 1, 0, width, height) == PlacedBy(bits, pl, oy, GLYPH_WIDTH, width, height)
  {
  }

  /** The image of every 1-cell of bitmap `bits`. */
  ghost function ImageBy(bits: seq<seq<int>>, pl: Placement, width: int, height: int): set<Pos>
  {
    set ox, oy | 0 <= ox < GLYPH_WIDTH && 0 <= oy < GLYPH_HEIGHT && Bit(bits, ox, oy) :: Place(pl, ox, oy, width, height)
  }

  /** The whole glyph as a set: the image of every 1-cell of the bitmap. */
  ghost function GlyphImage(pl: Placement, width: int, height: int): set<Pos>
  {
    ImageBy(GLYPH, pl, width, height)
  }

  /** The sizes a placement is made for: at least 7 x 5 when squeezed, at
      least 13 x 5 when centred as it is. */
  predicate Fits(pl: Placement, width: int, height: int)
  {
    height >= GLYPH_HEIGHT && width >= (if pl == Scaled then 7 else GLYPH_WIDTH)
  }

  /** The last column of the bitmap is empty. */
  lemma GlyphColumns(ox: int, oy: int)
    requires GlyphAt(ox, oy)
    ensures ox <= 11
  {
    assert GLYPH[oy][12] == 0;
  }

  /** Where the placement fits, every 1-cell lands inside the maze: the
      `in_bounds` filter of the squeezed placement never drops a cell. */
  lemma PlaceInGrid(pl: Placement, ox: int, oy: int, width: int, height: int)
    requires Fits(pl, width, height) && GlyphAt(ox, oy)
    ensures InGrid(Place(pl, ox, oy, width, height), width, height)
  {
    GlyphColumns(ox, oy);
    if pl == Scaled && width < GLYPH_WIDTH {
      assert 0 <= 2 * ox * width <= 22 * width;
      assert (2 * ox * width + 13) / 26 < width;
    }
  }

  /** A prefix one position longer holds the shorter one. */
  lemma PlacedGrows(bits: seq<seq<int>>, pl: Placement, oy: nat, ox: nat, width: int, height: int)
    requires ox < GLYPH_WIDTH
    ensures PlacedBy(bits, pl, oy, ox, width, height) <= PlacedBy(bits, pl, oy, ox + 1, width, height)
  {
    if Bit(bits, ox, oy) && InGrid(Place(pl, ox, oy, width, height), width, height) {
      PlacedAdd(bits, pl, oy, ox, width, height);
    } else {
      PlacedSkip(bits, pl, oy, ox, width, height);
    }
  }

  /** The image of a 1-cell is in the bitmap's image. */
  lemma InImage(bits: seq<seq<int>>, pl: Placement, ox: int, oy: int, width: int, height: int)
    requires Bit(bits, ox, oy)
    ensures Place(pl, ox, oy, width, height) in ImageBy(bits, pl, width, height)
  {
  }

  /** One more bitmap position keeps a prefix inside the image. */
  lemma WithinStep(bits: seq<seq<int>>, pl: Placement, oy: nat, ox: nat, width: int, height: int)
    requires ox < GLYPH_WIDTH && PlacedBy(bits, pl, oy, ox, width, height) <= ImageBy(bits, pl, width, height)
    ensures PlacedBy(bits, pl, oy, ox + 1, width, height) <= ImageBy(bits, pl, width, height)
  {
    if Bit(bits, ox, oy) && InGrid(Place(pl, ox, oy, width, height), width, height) {
      PlacedAdd(bits, pl, oy, ox, width, height);
      InImage(bits, pl, ox, oy, width, height);
    } else {
      PlacedSkip(bits, pl, oy, ox, width, height);
    }
  }

  /** Every cell of a prefix is the image of a 1-cell of the bitmap. */
  lemma {:induction false} PlacedWithinImage(bits: seq<seq<int>>, pl: Placement, oy: nat, ox: nat, width: int, height: int)
    requires ox <= GLYPH_WIDTH
    ensures PlacedBy(bits, pl, oy, ox, width, height) <= ImageBy(bits, pl, width, height)
    decreases oy, ox
  {
    if ox == 0 {
      if oy > 0 {
        PlacedWithinImage(bits, pl, oy - 1, GLYPH_WIDTH, width, height);
        PlacedRow(bits, pl, oy - 1, width, height);
      }
    } else {
      PlacedWithinImage(bits, pl, oy, ox - 1, width, height);
      WithinStep(bits, pl, oy, ox - 1, width, height);
    }
  }

  /** A cell of a prefix stays in the prefix one position longer. */
  lemma HasStep(bits: seq<seq<int>>, pl: Placement, oy: nat, ox: nat, width: int, height: int, q: Pos)
    requires ox < GLYPH_WIDTH && q in PlacedBy(bits, pl, oy, ox, width, height)
    ensures q in PlacedBy(bits, pl, oy, ox + 1, width, height)
  {
    PlacedGrows(bits, pl, oy, ox, width, height);
  }

  /** A prefix holds the image of every 1-cell at an earlier position that
      lands inside the maze. */
  lemma {:induction false} PlacedHas(bits: seq<seq<int>>, pl: Placement, oy: nat, ox: nat, width: int, height: int, ox': int, oy': int)
    requires ox <= GLYPH_WIDTH && Bit(bits, ox', oy') && (oy' < oy || (oy' == oy && ox' < ox))
    requires InGrid(Place(pl, ox', oy', width, height), width, height)
    ensures Place(pl, ox', oy', width, height) in PlacedBy(bits, pl, oy, ox, width, height)
    decreases oy, ox
  {
    var q := Place(pl, ox', oy', width, height);
    if ox == 0 {
      PlacedHas(bits, pl, oy - 1, GLYPH_WIDTH, width, height, ox', oy');
      PlacedRow(bits, pl, oy - 1, width, height);
    } else if ox' == ox - 1 && oy' == oy {
      PlacedAdd(bits, pl, oy, ox - 1, width, height);
    } else {
      PlacedHas(bits, pl, oy, ox - 1, width, height, ox', oy');
      HasStep(bits, pl, oy, ox - 1, width, height, q);
    }
  }

  /** Where the placement fits, the cells the nested loops reserve are
      exactly the image of the bitmap's 1-cells. */
  lemma PlacedIsImage(pl: Placement, width: int, height: int)
    requires Fits(pl, width, height)
    ensures Placed(pl, GLYPH_HEIGHT, 0, width, height) == GlyphImage(pl, width, height)
  {
    forall ox, oy | Bit(GLYPH, ox, oy) ensures InGrid(Place(pl, ox, oy, width, height), width, height) {
      PlaceInGrid(pl, ox, oy, width, height);
    }
    PlacedCovers(GLYPH, pl, width, height);
  }

  /** When every 1-cell of `bits` lands inside the maze, the nested loops
      reserve exactly the image of the bitmap. */
  lemma PlacedCovers(bits: seq<seq<int>>, pl: Placement, width: int, height: int)
    requires forall ox, oy :: Bit(bits, ox, oy) ==> InGrid(Place(pl, ox, oy, width, height), width, height)
    ensures PlacedBy(bits, pl, GLYPH_HEIGHT, 0, width, height) == ImageBy(bits, pl, width, height)
  {
    PlacedWithinImage(bits, pl, GLYPH_HEIGHT, 0, width, height);
    forall ox, oy | 0 <= ox < GLYPH_WIDTH && 0 <= oy < GLYPH_HEIGHT && Bit(bits, ox, oy)
      ensures Place(pl, ox, oy, width, height) in PlacedBy(bits, pl, GLYPH_HEIGHT, 0, width, height)
    {
      PlacedHas(bits, pl, GLYPH_HEIGHT, 0, width, height, ox, oy);
    }
  }

  /** From width 13 on the squeezed placement is the centred one: the set is
      the bitmap's 1-cells shifted by `((width - 13) // 2, (height - 5) // 2)`. */
  lemma WideScaledIsCentered(width: int, height: int)
    requires width >= GLYPH_WIDTH
    ensures GlyphImage(Scaled, width, height) == GlyphImage(Centered, width, height)
    ensures forall ox, oy :: Place(Scaled, ox, oy, width, height) == Pos((width - 13) / 2 + ox, (height - 5) / 2 + oy)
  {
    assert forall ox, oy :: Place(Scaled, ox, oy, width, height) == Place(Centered, ox, oy, width, height);
  }

  /** The grid with every cell of `cells` set to a reserved cell (visited,
      all four walls) and every other cell as it was. */
  ghost function MarkAll(g: map<Pos, Cell>, cells: set<Pos>): (g': map<Pos, Cell>)
    ensures g'.Keys == g.Keys
    ensures forall q :: q in g && q in cells ==> g'[q].visited && AllWalls(g'[q])
    ensures forall q :: q in g && q !in cells ==> g'[q] == g[q]
  {
    map q | q in g :: if q in cells then RESERVED else g[q]
  }

  /** Marking no cell changes nothing. */
  lemma MarkNone(g: map<Pos, Cell>)
    ensures MarkAll(g, {}) == g
  {
  }

  /** Marking one more cell is one more cell update. */
  lemma MarkOneMore(g: map<Pos, Cell>, cells: set<Pos>, q: Pos)
    requires q in g
    ensures MarkAll(g, cells + {q}) == MarkAll(g, cells)[q := RESERVED]
  {
  }

  /** The cell at `q` with each wall set whose neighbour across it is in
      `cells`: what maze.py's symmetry fix leaves on a cell next to the
      glyph. */
  function Fenced(c: Cell, q: Pos, cells: set<Pos>): (r: Cell)
    ensures r.visited == c.visited
    ensures forall d :: Wall(r, d) == (Wall(c, d) || Step(q, d) in cells)
  {
    Cell(c.visited, c.n || Step(q, N) in cells, c.e || Step(q, E) in cells,
         c.s || Step(q, S) in cells, c.w || Step(q, W) in cells)
  }

  /** maze.py's `insert_42` on a grid value: the glyph cells reserved, and
      every wall facing a glyph cell set on the neighbour's side too. */
  ghost function Guarded(g: map<Pos, Cell>, cells: set<Pos>): (g': map<Pos, Cell>)
    ensures g'.Keys == g.Keys
    ensures forall q :: q in g && q in cells ==> g'[q].visited && AllWalls(g'[q])
    ensures forall q, d :: q in g && q !in cells ==> g'[q].visited == g[q].visited && (Wall(g'[q], d) <==> Wall(g[q], d) || Step(q, d) in cells)
  {
    map q | q in g :: if q in cells then RESERVED else Fenced(g[q], q, cells)
  }

  /** Guarding no cell changes nothing. */
  lemma GuardNone(g: map<Pos, Cell>)
    ensures Guarded(g, {}) == g
  {
    forall q | q in g ensures Fenced(g[q], q, {}) == g[q] {
      SameCell(Fenced(g[q], q, {}), g[q]);
    }
  }

  /** Setting wall `d` of the cell at `q`, if `q` is in the grid. */
  function Shut(g: map<Pos, Cell>, q: Pos, d: Direction): (g': map<Pos, Cell>)
    ensures g'.Keys == g.Keys
    ensures q in g ==> Wall(g'[q], d) && g'[q].visited == g[q].visited
    ensures q in g ==> forall e :: e != d ==> Wall(g'[q], e) == Wall(g[q], e)
    ensures forall r :: r in g && r != q ==> g'[r] == g[r]
  {
    if q in g then g[q := WithWall(g[q], d)] else g
  }

  /** One glyph cell of maze.py's `insert_42`: the cell is reserved, then
      the south wall of the cell above, the north wall of the cell below,
      the east wall of the cell to the left and the west wall of the cell
      to the right are set, each when that cell exists. */
  function GuardOne(g: map<Pos, Cell>, p: Pos): (g': map<Pos, Cell>)
    requires p in g
    ensures g'.Keys == g.Keys
  {
    var g1 := g[p := RESERVED];
    var g2 := Shut(g1, Step(p, N), S);
    var g3 := Shut(g2, Step(p, S), N);
    var g4 := Shut(g3, Step(p, W), E);
    Shut(g4, Step(p, E), W)
  }

  /** A cell is determined by its visited flag and its four walls. */
  lemma SameCell(a: Cell, b: Cell)
    requires a.visited == b.visited && forall d :: Wall(a, d) == Wall(b, d)
    ensures a == b
  {
    assert Wall(a, N) == Wall(b, N) && Wall(a, E) == Wall(b, E);
    assert Wall(a, S) == Wall(b, S) && Wall(a, W) == Wall(b, W);
  }

  /** After `GuardOne` at `p`, `p` is reserved: no neighbour is `p` itself. */
  lemma GuardOneSelf(g: map<Pos, Cell>, p: Pos)
    requires p in g
    ensures GuardOne(g, p)[p] == RESERVED
  {
    assert Step(p, N) != p && Step(p, S) != p && Step(p, W) != p && Step(p, E) != p;
  }

  /** `Shut` changes the cell at `q` and no other. */
  lemma ShutAt(g: map<Pos, Cell>, q: Pos, d: Direction, r: Pos)
    requires r in g
    ensures Shut(g, q, d)[r] == if r == q then WithWall(g[r], d) else g[r]
  {
  }

  /** After `GuardOne` at `p`, every other cell has the walls facing `p`
      set and is otherwise as it was. */
  lemma GuardOneOther(g: map<Pos, Cell>, p: Pos, q: Pos)
    requires p in g && q in g && q != p
    ensures GuardOne(g, p)[q] == Fenced(g[q], q, {p})
  {
    var g1 := g[p := RESERVED];
    var g2 := Shut(g1, Step(p, N), S);
    var g3 := Shut(g2, Step(p, S), N);
    var g4 := Shut(g3, Step(p, W), E);
    ShutAt(g1, Step(p, N), S, q);
    ShutAt(g2, Step(p, S), N, q);
    ShutAt(g3, Step(p, W), E, q);
    ShutAt(g4, Step(p, E), W, q);
    var c := g[q];
    assert g1[q] == c;
    StepBack(p, N);
    StepBack(p, S);
    StepBack(p, W);
    StepBack(p, E);
    SameCell(GuardOne(g, p)[q], Fenced(c, q, {p}));
  }

  /** Guarding one more cell is one more `GuardOne`. */
  lemma GuardOneMore(g: map<Pos, Cell>, cells: set<Pos>, p: Pos)
    requires p in g
    ensures Guarded(g, cells + {p}) == GuardOne(Guarded(g, cells), p)
  {
    var a, b := Guarded(g, cells + {p}), GuardOne(Guarded(g, cells), p);
    forall q | q in g ensures a[q] == b[q] {
      if q == p {
        GuardOneSelf(Guarded(g, cells), p);
      } else {
        GuardOneOther(Guarded(g, cells), p, q);
      }
      if q != p && q in cells {
        SameCell(b[q], RESERVED);
      } else if q != p {
        SameCell(a[q], b[q]);
      }
    }
  }

  /** Reserving cells with maze.py's fix keeps wall symmetry, and leaves
      every glyph cell visited with all four walls. */
  lemma GuardedSymmetric(g: map<Pos, Cell>, cells: set<Pos>)
    requires SymmetricGrid(g)
    ensures SymmetricGrid(Guarded(g, cells))
    ensures forall q :: q in g && q in cells ==> Guarded(g, cells)[q] == RESERVED
  {
    var g' := Guarded(g, cells);
    forall q, d | q in g' && Step(q, d) in g'
      ensures Wall(g'[q], d) == Wall(g'[Step(q, d)], Opposite(d))
    {
      StepBack(q, d);
    }
  }

  /** Marking cells without the fix (the other variants) keeps wall symmetry
      when every marked cell already had all four walls and symmetry held. */
  lemma MarkAllSymmetric(g: map<Pos, Cell>, cells: set<Pos>)
    requires SymmetricGrid(g)
    requires forall q :: q in cells && q in g ==> AllWalls(g[q])
    ensures SymmetricGrid(MarkAll(g, cells))
  {
    var g' := MarkAll(g, cells);
    forall q, d | q in g' && Step(q, d) in g'
      ensures Wall(g'[q], d) == Wall(g'[Step(q, d)], Opposite(d))
    {
      assert Wall(g[q], d) == Wall(g[Step(q, d)], Opposite(d));
    }
  }

  /** The cell of offset `i` of ma.py's `PATTERN_42` placed at corner
      `(tx, ty)`. */
  function OffsetCell(tx: int, ty: int, i: nat): Pos
    requires i < |PATTERN_42|
  {
    Pos(tx + PATTERN_42[i].0, ty + PATTERN_42[i].1)
  }

  /** The cells of offsets `[..i]` placed at corner `(tx, ty)`. */
  function Corner(tx: int, ty: int, i: nat): set<Pos>
    requires i <= |PATTERN_42|
  {
    if i == 0 then {} else Corner(tx, ty, i - 1) + {OffsetCell(tx, ty, i - 1)}
  }

  /** `Corner` holds the cells of exactly the offsets before `i`. */
  lemma {:induction false} CornerCells(tx: int, ty: int, i: nat)
    requires i <= |PATTERN_42|
    ensures forall q :: q in Corner(tx, ty, i) <==> exists j :: 0 <= j < i && q == OffsetCell(tx, ty, j)
  {
    if i > 0 {
      CornerCells(tx, ty, i - 1);
      assert Corner(tx, ty, i) == Corner(tx, ty, i - 1) + {OffsetCell(tx, ty, i - 1)};
      forall q | q in Corner(tx, ty, i) ensures exists j :: 0 <= j < i && q == OffsetCell(tx, ty, j) {
        if q == OffsetCell(tx, ty, i - 1) {
          assert 0 <= i - 1 < i;
        } else {
          var j :| 0 <= j < i - 1 && q == OffsetCell(tx, ty, j);
          assert 0 <= j < i;
        }
      }
    }
  }

  /** Marking the cell of one more offset is one more cell update. */
  lemma CornerMark(g: map<Pos, Cell>, tx: int, ty: int, i: nat)
    requires i < |PATTERN_42| && OffsetCell(tx, ty, i) in g
    ensures MarkAll(g, Corner(tx, ty, i + 1)) == MarkAll(g, Corner(tx, ty, i))[OffsetCell(tx, ty, i) := RESERVED]
  {
    MarkOneMore(g, Corner(tx, ty, i), OffsetCell(tx, ty, i));
  }

  /** The offsets before `i` all land inside the maze. */
  predicate InsideUpTo(tx: int, ty: int, width: int, height: int, i: nat)
    requires i <= |PATTERN_42|
  {
    i == 0 || (InsideUpTo(tx, ty, width, height, i - 1) && InGrid(OffsetCell(tx, ty, i - 1), width, height))
  }

  /** The index of the first offset that falls outside the maze when the
      shape is placed at `(tx, ty)`, searching from `i`; 16 when none does. */
  function FirstOutside(tx: int, ty: int, width: int, height: int, i: nat): (k: nat)
    requires i <= |PATTERN_42|
    ensures i <= k <= |PATTERN_42|
    decreases |PATTERN_42| - i
  {
    if i == |PATTERN_42| then i
    else if !InGrid(OffsetCell(tx, ty, i), width, height) then i
    else FirstOutside(tx, ty, width, height, i + 1)
  }

  /** `FirstOutside` is what its name says: every offset from `i` up to it
      lands inside the maze, and the one it names (if any) does not. */
  lemma {:induction false} FirstOutsideIsFirst(tx: int, ty: int, width: int, height: int, i: nat)
    requires i <= |PATTERN_42|
    ensures forall j :: i <= j < FirstOutside(tx, ty, width, height, i) ==> InGrid(OffsetCell(tx, ty, j), width, height)
    ensures FirstOutside(tx, ty, width, height, i) < |PATTERN_42| ==>
      !InGrid(OffsetCell(tx, ty, FirstOutside(tx, ty, width, height, i)), width, height)
    decreases |PATTERN_42| - i
  {
    if i < |PATTERN_42| && InGrid(OffsetCell(tx, ty, i), width, height) {
      FirstOutsideIsFirst(tx, ty, width, height, i + 1);
      var k := FirstOutside(tx, ty, width, height, i + 1);
      assert FirstOutside(tx, ty, width, height, i) == k;
      forall j | i <= j < k ensures InGrid(OffsetCell(tx, ty, j), width, height) {
        if j > i {
          assert i + 1 <= j < k;
        }
      }
    }
  }

  /** Conversely, an index below which every offset lands inside the maze and
      at which the search stops (the end, or an offset outside) is the first
      offset outside. */
  lemma {:induction false} FirstOutsideAt(tx: int, ty: int, width: int, height: int, k: nat)
    requires k <= |PATTERN_42| && InsideUpTo(tx, ty, width, height, k)
    requires k < |PATTERN_42| ==> !InGrid(OffsetCell(tx, ty, k), width, height)
    ensures FirstOutside(tx, ty, width, height, 0) == k
  {
    InsideFrom(tx, ty, width, height, k, k);
  }

  /** `FirstOutsideAt`, searching from any `i <= k`. */
  lemma {:induction false} InsideFrom(tx: int, ty: int, width: int, height: int, k: nat, i: nat)
    requires i <= k <= |PATTERN_42| && InsideUpTo(tx, ty, width, height, i)
    requires forall j :: i <= j < k ==> InGrid(OffsetCell(tx, ty, j), width, height)
    requires k < |PATTERN_42| ==> !InGrid(OffsetCell(tx, ty, k), width, height)
    ensures FirstOutside(tx, ty, width, height, 0) == k
    decreases i
  {
    if i == 0 {
      FirstFrom(tx, ty, width, height, k, 0);
    } else {
      InsideFrom(tx, ty, width, height, k, i - 1);
    }
  }

  /** The search from `i` ends at `k` when every offset in `i..k` lands inside
      and the search stops at `k`. */
  lemma {:induction false} FirstFrom(tx: int, ty: int, width: int, height: int, k: nat, i: nat)
    requires i <= k <= |PATTERN_42|
    requires forall j :: i <= j < k ==> InGrid(OffsetCell(tx, ty, j), width, height)
    requires k < |PATTERN_42| ==> !InGrid(OffsetCell(tx, ty, k), width, height)
    ensures FirstOutside(tx, ty, width, height, i) == k
    decreases k - i
  {
    if i < k {
      FirstFrom(tx, ty, width, height, k, i + 1);
    }
  }

  /** Every offset lies in `0..4 x 0..4`. */
  lemma PatternBounds()
    ensures forall j :: 0 <= j < |PATTERN_42| ==> 0 <= PATTERN_42[j].0 <= 4 && 0 <= PATTERN_42[j].1 <= 4
  {
  }

  /** The shape fits at `(tx, ty)` exactly when the corner is inside the
      `(width - 4) x (height - 4)` top-left part of the maze: every offset
      lies in `0..4 x 0..4`, and `(0, 0)` and `(4, 4)` are offsets. */
  lemma CornerFits(tx: int, ty: int, width: int, height: int)
    ensures FirstOutside(tx, ty, width, height, 0) == |PATTERN_42|
        <==> 0 <= tx <= width - 5 && 0 <= ty <= height - 5
  {
    var k := FirstOutside(tx, ty, width, height, 0);
    FirstOutsideIsFirst(tx, ty, width, height, 0);
    if 0 <= tx <= width - 5 && 0 <= ty <= height - 5 {
      PatternBounds();
      assert forall j :: 0 <= j < |PATTERN_42| ==> InGrid(OffsetCell(tx, ty, j), width, height);
    } else {
      assert PATTERN_42[0] == (0, 0) && PATTERN_42[15] == (4, 4);
      assert !InGrid(OffsetCell(tx, ty, 0), width, height) || !InGrid(OffsetCell(tx, ty, 15), width, height);
    }
  }
}
