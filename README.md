# Maze generators with a "42" glyph

This project models five Python maze generators. Each builds a `width x height`
grid of cells. A cell has a `visited` flag and four walls (N, E, S, W), all
present on a new cell. The generator carves a perfect maze into the grid by
depth-first search, removing the wall between a cell and its neighbour on both
sides. Four of the variants also reserve the cells of a "42" glyph.

- `recursive_dfs.py` reserves the glyph squeezed to the width. From 7 x 5 on it
  marks the reserved cells visited with all four walls. It carves with a
  recursive `_walk` that skips reserved cells.
- `iterative_dfs.py` reserves the same cells without marking them. It carves
  with an explicit stack and picks a random free neighbour.
- `goodmaze.py` reserves and marks the glyph, centred at its full 13 x 5 size,
  and carves with the recursive walk.
- `maze.py` carves with the recursive walk and reserves nothing. Its
  `insert_42` later stamps the centred glyph over the maze. It also sets every
  neighbour's facing wall, so adjacent cells keep agreeing on their walls.
- `ma.py` carves with the recursive walk. Its `insert_42` stamps a 5 x 5 shape
  of 16 cells at a corner the caller gives. Its `to_hex_grid` encodes each cell
  as one hexadecimal digit of its walls.

Every variant has a `display_ascii`, which prints the maze with `+`, `-`, `|`
and `###` for closed cells.

The model has one generator class, `Generator.MazeGenerator`, for all variants.
It holds the grid as a sequence of rows that its methods update in place, and
the set of reserved cells. The other modules are pure specifications of what
the methods compute:

- `Cells`: directions, cells and the glyph bitmaps.
- `Carving`: `_remove_wall` on a grid value.
- `Walks`: the recursive walk as a function.
- `Stacks`: the stack loop as a function.
- `Trees` and `Spanning`: the carve log as a tree, and what a finished
  generation guarantees.
- `Paths`: grid connectivity.
- `Glyph`: glyph placement and stamping.
- `Render`: the printed picture.
- `Hex`: the hexadecimal encoding.
- `Variants`: the five constructors, and what a whole run of each guarantees.

Each method is proved equal to its specification function. The properties are
proved as lemmas about those functions:

- The carves form a spanning tree of the cells joined to the start.
- Reserved cells are never touched.
- Wall symmetry survives carving and stamping.
- On an unreserved grid every cell ends visited, with `width * height - 1`
  walls removed.
- The picture has the promised shape and content.
- Every hexadecimal digit decodes back to the cell's walls.

Randomness becomes parameters:

- The shuffle of each `_walk` call is a function `order` from the cell to a
  permutation of the four directions. Every call walks from a different cell,
  so this is fully general.
- The `k`-th `randrange(n)` of the stack loop is `draw(k, n)`, which must be
  below `n`.
- The start cell is a parameter in bounds and outside the reserved cells.

## Model

| member | source | states |
|---|---|---|
| Cells.Step | recursive_dfs.py:76-81 | N moves to a smaller row, S to a larger one, E to a larger column and W to a smaller one; the neighbour differs from the cell by one in exactly one coordinate |
| Cells.StepBack | recursive_dfs.py:76-81 | stepping in a direction and then in its opposite returns to the cell; the opposite of the opposite is the direction |
| Cells.Opposite | recursive_dfs.py:97 | no direction is its own opposite |
| Cells.WithoutWall | recursive_dfs.py:98 | the cell has wall `d` cleared, keeps its other three walls and keeps its visited flag |
| Cells.WithWall | maze.py:106-113 | the cell has wall `d` set, keeps its other three walls and keeps its visited flag |
| Carving.OpenWall | recursive_dfs.py:96-99 | on a grid value: the wall `d` of `p` and the opposite wall of its neighbour are cleared; no other wall and no visited flag changes |
| Carving.OpenKeepsUnvisited | recursive_dfs.py:96-99 | removing a wall visits no cell |
| Carving.MarkVisited | recursive_dfs.py:73-74 | marking the current cell visited is a carving step that reaches exactly that cell and removes one cell from the unvisited ones |
| Carving.CarvedEdge | recursive_dfs.py:92 | removing a wall on a carved grid adds both sides of that wall to the cleared sides |
| Carving.CarvedSymmetric | recursive_dfs.py:96-99 | clearing walls in mirrored pairs keeps adjacent cells agreeing on the wall between them |
| Carving.CarvedVisited | recursive_dfs.py:72-93 | carving only adds visited cells: the unvisited cells are the old ones minus the reached ones |
| Carving.WalkStepGrid | recursive_dfs.py:92-93 | one carve followed by the walk from the neighbour leaves the grid carved by both, and keeps every settled neighbour settled |
| Carving.WalkStepTree | recursive_dfs.py:92-93 | grafting the carve into the neighbour, and the walk from that neighbour, onto the tree grown so far keeps it a tree of free cells |
| Trees.AttachOne | recursive_dfs.py:92-93 | a carve from a reached cell into an unreached one extends the tree by exactly that cell and that wall's two sides |
| Trees.GraftTree | recursive_dfs.py:92-93 | a subtree walked from a fresh neighbour, grafted by the carve into it, gives a tree from the root |
| Trees.TreeSize | recursive_dfs.py:84-93 | a tree has exactly one new cell per carve, so it reaches one more cell than it carves |
| Trees.OpenedWithinReach | recursive_dfs.py:92 | every cleared wall side belongs to a reached cell |
| Trees.OpenedSymmetric | recursive_dfs.py:96-99 | each cleared wall side comes with the matching side of the neighbour |
| Trees.Mirror | recursive_dfs.py:97 | the mirrored side is the opposite wall of the neighbour across the wall |
| Trees.TargetsConcat | recursive_dfs.py:84-93 | the cells two logs carve into are those each log carves into |
| Trees.OpenedConcat | recursive_dfs.py:84-93 | the wall sides two logs clear are those each log clears |
| Trees.AttachedConcat | recursive_dfs.py:84-93 | a log that continues a tree from everything the tree reached extends the tree |
| Paths.AllCells | recursive_dfs.py:19-21 | the grid's coordinates are exactly the in-bounds ones |
| Paths.AllCellsSize | recursive_dfs.py:19-21 | the grid has `width * height` cells |
| Paths.ClosedHoldsPath | recursive_dfs.py:84-93 | a set closed under open neighbours that holds a path's first cell holds the whole path |
| Paths.ClosedIsWholeGrid | recursive_dfs.py:101-102 | with nothing reserved the grid is connected: a closed set holding one cell is the whole grid |
| Spanning.GrownTree | recursive_dfs.py:62-93 | the carves of a finished generation form a tree inside the grid: one cell more is reached than carved |
| Spanning.GrownVisits | recursive_dfs.py:72-74 | every reached cell ends visited |
| Spanning.GrownKeepsReserved | recursive_dfs.py:87-88 | every reserved cell other than the start is left exactly as it was |
| Spanning.GrownSymmetric | recursive_dfs.py:96-99 | if adjacent cells agreed on their walls before generation, they still agree after it |
| Spanning.GrownClosed | recursive_dfs.py:84-93 | no free neighbour of a reached cell is left behind |
| Spanning.GrownReachesComponent | recursive_dfs.py:84-93 | every cell joined to the start by a path of unreserved, unvisited cells is reached |
| Spanning.GrownFillsGrid | maze.py:31-55 | on a grid with nothing reserved or visited, every cell is reached and visited, and `width * height - 1` walls are removed |
| Walks.WalkRun | recursive_dfs.py:72-93 | the recursive walk as a function: same cells, and strictly fewer unvisited cells, the current one included |
| Walks.LoopRun | recursive_dfs.py:84-93 | the loop of the walk: same cells, never more unvisited ones |
| Walks.LoopRunSkip | recursive_dfs.py:85-90 | a direction whose neighbour is out of bounds, reserved or visited is skipped |
| Walks.LoopRunOpen | recursive_dfs.py:92-93 | a free neighbour gets its wall removed and the walk recurses into it before the next direction |
| Walks.WalkStep | recursive_dfs.py:92-93 | one carve-and-walk pass keeps the loop invariant, with the pass counted |
| Walks.WalkRunSound | recursive_dfs.py:72-93 | for every shuffle the walk's carves grow a tree of cells that were free, and leave the grid carved by them with every open neighbour of a reached cell visited |
| Walks.LoopRunSound | recursive_dfs.py:84-93 | the loop keeps its invariant to the last direction |
| Walks.LoopRunCarve | recursive_dfs.py:92-93 | the invariant after a pass that carves |
| Walks.SettledAround | recursive_dfs.py:82-90 | after all four directions of a shuffle, every open neighbour of the cell is visited |
| Stacks.Candidates | iterative_dfs.py:72-76 | a direction is listed exactly when its neighbour is in bounds, not reserved and not visited; there are at most four |
| Stacks.Mark | iterative_dfs.py:67-69 | marking the top of the stack keeps the grid's cells |
| Stacks.MarkTop | iterative_dfs.py:67-69 | marking sets the visited flag of the top of the stack and of no other cell, and changes no wall |
| Stacks.MarkPush | iterative_dfs.py:81 | after a push, marking the top marks the pushed cell |
| Stacks.IterStep | iterative_dfs.py:66-84 | one pass keeps every stack entry in the grid and every entry below the top visited |
| Stacks.IterRun | iterative_dfs.py:66-84 | the loop ends with an empty stack on the same cells |
| Stacks.IterStepShrinks | iterative_dfs.py:78-84 | each pass either has fewer unvisited cells off the stack, or the same ones and a shorter stack, so the loop ends |
| Stacks.PushShrinks | iterative_dfs.py:78-81 | a push puts an unvisited cell on the stack |
| Stacks.IterInvInit | iterative_dfs.py:64 | the invariant holds with the start alone on the stack, a path of one cell |
| Stacks.IterPopSound | iterative_dfs.py:82-84 | a pop keeps the invariant: the popped cell has no free neighbour left, and the rest of the stack is still a path from the start |
| Stacks.PopStep | iterative_dfs.py:70-84 | when the top has no free neighbour the pass pops it, leaving the marked grid and the log, and every neighbour of the popped cell is settled |
| Stacks.PopInv | iterative_dfs.py:82-84 | the invariant holds for the state a pop leaves |
| Stacks.PopPath | iterative_dfs.py:82-84 | dropping the top keeps the stack a path from the start |
| Stacks.IterPushSound | iterative_dfs.py:78-81 | a push keeps the invariant: the carve goes from the top into a free cell, which extends the stack's path |
| Stacks.PushInv | iterative_dfs.py:78-81 | the invariant holds for the state a push into a free neighbour leaves |
| Stacks.PushPath | iterative_dfs.py:78-81 | pushing the unreserved neighbour across `d`, with that carve logged, keeps the stack a path from the start: bottom entry the start, every entry above it unreserved, and each two neighbouring entries adjacent with both sides of the wall between them cleared |
| Stacks.LinkedGrows | iterative_dfs.py:78-81 | two stack entries joined through a cleared wall stay joined as more walls are cleared |
| Stacks.IterStepSound | iterative_dfs.py:66-84 | every pass keeps the invariant |
| Stacks.IterRunSound | iterative_dfs.py:66-84 | the loop keeps the invariant to its end |
| Stacks.IterRunGrown | iterative_dfs.py:56-84 | for every sequence of draws the stack loop gives the same guarantee as the recursive walk |
| Glyph.ScaleX | recursive_dfs.py:38-52 | from width 13 on the column is `ox` unchanged; below it `2 * ox * width` lies strictly within 13 of `26 * r`, so `r` is `ox * width / 13` rounded to the nearest integer |
| Glyph.Base | recursive_dfs.py:41-45 | squeezed below width 13 the bitmap starts in column 0; otherwise its left margin is the floor half of `width - 13`; its top margin is the floor half of `height - 5` |
| Glyph.Place | recursive_dfs.py:50-53 | the cell lies `oy` rows below the base row; centred, or from width 13 on, `ox` columns right of the base column; squeezed below width 13 in column `ScaleX(ox, width)` |
| Glyph.PlacedAdd | recursive_dfs.py:51-55 | a 1-cell of the bitmap whose place is in bounds adds that place to the reserved set |
| Glyph.PlacedSkip | recursive_dfs.py:51-54 | a 0-cell, or a 1-cell that lands out of bounds, adds nothing |
| Glyph.PlaceInGrid | recursive_dfs.py:36-55 | where the placement fits, every 1-cell lands inside the maze, so the bounds filter drops nothing |
| Glyph.PlacedIsImage | recursive_dfs.py:47-55 | where the placement fits, the reserved cells are exactly the images of the bitmap's 1-cells |
| Glyph.PlacedCovers | goodmaze.py:37-46 | when every 1-cell lands in bounds, the nested loops collect exactly the bitmap's image |
| Glyph.WideScaledIsCentered | recursive_dfs.py:37-45 | from width 13 on, the squeezed placement is the centred one, shifted by `((width - 13) // 2, (height - 5) // 2)` |
| Glyph.MarkAll | recursive_dfs.py:47-58 | every cell of the set is visited with all four walls; every other cell is unchanged; the grid keeps its cells |
| Glyph.MarkNone | recursive_dfs.py:48 | marking no cell changes nothing |
| Glyph.MarkOneMore | recursive_dfs.py:55-58 | marking one more cell is one more cell update |
| Glyph.MarkAllSymmetric | recursive_dfs.py:56-58 | marking cells that already have all four walls keeps wall symmetry |
| Glyph.Fenced | maze.py:106-113 | the neighbour keeps its visited flag and gains exactly the walls facing glyph cells |
| Glyph.Guarded | maze.py:90-113 | every glyph cell is visited with all four walls; every other cell keeps its flag and gains exactly the walls that face a glyph cell |
| Glyph.Shut | maze.py:106-113 | the cell at `q`, if in the grid, has wall `d` set and keeps its flag and other walls; no other cell changes |
| Glyph.GuardOne | maze.py:96-113 | stamping one glyph cell keeps the grid's cells |
| Glyph.GuardOneSelf | maze.py:96-103 | the stamped cell is visited with all four walls |
| Glyph.GuardOneOther | maze.py:105-113 | every other cell gains exactly its walls facing the stamped cell |
| Glyph.GuardOneMore | maze.py:90-113 | stamping one more glyph cell is one more `GuardOne` |
| Glyph.GuardedSymmetric | maze.py:105-113 | stamping with the neighbour fix keeps wall symmetry, and every glyph cell is visited with all four walls |
| Glyph.CornerCells | ma.py:233-240 | the cells placed so far are exactly those of the offsets before `i` |
| Glyph.CornerMark | ma.py:240-247 | marking one more offset's cell is one more cell update |
| Glyph.FirstOutside | ma.py:233-238 | the first offset outside the maze is searched for from `i` |
| Glyph.FirstOutsideIsFirst | ma.py:233-238 | every offset before the first outside one lands inside the maze, and that offset does not |
| Glyph.FirstOutsideAt | ma.py:233-238 | an index up to which every offset lands inside, and at which one lands outside, is the first outside one |
| Glyph.CornerFits | ma.py:229-238 | the shape fits at a corner exactly when the corner is in `0..width-5 x 0..height-5` |
| Glyph.PatternBounds | ma.py:108-113 | every offset of the shape lies in `0..4 x 0..4` |
| Render.Repeat | recursive_dfs.py:108 | `s * count` has `count` times the length of `s` |
| Render.Border | recursive_dfs.py:108 | the border has `1 + 4 * width` characters and starts with `+` |
| Render.CellUnit | recursive_dfs.py:114-125 | every cell takes four characters on its cells line |
| Render.SouthEdge | recursive_dfs.py:130-134 | every cell takes four characters on its floor line |
| Render.BorderText | recursive_dfs.py:108 | the border has `1 + 4 * width` characters, with `+` at every fourth and `-` in between |
| Render.AppendUnit | recursive_dfs.py:113-125 | appending a cell's four characters leaves the earlier columns as they were |
| Render.CellsLine | recursive_dfs.py:112-126 | the cells line up to column `n` has `1 + 4 * n` characters and starts with `|` |
| Render.CellsLineText | recursive_dfs.py:112-126 | column `x` of the cells line is the unit of the cell at `x` |
| Render.FloorLine | recursive_dfs.py:129-135 | the floor line up to column `n` has `1 + 4 * n` characters and starts with `+` |
| Render.FloorLineText | recursive_dfs.py:129-135 | column `x` of the floor line is the south edge of the cell at `x` |
| Render.Rows | recursive_dfs.py:110-135 | each row prints two lines |
| Render.RowsAt | recursive_dfs.py:110-135 | row `y` gives line `2y` for its cells and line `2y + 1` for its floor |
| Render.Picture | recursive_dfs.py:106-135 | there are `1 + 2 * height` lines and the first is the border |
| Render.PictureText | recursive_dfs.py:106-135 | there are `2 * height + 1` lines of `1 + 4 * width` characters, after the border; a cell shows `###` iff it is reserved or fully walled, `|` after it iff it has its east wall, and `---` below it iff it is reserved or has its south wall |
| Render.CellShown | recursive_dfs.py:113-134 | the same for one cell of one row |
| Hex.ValueSum | ma.py:189-192 | adding the bits wall by wall in N, E, S, W order gives `N*1 + E*2 + S*4 + W*8` |
| Hex.WallValue | ma.py:183-192 | the value of the walls is below 16 |
| Hex.HexDigit | ma.py:193 | the digit is in `0-9A-F`: values below 10 give `0` to `9`, values from 10 give `A` to `F` |
| Hex.Encode | ma.py:193 | a cell becomes one character, a digit of `0-9A-F` |
| Hex.DigitRoundTrip | ma.py:193 | reading an upper-case hexadecimal digit gives back the value it formats |
| Hex.DecodeEncode | ma.py:182-196 | decoding a cell's digit gives back its four walls |
| Hex.EncodeInjective | ma.py:182-196 | two cells get the same digit iff they have the same walls |
| Hex.EncodeDigits | ma.py:193 | the digit is one of `0-9A-F`; a fully walled cell gives `F`, and a cell without walls gives `0` |
| Hex.CellValue | ma.py:189-192 | the `value |= 1 << b` loop computes the wall value |
| Hex.BitOr | ma.py:192 | setting bit `i` of a value below `2^i` adds `2^i` |
| Hex.DigitValue | ma.py:193 | a digit's value is below 16 |
| Generator.SnapshotUpdate | recursive_dfs.py:56-58 | replacing one cell in the rows replaces that cell in the grid value |
| Generator.Snapshot | recursive_dfs.py:19-21 | the grid value has exactly the in-bounds coordinates |
| Generator.NewGrid | recursive_dfs.py:19-21 | a new grid has a cell at every in-bounds coordinate |
| Generator.NewGridFacts | recursive_dfs.py:5-8 | in a new grid every wall is present, symmetry holds, and no cell is visited |
| Generator.MazeGenerator.constructor | recursive_dfs.py:16-21 | a grid of new cells, with no reserved cells yet |
| Generator.MazeGenerator.Grid | recursive_dfs.py:19-21 | the grid value has exactly the in-bounds coordinates |
| Generator.MazeGenerator.SetCell | recursive_dfs.py:56-58 | replaces one cell; nothing else changes |
| Generator.MazeGenerator.RemoveWall | recursive_dfs.py:96-99 | the grid afterwards is `OpenWall` of the old grid; the reserved cells stay the same |
| Generator.MazeGenerator.InBounds | recursive_dfs.py:101-102 | a coordinate pair is in bounds iff it is a cell of the grid |
| Generator.MazeGenerator.Free | recursive_dfs.py:85-90 | a neighbour is free iff `Stacks.Free` holds of the grid: in bounds, not reserved and not visited |
| Generator.MazeGenerator.Walk | recursive_dfs.py:72-93 | the grid and the carves afterwards are those of `WalkRun` from the old grid |
| Generator.MazeGenerator.Pass | recursive_dfs.py:84-93 | one pass of the loop moves `LoopRun` one direction further on |
| Generator.MazeGenerator.Generate | recursive_dfs.py:62-70 | the grid afterwards is `WalkRun` of the old grid from the start, and the run is `Grown`: a tree of free cells, reserved cells kept, every open neighbour of a reached cell visited |
| Generator.MazeGenerator.Neighbors | iterative_dfs.py:72-76 | the list is `Candidates` of the current grid, in N, E, S, W order |
| Generator.MazeGenerator.IterPass | iterative_dfs.py:66-84 | one pass of the stack loop is `IterStep` |
| Generator.MazeGenerator.IterMove | iterative_dfs.py:71-84 | with the top marked, the rest of the pass is `IterStep` |
| Generator.MazeGenerator.GenerateIterative | iterative_dfs.py:56-84 | the grid and carves afterwards are `IterRun` from the start alone on the stack, and the run is `Grown` |
| Generator.MazeGenerator.ReserveScaled | recursive_dfs.py:32-58 | below 7 x 5 nothing is reserved; otherwise the reserved cells are the squeezed glyph's in-bounds cells, marked only when `mark` is set |
| Generator.MazeGenerator.ReserveScaledRows | recursive_dfs.py:49-58 | the outer loop reserves the whole squeezed glyph |
| Generator.MazeGenerator.ReserveScaledRow | recursive_dfs.py:50-58 | the inner loop reserves one bitmap row |
| Generator.MazeGenerator.ReserveScaledAt | recursive_dfs.py:51-58 | one bitmap position is reserved, and marked if `mark` is set, exactly when it is a 1-cell in bounds |
| Generator.MazeGenerator.ReserveCentered | goodmaze.py:32-46 | the reserved cells are the centred glyph, every one marked visited with all four walls |
| Generator.MazeGenerator.ReserveCenteredRows | goodmaze.py:39-46 | the outer loop reserves the whole centred glyph |
| Generator.MazeGenerator.ReserveCenteredRow | goodmaze.py:40-46 | the inner loop reserves one bitmap row |
| Generator.MazeGenerator.ReserveCenteredAt | goodmaze.py:41-46 | a 1-cell of the bitmap is reserved and marked |
| Generator.MazeGenerator.GuardCell | maze.py:96-113 | the grid afterwards is `GuardOne` of the old grid |
| Generator.MazeGenerator.ShutWall | maze.py:106-113 | the wall is set when the neighbour is in the maze; otherwise nothing changes |
| Generator.MazeGenerator.Insert42Centered | maze.py:72-113 | raises "Maze too small for 42 pattern", changing nothing, iff the maze is below 13 x 5; otherwise the grid is the old one with the centred glyph stamped with the neighbour fix |
| Generator.MazeGenerator.GuardRows | maze.py:90-113 | the outer loop stamps the whole centred glyph |
| Generator.MazeGenerator.GuardRow | maze.py:91-113 | the inner loop stamps one bitmap row |
| Generator.MazeGenerator.Insert42CenteredAt | maze.py:92-113 | one 1-cell of the bitmap is stamped |
| Generator.MazeGenerator.Center42 | maze.py:66-70 | the corner centres a 5 x 5 shape: `2x <= width - 5 < 2x + 2`, and the same for `y` |
| Generator.MazeGenerator.Insert42At | ma.py:229-247 | returns normally iff the corner is in `0..width-5 x 0..height-5`; below 5 x 5 it raises "Maze too small to contain 42 pattern" and changes nothing, otherwise it raises "42 pattern out of maze bounds"; otherwise the offsets before the first outside one are marked |
| Generator.MazeGenerator.MarkCorner | ma.py:233-247 | the offsets are marked in order up to the first outside one, where it raises "42 pattern out of maze bounds" |
| Generator.MazeGenerator.MarkOffset | ma.py:240-247 | the cell of one offset becomes visited with all four walls |
| Generator.MazeGenerator.DisplayAscii | recursive_dfs.py:106-135 | the printed lines are `Picture` of the grid, whose shape and content `PictureText` states |
| Generator.MazeGenerator.CellsText | recursive_dfs.py:112-126 | the line built by `+=` is `CellsLine` of the row |
| Generator.MazeGenerator.FloorText | recursive_dfs.py:129-135 | the line built by `+=` is `FloorLine` of the row |
| Generator.MazeGenerator.ToHexGrid | ma.py:182-196 | `height` rows of `width` digits, the digit of each cell its `Encode`, which `DecodeEncode` reads back |
| Generator.MazeGenerator.HexRow | ma.py:186-194 | one row of digits, the digit of each cell its `Encode` |
| Variants.NewGridMarked | recursive_dfs.py:19-58 | a new grid with the glyph marked is symmetric, with all walls present and exactly the reserved cells visited |
| Variants.NewRecursive | recursive_dfs.py:12-58 | raises "Invalid maze size" iff a size is not positive; otherwise a grid of new cells with the squeezed glyph reserved and marked from 7 x 5 on |
| Variants.NewIterative | iterative_dfs.py:12-52 | the same check and the same reserved cells, left as new cells |
| Variants.NewGoodMaze | goodmaze.py:13-46 | the same check; the centred glyph reserved and marked |
| Variants.NewPlain | ma.py:127-140 | the size check with its message, and a grid of new cells with nothing reserved (also `maze.py:17-27`) |
| Variants.PlainRun | maze.py:17-55 | after a whole run every cell is visited, `width * height - 1` walls are removed, and wall symmetry holds |
| Variants.ReservedRun | recursive_dfs.py:12-93 | after a whole run every reserved cell is still visited with all four walls, the carves form a tree, and wall symmetry holds |
| Variants.IterativeRun | iterative_dfs.py:12-84 | after a whole run the reserved cells are still new cells, and every cell joined to the start by a path of unreserved cells is visited |

## Left out

- Randomness (`shuffle`, `randrange`, `seed` and ma.py's `rng_seed`) is replaced by the `order` and `draw` parameters and by the start cell the caller passes in. The generator does not choose these.
- The start cell's rejection loop (`while (start_x, start_y) in self.pattern_cells`) becomes a precondition of `Generate` and `GenerateIterative`: the start is in bounds and not reserved. The loop needs at least one unreserved cell to end. It always has one, because the glyph never fills the grid.
- `print` output is not modelled. This covers the "Skipping" message below 7 x 5, ma.py's debug prints in `generate` and `_walk`, and the demo blocks under `__main__`. `display_ascii` returns its lines instead of printing them.
- Python's recursion limit is not modelled. On large grids the recursive `_walk` can raise `RecursionError`; the model walks to the end.
- `Variants.NewGoodMaze`: requires the maze to be at least 13 x 5 when both sizes are positive. Below that, goodmaze.py computes a negative corner. Its indexing then wraps around to the far side of the grid, or fails with `IndexError`, and `pattern_cells` keeps coordinates that are off the grid. That behaviour is not modelled.
- The squeezed placement's `round(ox * scale_x)` is a float computation. It is modelled exactly in integers as `ScaleX`. Below width 13 the quotient `ox * width / 13` is never a tie, because 13 is odd, so banker's rounding does not matter. `scale_y` is always 1 from height 5 on.
- The grid is a sequence of rows that methods reassign, not Python's list of mutable `Cell` objects. Aliasing between cells does not arise in the source, because every cell object is distinct.
- maze.py and ma.py have no `pattern_cells`. They are modelled with the same class and an empty reserved set. The reserved-cell test in `_walk` and `display_ascii` is then always false, which is exactly these files' code.
- ma.py's `insert_42` does not add its cells to any reserved set. So a later `generate` treats them only as visited cells; the model does the same, through the visited flag.
- ma.py's `get_maze` only returns the grid. It is `Grid()`.
- The commented-out earlier version at the top of ma.py is not part of this model.
