# Game of Life stepper on a torus

This project models the simulation core of `game-of-life`, a Conway's Game of
Life written in Rust. The grid is a row-major vector of booleans with a width
and a height. Cell `(x, y)` lives at position `y * width + x`. Each tick, one
`step` does two passes:

1. The first pass reads the unchanged grid. For every cell it sums the eight
   neighbours, wrapping around the edges so the grid behaves as a torus. It
   collects, in row-major order, the positions the Life rule says must toggle.
2. The second pass toggles those positions one by one. After each toggle it
   appends `(position, new value)` to the change list (`GridDelta.xs`) that
   the renderer consumes.

The project has four modules:

- `Grids` (`grid.dfy`): the `Grid` value and its operations `New`, `Index`
  (`get_index`) and `SetIndex` (`set_index`). It also has `Coords`, the
  inverse of `Index`, which is the same decoding the renderer applies to a
  reported position. Products of a row count and the width are written as
  `Rows`: the cells of that many full rows, added up one row at a time.
  `Grids.RowsIsProduct` proves it equal to the product, so `Index(w, x, y)`
  is `y * w + x` as in `get_index`.
- `Life` (`life.dfy`): the pure specification.
  - The wrap helpers `Prev`/`Succ` and their meaning as arithmetic modulo the
    axis length.
  - The literal eight-lookup neighbour count `Count`, and the B3/S23 rule.
  - The next generation `Next`.
  - The change list `Diff` between two generations, and `Apply`, which
    replays a change list.
- `Stepper` (`stepper.dfy`): the imperative `Step`. It follows the source's
  loops: rows, then columns, then one cell, then the commit loop. It is proved
  to produce `Next(g)` and to append exactly `Diff(old, new)` to the change
  list.
- `Patterns` (`patterns.dfy`): three concrete grids.
  - A 3 x 3 grid whose opposite corners see each other across both edges.
  - A horizontal blinker on a 5 x 5 grid and its first step.
  - The 50 x 50 starting seed of the program.

The count is the source's literal sum of eight reads, not a set of distinct
neighbours. On a grid one cell wide or one cell high, the same cell is read
several times, sometimes including the cell itself. The model keeps that
behaviour: see `Life.WidthOneCountsTwice` and `Life.HeightOneCountsTwice`.

One step of a horizontal blinker reports four changes: the two ends die and
the two cells above and below the centre are born. The centre has two live
neighbours and stays alive, so it is not reported. `Patterns.BlinkerStep`
and `Patterns.BlinkerChanges` prove this on a 5 x 5 grid, and
`Life.ChangeReported` shows in general that a cell that keeps its state
never appears in the change list.

## Model

| member | source | states |
|---|---|---|
| Grids.RowsIsProduct | src/lib.rs:206 | the cells of `rows` full rows of `width` number rows*width, the product the source allocates and indexes with |
| Grids.New | src/lib.rs:204-210 | a new grid stores the given width and height, is well formed (one cell per coordinate pair), and has every cell dead |
| Grids.NewSize | src/lib.rs:204-210 | a new grid holds exactly width*height cells |
| Grids.Index | src/lib.rs:217-219 | the position of (x, y) is the cells of the y full rows above it plus x; its bounds, injectivity and inverse are the lemmas below |
| Grids.IndexIsProduct | src/lib.rs:217-219 | the position of (x, y) is y*width + x |
| Grids.IndexInBounds | src/lib.rs:217-219 | an in-range (x, y) gives a position below the number of cells of a width x height grid |
| Grids.AllIndicesInBounds | src/lib.rs:217-219 | every in-range coordinate pair of a well-formed grid addresses a cell inside its buffer |
| Grids.IndexInjective | src/lib.rs:217-219 | distinct in-range coordinate pairs give distinct positions |
| Grids.CoordsOfIndex | src/lib.rs:217-219 | decoding the position of an in-range (x, y) gives back (x, y) |
| Grids.IndexOfCoords | src/lib.rs:217-219 | every position inside the buffer decodes to in-range coordinates that encode back to it |
| Grids.Coords | src/lib.rs:175-176 | the decoded column is below the width, and encoding the decoded pair gives back the position |
| Grids.CoordsIsDivMod | src/lib.rs:175-176 | the decoding is the remainder and quotient by the width, as the renderer computes it |
| Grids.SetIndex | src/lib.rs:212-215 | the addressed cell becomes alive; every other cell, the dimensions and the length are unchanged |
| Grids.SetIndexIdempotent | src/lib.rs:212-215 | seeding a cell twice is the same as seeding it once |
| Grids.SetIndexCommutes | src/lib.rs:212-215 | seeding two cells gives the same grid in either order |
| Life.Prev | src/lib.rs:115-119 | the left/up coordinate always lies on the axis |
| Life.Succ | src/lib.rs:121-125 | the right/down coordinate always lies on the axis |
| Life.PrevSuccInverse | src/lib.rs:115-137 | stepping right then left, or left then right, returns to the start |
| Life.WrapSteps | src/lib.rs:115-137 | the edge tests compute c-1 and c+1 reduced modulo the axis length (Euclidean remainder) |
| Life.LookupsAreTorusNeighbours | src/lib.rs:115-146 | the i-th lookup is the cell at the i-th Moore offset, reduced modulo width and height |
| Life.Alive | src/lib.rs:139-148 | a cell is read from the buffer at its row-major position, which lies inside the buffer for in-range coordinates |
| Life.Bit | src/lib.rs:139-146 | the `as u8` cast of a cell is 1 for a live cell and 0 for a dead one |
| Life.Lookups | src/lib.rs:139-146 | there are exactly eight lookups, each inside the grid |
| Life.LiveAmong | src/lib.rs:139-146 | the live count of a list of cells is at most its length; repeats count again |
| Life.Count | src/lib.rs:139-146 | the neighbour count is between 0 and 8 |
| Life.CountUnfold | src/lib.rs:139-146 | the count is the literal sum of the eight reads in the source's order |
| Life.ReadsInBounds | src/lib.rs:139-148 | all nine reads the scan makes for a cell are inside the buffer |
| Life.ScanCount | src/lib.rs:139-146 | the sum the scan computes from the raw buffer is the neighbour count |
| Life.WidthOneCountsTwice | src/lib.rs:115-146 | on a grid one cell wide, the rows above and below count three times each and the cell itself twice |
| Life.HeightOneCountsTwice | src/lib.rs:127-146 | on a grid one cell high, the columns left and right count three times each and the cell itself twice |
| Life.Flips | src/lib.rs:148-152 | the toggle test: a live cell with fewer than 2 or more than 3 neighbours, or a dead cell with exactly 3 |
| Life.FlipAt | src/lib.rs:148-152 | the cell at a position toggles when the toggle test holds for its own state and its count at its decoded coordinates |
| Life.Evolve | src/lib.rs:148-152 | next state is alive iff the count is 3, or it is 2 and the cell is alive; it differs from the current state iff the toggle condition holds |
| Life.Next | src/lib.rs:148-159 | the next generation keeps the shape, and a cell differs from the current one iff the rule toggles it, judged on the current grid |
| Life.NextFollowsLifeRule | src/lib.rs:148-152 | underpopulation and overpopulation kill, exactly three gives birth, every other cell keeps its state |
| Life.AllDeadStaysDead | src/lib.rs:106-160 | a grid with no live cell is its own next generation |
| Life.NoLiveNoNeighbours | src/lib.rs:139-146 | in an empty grid every count is zero |
| Life.Diff | src/lib.rs:156-158 | the change list has at most one entry per cell |
| Life.DiffExtend | src/lib.rs:156-158 | comparing one more position appends that position's entry exactly when it changed |
| Life.DiffExact | src/lib.rs:149-158 | an entry is in the change list iff its position changed and it carries the new value |
| Life.ChangeReported | src/lib.rs:148-158 | a cell changed by one generation is reported with its new value; a cell that keeps its state is never reported |
| Life.DiffSorted | src/lib.rs:109-111 | change-list positions strictly increase (row-major order), so each appears once |
| Life.DiffSelfEmpty | src/lib.rs:106-160 | two equal grids have an empty change list |
| Life.Apply | src/lib.rs:156-158 | replaying a change list keeps the buffer length |
| Life.ApplyAppend | src/lib.rs:156-158 | replaying one more entry sets that entry's position to its value |
| Life.ApplyDiffPrefix | src/lib.rs:156-158 | replaying the changes of the first m positions onto the old grid gives the new values there and the old values elsewhere |
| Life.ApplyDiff | src/lib.rs:156-158 | replaying the change list onto the old grid reproduces the new grid |
| Stepper.PositionsSpec | src/lib.rs:107-154 | the collected positions strictly increase, lie below m, and are exactly the flagged ones |
| Stepper.FlippedSpec | src/lib.rs:107-154 | after m cells, phase one holds, in increasing order, exactly the positions below m the rule toggles |
| Stepper.FlippedExtend | src/lib.rs:148-152 | visiting a cell appends its position exactly when the rule toggles it |
| Stepper.VisitCell | src/lib.rs:112-152 | one cell's wrap, count and rule test append that cell's position to the collected list exactly when the rule toggles it, and append nothing otherwise |
| Stepper.RowInBounds | src/lib.rs:109-111 | every row of a well-formed grid ends inside the buffer |
| Stepper.ScanRow | src/lib.rs:111-153 | a row's scan extends the collected list to the end of that row |
| Stepper.Collect | src/lib.rs:107-154 | phase one yields, in strictly increasing order, exactly the in-range positions the rule toggles |
| Stepper.Toggled | src/lib.rs:156-158 | one entry per collected position, carrying that position and the opposite of its old value |
| Stepper.ToggledAppend | src/lib.rs:156-158 | toggling two runs of positions reports the two runs of entries |
| Stepper.DropLast | src/lib.rs:107-154 | if m-1 is among increasing positions below m, it is the last one and the rest lie below m-1 |
| Stepper.IncreasingBelowLength | src/lib.rs:107-154 | there are at most m strictly increasing positions below m |
| Stepper.ToggledIsDiff | src/lib.rs:149-158 | toggling exactly the differing positions in increasing order reports the change list |
| Stepper.Commit | src/lib.rs:156-159 | phase two toggles exactly the collected cells, keeps the length, and appends the toggle entries after the existing ones |
| Stepper.CommitIsNext | src/lib.rs:106-160 | committing phase one's positions produces the next generation, and its entries are the change list |
| Stepper.Step | src/lib.rs:106-160 | after a step the grid is Next(old) with the same shape; existing entries are kept and the appended ones are Diff(old, new); replaying them reproduces the new grid; an empty grid stays empty and adds nothing |
| Patterns.CornerSeesOppositeCorner | src/lib.rs:115-146 | on a 3 x 3 grid the top-left cell's up-left lookup is the bottom-right cell, and its count is 1 when those are the only live cells |
| Patterns.Blinker | src/lib.rs:204-215 | the blinker grid is a well-formed 5 x 5 grid |
| Patterns.BlinkerCells | src/lib.rs:212-219 | the blinker's live cells are exactly (1, 2), (2, 2) and (3, 2) |
| Patterns.BlinkerCentreCount | src/lib.rs:115-146 | the blinker's centre has two live neighbours |
| Patterns.BlinkerLeftEndCount | src/lib.rs:115-146 | the left end of the line has one live neighbour |
| Patterns.BlinkerRightEndCount | src/lib.rs:115-146 | the right end of the line has one live neighbour |
| Patterns.BlinkerAboveCount | src/lib.rs:115-146 | the cell above the centre has three live neighbours |
| Patterns.BlinkerBelowCount | src/lib.rs:115-146 | the cell below the centre has three live neighbours |
| Patterns.BlinkerStep | src/lib.rs:148-159 | after one step the centre is still alive, the ends are dead and the cells above and below the centre are alive |
| Patterns.BlinkerChanges | src/lib.rs:148-158 | the step reports the two deaths and two births with their new values and nothing for the centre |
| Patterns.Seed | src/main.rs:7-14 | the program's 50 x 50 starting grid is well formed |
| Patterns.SeedCells | src/main.rs:10-14 | exactly the five seeded cells are alive at the start |

## Left out

- The Bevy plugin and everything around it (src/lib.rs:1-14, 21-26, 31-100, 162-194). This covers the `Game` plugin `build`, window setup, the camera, sprite spawning in `init`, the `CellMap` entity handles and the resource wiring. It is rendering and UI over a library that is not part of this model. `GridDelta.xs` (src/lib.rs:27-30) is modelled as the change list, `Game::new` (src/lib.rs:16-20) only wraps `Grid::new`, and `Game::grid` (src/lib.rs:22-24) only hands out the grid. Of `draw`, only the position decoding is modelled (`Grids.Coords`). `Life.Apply` stands in for the repaint of each reported cell.
- `set_fps` (src/lib.rs:102-104) is frame pacing, a runtime timing concern.
- `src/main.rs` only starts the application. Its five seed cells appear as `Patterns.Seed`.
- Life.Prev: models the `f32` round-trip of the wrap computation (src/lib.rs:112-136) as exact integer arithmetic. The round-trip is exact for dimensions below 2^24.
- Life.Succ: same as `Life.Prev`. The right and down coordinates go through `f32` in the source and are modelled as exact `c + 1`.
- Grids.IndexInBounds: uses unbounded integers. The source's `usize` product `y * width + x` could overflow for astronomically large grids, and the model does not represent that.
- Grids.SetIndex: requires only that the computed position lies inside the buffer, which is exactly where the source would panic otherwise. An out-of-range `x` that still lands inside the buffer writes another row's cell, as in the source.
- Stepper.Step: requires `|cells| == width * height`. Every grid built by `Grid::new` meets this, and `step` only toggles cells, so it never changes the length. The source does not check this invariant. A shorter buffer makes it panic on an out-of-range read. A longer buffer is accepted by the source: every read and toggle stays below `width * height`, so the extra cells are never touched. The model's requires excludes that case as well.
- The change list is a plain sequence of `(position, value)` pairs. Clearing it between ticks is not done by the core, so it is not modelled.
- The `u8` sum of the neighbour count (src/lib.rs:139-146) is at most 8, so it cannot overflow. It is modelled with natural numbers.
- The blinker's period 2 and the stillness of the 2 x 2 block are not proved as whole-grid equalities. The model proves the blinker's step only for the five cells that decide it (`Patterns.BlinkerStep`). A whole-grid equality needs every cell's count computed separately: 25 counts per generation for the blinker, 16 for the block.
