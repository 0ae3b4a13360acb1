# Game of Life engine, modelled in Dafny

This project models the simulation and rendering core of a small Conway's
Game of Life program. It proves properties of that model.

- **Cell** (`cells.dfy`): a cell wraps one of two states, Dead or Alive. `Living` asks whether it is Alive.
- **Grid** (`grid.dfy`): a `class Grid` keeps a row-major `seq<Cell>` of `rows * cols` cells and never changes size. It offers:
  - reads and writes at offset `row * cols + col`;
  - the Moore-neighbourhood query `cell_neighbours_at`, which clamps at the edges and does not wrap;
  - `kill_all`;
  - a `class GridIterator` whose `next` yields `(idx / cols, idx % cols, cell)` and advances `idx`.

  Pure functions (`NeighbourCoords`, `NeighbourCells`, `ItemAt`) specify the loops. Lemmas prove that the neighbourhood:
  - contains exactly the in-grid squares touching the queried square;
  - never contains the square itself;
  - lists them in row-major order;
  - has 3, 5 or 8 members at a corner, on an edge or inside.
- **Rules** (`rules.dfy`):
  - `NextState` is the birth/survival table.
  - `NextGeneration` applies it to every square of a board, reading the old board only.
  - Lemmas state that the result at a square depends only on that square and its neighbours, and that an empty board stays empty.
  - Further lemmas show the board does not wrap: a lone cell dies, and a corner sees nothing on the opposite edges.
- **Patterns** (`patterns.dfy`): boards given by their list of living squares. The living-neighbour count of such a board is the number of listed squares touching the square. A three-cell bar turns a quarter each generation, so it returns after two.
- **Controller** (`controller.dfy`): a `class Controller` holds the pause flag, the scratch grid and the RGBA8 frame as an `array<byte>`.
  - `InitialiseGame` seeds (2,2), (2,3) and (2,4).
  - `Generate` fills the scratch grid with `NextGeneration` of the visible grid, then copies the living cells back. While paused, it does nothing.
  - `ManualSet`/`ManualUnset` map a mouse position to the cell offset `⌊y/10⌋·cols + ⌊x/10⌋`. As in the code, only that offset is bounds-checked, so a column past the last one lands in the next row.
  - `Display` clears the frame and paints every living square's 10×10 block.
- **Raster** (`raster.dfy`):
  - `Rendered` specifies the frame `Display` must leave. Byte `i` is channel `i % 4` of red `(255, 0, 0, 255)` when its pixel lies in a living square's block, and `0x00` otherwise. As in the code, the alpha of a dead square's pixel is 0 too.
  - The iterator chain `chunks_exact_mut(40).skip(col).step_by(64).skip(10 * row).take(10)` is modelled on chunk numbers. Lemmas prove that it picks exactly the ten pixel rows of the square's block.
- `dimensions.dfy` holds the fixed sizes: 64×64 squares and 10 pixels per square. `arith.dfy` holds small arithmetic lemmas about row-major offsets.

## Model

| member | source | states |
|---|---|---|
| Cells.Cell.Living | src/gol/cell.rs:13-15 | a cell is living exactly when its state is Alive, and not living exactly when it is Dead |
| Cells.CellEquality | src/gol/cell.rs:7-10 | two cells are equal exactly when their states are equal (the derived `PartialEq`) |
| Cells.LivingDetermines | src/gol/cell.rs:2-15 | a living cell is `Cell(Alive)` and any other is `Cell(Dead)`: the two states are the only ones |
| Dimensions.PictureSize | src/gol/controller.rs:8-12 | the picture is 64·10 × 64·10 pixels and the frame holds four bytes per pixel |
| Grids.Offset | src/gol/grid.rs:43-48 | `row * cols + col` of an in-range square lies inside the array and decodes back to `(row, col)` by `/` and `%` |
| Grids.OffsetRoundTrip | src/gol/grid.rs:20-26 | every index inside the array decodes by `/ cols` and `% cols` to an in-range square whose offset is that index |
| Grids.DeadCells | src/gol/grid.rs:33 | `n` cells, none of them living |
| Grids.PrevIndex | src/gol/grid.rs:54-56 | `checked_sub(1).unwrap_or_default()`: one less than `i`, except that 0 stays 0 |
| Grids.LastIndex | src/gol/grid.rs:55-57 | `min(n - 1, i + 1)`: inside `0..n` and at most `i + 1`, equal to one of the two |
| Grids.NeighbourCoords | src/gol/grid.rs:54-66 | no contract of its own: the squares the nested loops visit, from `PrevIndex` to `LastIndex` in both directions, skipping `(row, col)`; `NeighbourWindow` and `NeighbourCount` state its properties |
| Grids.NeighbourCells | src/gol/grid.rs:59-66 | one pushed cell per visited square (`CellsAtIndex` gives the cell at each position) |
| Grids.SetTouchesOneSquare | src/gol/grid.rs:47-49 | writing one square's offset changes that square and no other |
| Grids.RowCoordsMembers | src/gol/grid.rs:60-63 | one pass of the inner loop visits exactly the columns of the window in that row, except the queried square |
| Grids.WindowCoordsMembers | src/gol/grid.rs:59-66 | the nested loops visit exactly the squares of the window, except the queried square |
| Grids.RowCoordsLength | src/gol/grid.rs:60-63 | a row pass visits the window's width of squares, one fewer in the queried square's row |
| Grids.WindowCoordsLength | src/gol/grid.rs:59-66 | the loops visit height × width squares of the window, minus the queried square when it is inside |
| Grids.RowCoordsSorted | src/gol/grid.rs:60-63 | a row pass visits columns in increasing order |
| Grids.WindowCoordsSorted | src/gol/grid.rs:59-66 | the loops visit squares in strict row-major order |
| Grids.RowCoordsStep | src/gol/grid.rs:60-64 | one more column of the inner loop appends that square unless it is the queried one |
| Grids.WindowCoordsStep | src/gol/grid.rs:59-60 | one more row of the outer loop appends that row's pass |
| Grids.NeighbourWindow | src/gol/grid.rs:54-66 | the clamped window yields exactly the in-grid squares adjacent to `(row, col)`, without wrap-around or the square itself, all in the grid and in row-major order |
| Grids.NeighbourCoordsInGrid | src/gol/grid.rs:54-57 | the clamped bounds keep every visited square inside the grid |
| Grids.NeighbourCount | src/gol/grid.rs:54-66 | the number of neighbours is (clamped rows) × (clamped columns) − 1 |
| Grids.NeighbourCountByPosition | src/gol/grid.rs:54-66 | with at least two rows and columns, a corner has 3 neighbours, an edge 5 and an interior square 8 |
| Grids.CellsAtIndex | src/gol/grid.rs:64 | the i-th pushed cell is the cell stored at the i-th visited square |
| Grids.ItemAt | src/gol/grid.rs:21-26 | the item at index `i` names column `i % cols` < `cols` and a row such that `row * cols + col == i`, and carries `cells[i]` |
| Grids.ItemInGrid | src/gol/grid.rs:20-26 | item `i` names an in-grid square `(i / cols, i % cols)` and carries the cell stored there |
| Grids.ItemsOrdered | src/gol/grid.rs:20-26 | later items name strictly later squares in row-major order |
| Grids.TraversalRowMajor | src/gol/grid.rs:17-28 | the traversal names every square exactly once, in row-major order, with its own cell |
| Grids.Grid.constructor | src/gol/grid.rs:31-37 | a new grid records `rows` and `cols` and holds `rows * cols` Dead cells |
| Grids.Grid.Clone | src/gol/grid.rs:5-10 | the clone is a new grid with the same size and cells |
| Grids.Grid.Iter | src/gol/grid.rs:39-41 | a new traversal of this grid starts at index 0 |
| Grids.Grid.CellAt | src/gol/grid.rs:43-45 | needs only `row * cols + col` in range and returns the cell at that offset; for an in-range column, the row is in range and that cell is the one stored at `(row, col)` |
| Grids.Grid.SetCellAt | src/gol/grid.rs:47-49 | the cell at `row * cols + col` takes the new state; every other cell and the length are unchanged |
| Grids.Grid.CellNeighboursAt | src/gol/grid.rs:51-67 | the neighbour list starts empty and ends as `NeighbourCells`: the cells of the clamped window, row by row, without the square itself |
| Grids.Grid.PushRow | src/gol/grid.rs:60-65 | one row of the inner loop pushes the cells of that row's window squares, in order, skipping the queried square |
| Grids.Grid.KillAll | src/gol/grid.rs:69-71 | every cell becomes Dead and the size is unchanged |
| Grids.GridIterator.constructor | src/gol/grid.rs:39-41 | a traversal borrows its grid and starts at index 0 |
| Grids.GridIterator.Next | src/gol/grid.rs:20-27 | before the end: the item `(idx / cols, idx % cols, cells[idx])`, and the index advances by one. At the end: nothing, and the index stays |
| Rules.LivingCount | src/gol/controller.rs:74 | the count is at most the list's length; it is 0 exactly when no cell is living, and the length exactly when all are |
| Rules.NextState | src/gol/controller.rs:76-89 | a living cell stays Alive exactly with 2 or 3 living neighbours; a dead cell becomes Alive exactly with 3 |
| Rules.NextCell | src/gol/controller.rs:72-89 | no contract of its own: the rule applied to the square's cell and the living count of its neighbour list; `NextStateAt` and `NextGeneration` tie it to the loops |
| Rules.NextGeneration | src/gol/controller.rs:70-93 | the next board has the same size; each square holds the rule applied to its own cell and its neighbour list on the old board |
| Rules.NoLivingNeighbours | src/gol/controller.rs:73-74 | a square whose in-grid adjacent squares are all Dead counts no living neighbours |
| Rules.AllDeadStaysDead | src/gol/controller.rs:70-93 | an all-Dead board stays all-Dead |
| Rules.DeadSquareStaysDead | src/gol/controller.rs:70-93 | on an all-Dead board, every square's next cell is Dead |
| Rules.NextCellDependsOnWindow | src/gol/controller.rs:70-93 | two boards that agree on a square and its neighbours give that square the same next cell: only the old board's window is read |
| Rules.LoneCellDies | src/gol/controller.rs:76-89 | a single living cell on an empty board dies |
| Rules.NoWrapAround | src/gol/grid.rs:54-57 | living cells on the far corners do not count as neighbours of (0, 0), which stays Dead |
| Patterns.LivingCountOfPattern | src/gol/controller.rs:74 | on a listed board, the living cells among some squares are the squares that are listed |
| Patterns.AdjacentCountIsCountIn | src/gol/grid.rs:54-66 | the listed squares adjacent to `(row, col)` are the listed squares inside its neighbourhood |
| Patterns.LivingNeighboursOfPattern | src/gol/controller.rs:73-74 | on a listed board, a square's living-neighbour count is the number of listed squares adjacent to it |
| Patterns.HorizontalBarCounts | src/gol/controller.rs:76-89 | around a horizontal bar, only the centre keeps 2 or 3 living neighbours, and only the squares above and below the centre have exactly 3 |
| Patterns.VerticalBarCounts | src/gol/controller.rs:76-89 | around a vertical bar, only the centre keeps 2 or 3 living neighbours, and only the squares left and right of the centre have exactly 3 |
| Patterns.HorizontalToVertical | src/gol/controller.rs:70-93 | square by square, a horizontal bar's next generation is the vertical bar with the same centre |
| Patterns.VerticalToHorizontal | src/gol/controller.rs:70-93 | square by square, a vertical bar's next generation is the horizontal bar with the same centre |
| Patterns.HorizontalBecomesVertical | src/gol/controller.rs:70-93 | a horizontal bar becomes vertical in one generation |
| Patterns.VerticalBecomesHorizontal | src/gol/controller.rs:70-93 | a vertical bar becomes horizontal in one generation |
| Patterns.BlinkerOscillates | src/gol/controller.rs:70-93 | a bar turns vertical and is back after two generations |
| Controllers.SetSquares | src/gol/controller.rs:53-56 | setting the listed squares one after another keeps the board's size; `SetSquaresAt` states the contents |
| Controllers.SetSquaresAt | src/gol/controller.rs:53-56 | after setting the listed squares, a listed square holds the new state and every other square is unchanged |
| Controllers.SetSquaresStep | src/gol/controller.rs:54-55 | setting one more listed square is one more `set_cell_at` |
| Controllers.SetEach | src/gol/controller.rs:54-56 | the loop over the list leaves the grid with each listed square set, and nothing else changed |
| Controllers.SeedIsBlinker | src/gol/controller.rs:53-56 | the seed on an empty board is the horizontal bar centred on (2, 3); it turns vertical and comes back |
| Controllers.SquareIndex | src/gol/controller.rs:106-107 | the square index of pixel coordinate `v` is ⌊v / 10⌋, i.e. `10 i ≤ v < 10 (i + 1)`; a negative `v` saturates to 0 |
| Controllers.ClickExample | src/gol/controller.rs:106-107 | the pixel at x = 15, y = 25 maps to row 2, column 1 |
| Controllers.ClickPastLastColumn | src/gol/controller.rs:105-108 | a click at x = 645, y = 5 computes column 64, one past the last, yet its offset is inside the grid: it is the offset of square (1, 0) |
| Controllers.NextStateAt | src/gol/controller.rs:72-89 | the state computed for `(row, col)` is the next cell of `NextGeneration` at that square |
| Controllers.Controller.constructor | src/gol/controller.rs:31-33 | a new controller is paused and has an all-Dead 64×64 scratch grid |
| Controllers.Controller.Paused | src/gol/controller.rs:36-38 | returns the pause flag |
| Controllers.Controller.Pause | src/gol/controller.rs:40-42 | the flag becomes true and nothing else changes |
| Controllers.Controller.Unpause | src/gol/controller.rs:44-46 | the flag becomes false and nothing else changes |
| Controllers.Controller.InitialiseGame | src/gol/controller.rs:52-59 | the scratch grid gets the three seed squares set Alive; the returned grid is a new 64×64 copy of it |
| Controllers.Controller.Generate | src/gol/controller.rs:61-103 | while paused, neither grid changes. Otherwise the scratch grid becomes the next generation of the old visible grid, and the visible grid becomes equal to it |
| Controllers.Controller.ComputeNext | src/gol/controller.rs:67-93 | after clearing and the nested loops, the scratch grid holds `NextGeneration` of the visible grid |
| Controllers.Controller.CopyLiving | src/gol/controller.rs:95-101 | after clearing the visible grid and setting the scratch grid's living squares Alive, the two grids are equal |
| Controllers.Controller.ManualSet | src/gol/controller.rs:105-109 | the cell at offset `⌊y/10⌋·cols + ⌊x/10⌋` becomes Alive and nothing else changes |
| Controllers.Controller.ManualUnset | src/gol/controller.rs:111-115 | the cell at offset `⌊y/10⌋·cols + ⌊x/10⌋` becomes Dead and nothing else changes |
| Controllers.Controller.Display | src/gol/controller.rs:117-171 | the frame ends as `Rendered(grid)`: red over the block of every living square, 0x00 everywhere else |
| Raster.ChunkSize | src/gol/controller.rs:124 | a chunk is one pixel row of one square, 40 bytes, and the frame is a whole number of chunks |
| Raster.Skip | src/gol/controller.rs:127-129 | `skip(n)`: the input without its first `n` elements (empty if shorter), element `i` being input element `n + i` |
| Raster.Take | src/gol/controller.rs:130 | `take(n)`: the first `n` elements (all of them if fewer), in order |
| Raster.StepBy | src/gol/controller.rs:128 | `step_by(step)`: the first element, then every step-th one after it; never longer than the input, starts with the input's first element, and only picks input elements |
| Raster.BlockChunks | src/gol/controller.rs:124-130 | the chain `skip(col).step_by(64).skip(10 row).take(10)` over the chunk numbers: at most ten chunks, each inside the frame |
| Raster.StepByColsAt | src/gol/controller.rs:128 | `step_by(64)` keeps element `64 j` as its j-th element |
| Raster.StepByColsCount | src/gol/controller.rs:128 | `step_by(64)` has no j-th element unless `64 j` is inside the input |
| Raster.StridedLength | src/gol/controller.rs:124-128 | after `skip(col)`, the stride yields exactly one chunk per pixel row, 640 |
| Raster.BlockChunksAt | src/gol/controller.rs:124-130 | the chain yields ten chunks, the t-th being pixel row `10 row + t` of column block `col` |
| Raster.SquareOfByte | src/gol/controller.rs:124-130 | every frame byte lies in the block of an in-grid square |
| Raster.Rendered | src/gol/controller.rs:118-170 | the frame `display` leaves: `FrameLength` bytes, byte `i` being channel `i % 4` of red when its pixel lies in a living square's block and 0x00 otherwise |
| Raster.PixelColour | src/gol/controller.rs:118-169 | channel `ch` of pixel `(py, px)` in the rendered frame is red's channel when square `(py/10, px/10)` is living, and 0x00 otherwise |
| Raster.SquareOfChunk | src/gol/controller.rs:124-128 | a byte's square is read off its chunk number: row block `k / 64 / 10`, column `k % 64` |
| Raster.BlockIsChunks | src/gol/controller.rs:124-130 | a byte lies in square `(r, c)`'s block exactly when it lies in one of the ten chunks the chain picks |
| Raster.ChunkStart | src/gol/controller.rs:124 | every chunk lies inside the frame and starts on a pixel boundary |
| Raster.NextChunk | src/gol/controller.rs:126-132 | the t-th picked chunk lies in the frame and adds exactly its own bytes to the bytes painted so far |
| Raster.ChunkPainted | src/gol/controller.rs:132-170 | painting the next picked chunk extends the painted part of the square by that chunk |
| Raster.BlockPainted | src/gol/controller.rs:132-170 | once the ten picked chunks are painted, exactly the square's block is red |
| Raster.FillBytes | src/gol/controller.rs:119 | the filled range holds the value and every other byte is unchanged |
| Raster.FillChannel | src/gol/controller.rs:155-169 | channel `offset` of each of the chunk's ten pixels holds the value; every other byte is unchanged |
| Raster.PaintChunk | src/gol/controller.rs:133-169 | a chunk's bytes take red's channels by position within the pixel; the rest of the frame is unchanged |
| Raster.PickChunks | src/gol/controller.rs:124-130 | the chain's chunks for a square are the ten pixel rows of its block, top to bottom |
| Raster.PaintSquare | src/gol/controller.rs:123-170 | exactly the bytes of the square's block become red's channels; every other byte is unchanged |

## Left out

- `src/main.rs` is not part of this model: the event loop, keyboard and mouse polling, frame pacing and error logging.
- The window and the `pixels` surface are not modelled. This covers the surface setup in `Controller::new`, `resize_window`, and the `render()` call with its error that ends `display`. The frame is a byte array owned by the controller. Its contents before the first `Display` are not specified, because `Display` clears it first.
- The unused colour constants and the RGBA struct inside `display` are not modelled; only the red value is.
- Controllers.SquareIndex: models the `f32` division and `floor` with exact reals. It does not model `f32` rounding, and models the saturating `as usize` cast only for negative values, not for NaN or overflow.
- Controllers.Controller.ManualSet, Controllers.Controller.ManualUnset: require the computed offset to be inside the grid, where the code would panic. Like the code, they do not reject a column of `cols` or more: only the flat offset is bounds-checked, so such a click changes a square of the next row (`ClickPastLastColumn`).
- Unbounded integers: `row * cols + col` never overflows `usize` in the model.
- Grids.Grid.CellNeighboursAt: returns a new sequence instead of clearing and refilling a caller's `Vec`. The list holds cell values rather than references into the grid.
- Grids.Grid.CellAt: returns the cell value rather than a reference.
- Controllers.Controller.Generate, Controllers.Controller.ComputeNext, Controllers.Controller.CopyLiving, Controllers.NextStateAt: require the grid passed to be 64×64, because the loops run over the fixed 64×64 bounds. `Generate` also requires that the visible grid is not the scratch grid, which Rust's borrow rules guarantee.
- Controllers.Controller.Display: requires a 64×64 grid, for the same reason.
- `Generate` and `Display` are split into helper methods (`ComputeNext`, `CopyLiving`, `NextStateAt`, `PaintSquare`, `PickChunks`, `PaintChunk`, `FillChannel`). Each helper is one loop body or loop of the code, in the same order.
- The iterator chain of `display` is modelled on chunk numbers (`BlockChunks`). The mutable chunk slices it yields are modelled as the byte ranges `40 k .. 40 k + 40`.
- Aliasing between the grid references a `GridIterator` holds and later writes is not modelled beyond the `const` field. Rust's borrow rules rule it out.
