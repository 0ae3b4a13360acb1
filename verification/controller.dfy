/**
 * The game controller (src/gol/controller.rs): the pause flag, the seeding of
 * the board, one generation computed into a scratch grid and copied back,
 * edits at the mouse position, and the frame drawn from a board.
 */
module Controllers {
  import opened Cells
  import opened Grids
  import opened Rules
  import opened Patterns
  import opened Dimensions
  import opened Raster
  import Arith

  // ---------------------------------------------------------------------
  // Seeding
  // ---------------------------------------------------------------------

  /** The squares `initialise_game` brings to life, in the order it sets them. */
  const SeedSquares: seq<Coord> := [(2, 2), (2, 3), (2, 4)]

  /** `cells` after setting each listed square to `state` in turn. */
  function SetSquares(cells: seq<Cell>, rows: nat, cols: nat, squares: seq<Coord>, state: CellState): (r: seq<Cell>)
    requires |cells| == rows * cols && InGrid(squares, rows, cols)
    ensures |r| == |cells|
  {
    if squares == [] then cells
    else
      var last := squares[|squares| - 1];
      SetSquares(cells, rows, cols, squares[..|squares| - 1], state)[Offset(rows, cols, last) := Cell(state)]
  }

  /** After the updates, a listed square holds `state` and every other square is as it was. */
  lemma {:induction false} SetSquaresAt(cells: seq<Cell>, rows: nat, cols: nat, squares: seq<Coord>, state: CellState, x: Coord)
    requires |cells| == rows * cols && InGrid(squares, rows, cols) && x.0 < rows && x.1 < cols
    ensures SetSquares(cells, rows, cols, squares, state)[Offset(rows, cols, x)]
            == if x in squares then Cell(state) else cells[Offset(rows, cols, x)]
    decreases |squares|
  {
    if squares != [] {
      var prefix, last := squares[..|squares| - 1], squares[|squares| - 1];
      assert InGrid(prefix, rows, cols);
      SetSquaresAt(cells, rows, cols, prefix, state, x);
      SetTouchesOneSquare(SetSquares(cells, rows, cols, prefix, state), rows, cols, last, x, Cell(state));
      assert squares == prefix + [last];
      InAppend(prefix, [last], x);
    }
  }

  /** Setting one more square of the list is one more update. */
  lemma SetSquaresStep(cells: seq<Cell>, rows: nat, cols: nat, squares: seq<Coord>, i: nat, state: CellState)
    requires |cells| == rows * cols && InGrid(squares, rows, cols) && i < |squares|
    ensures InGrid(squares[..i], rows, cols) && InGrid(squares[..i + 1], rows, cols)
    ensures SetSquares(cells, rows, cols, squares[..i + 1], state)
            == SetSquares(cells, rows, cols, squares[..i], state)[Offset(rows, cols, squares[i]) := Cell(state)]
  {
    assert squares[..i + 1][..i] == squares[..i];
  }

  /** `set_cell_at` on each listed square in turn. */
  method SetEach(grid: Grid, squares: seq<Coord>, state: CellState)
    requires grid.Valid() && InGrid(squares, grid.rows, grid.cols)
    modifies grid
    ensures grid.Valid()
    ensures grid.cells == SetSquares(old(grid.cells), grid.rows, grid.cols, squares, state)
  {
    var i := 0;
    while i < |squares|
      invariant i <= |squares| && grid.Valid()
      invariant InGrid(squares[..i], grid.rows, grid.cols)
      invariant grid.cells == SetSquares(old(grid.cells), grid.rows, grid.cols, squares[..i], state)
    {
      var row, col := squares[i].0, squares[i].1;
      ghost var before := SetSquares(old(grid.cells), grid.rows, grid.cols, squares[..i], state);
      SetSquaresStep(old(grid.cells), grid.rows, grid.cols, squares, i, state);
      Arith.IndexInBounds(row, col, grid.rows, grid.cols);
      assert Offset(grid.rows, grid.cols, squares[i]) == row * grid.cols + col;
      grid.SetCellAt(row, col, state);
      assert grid.cells == before[row * grid.cols + col := Cell(state)];
      i := i + 1;
    }
    assert squares[..i] == squares;
  }

  /**
   * On the empty board the controller starts with, the seed is a horizontal
   * bar of three centred on (2, 3); it turns vertical after one generation
   * and is back after two.
   */
  lemma SeedIsBlinker()
    ensures SetSquares(DeadCells(GridRows * GridCols), GridRows, GridCols, SeedSquares, Alive)
            == Pattern(GridRows, GridCols, HorizontalBar(2, 3))
    ensures NextGeneration(Pattern(GridRows, GridCols, HorizontalBar(2, 3)), GridRows, GridCols)
            == Pattern(GridRows, GridCols, VerticalBar(2, 3))
    ensures NextGeneration(NextGeneration(Pattern(GridRows, GridCols, HorizontalBar(2, 3)), GridRows, GridCols), GridRows, GridCols)
            == Pattern(GridRows, GridCols, HorizontalBar(2, 3))
  {
    var seeded := SetSquares(DeadCells(GridRows * GridCols), GridRows, GridCols, SeedSquares, Alive);
    var bar := Pattern(GridRows, GridCols, HorizontalBar(2, 3));
    forall x: Coord | x.0 < GridRows && x.1 < GridCols
      ensures seeded[Offset(GridRows, GridCols, x)] == bar[Offset(GridRows, GridCols, x)]
    {
      SetSquaresAt(DeadCells(GridRows * GridCols), GridRows, GridCols, SeedSquares, Alive, x);
      assert x in SeedSquares <==> x in HorizontalBar(2, 3);
    }
    EqualBySquares(seeded, bar, GridRows, GridCols);
    BlinkerOscillates(GridRows, GridCols, 2, 3);
  }

  // ---------------------------------------------------------------------
  // Mouse positions
  // ---------------------------------------------------------------------

  /**
   * `(v / GRID_CELL_PIXELS as f32).floor() as usize`: the square index under
   * pixel coordinate `v`; the cast saturates, so a negative coordinate gives 0.
   */
  function SquareIndex(v: real): (i: nat)
    ensures v < 0.0 ==> i == 0
    ensures 0.0 <= v ==> (i as real) * (CellPixels as real) <= v < (i as real + 1.0) * (CellPixels as real)
  {
    var f := (v / CellPixels as real).Floor;
    if f < 0 then 0 else f
  }

  /** The pixel (15, 25) lies in the block of the square at row 2, column 1. */
  lemma ClickExample()
    ensures (SquareIndex(25.0), SquareIndex(15.0)) == (2, 1)
  {
    assert SquareIndex(25.0) == 2 by {
      assert 2.0 * 10.0 <= 25.0 < 3.0 * 10.0;
    }
    assert SquareIndex(15.0) == 1 by {
      assert 1.0 * 10.0 <= 15.0 < 2.0 * 10.0;
    }
  }

  /**
   * Only the flat offset is bounds-checked: the pixel at x = 645, y = 5 lies
   * past the last column, yet its offset is in range and is that of square
   * (1, 0), so a click there changes the first square of the next row.
   */
  lemma ClickPastLastColumn()
    ensures SquareIndex(645.0) == GridCols
    ensures SquareIndex(5.0) * GridCols + SquareIndex(645.0) < GridRows * GridCols
    ensures SquareIndex(5.0) * GridCols + SquareIndex(645.0) == Offset(GridRows, GridCols, (1, 0))
  {
    assert SquareIndex(645.0) == 64 by {
      assert 64.0 * 10.0 <= 645.0 < 65.0 * 10.0;
    }
    assert SquareIndex(5.0) == 0 by {
      assert 0.0 * 10.0 <= 5.0 < 1.0 * 10.0;
    }
  }

  // ---------------------------------------------------------------------
  // One square of a generation
  // ---------------------------------------------------------------------

  /**
   * The body of the inner loop of `generate`: the cell at `(row, col)`, its
   * neighbour list, the number of living cells in that list, and the rule
   * applied to the two.
   */
  method NextStateAt(display: Grid, row: nat, col: nat) returns (newState: CellState)
    requires display.Valid() && display.rows == GridRows && display.cols == GridCols
    requires row < GridRows && col < GridCols
    ensures Cell(newState) == NextCell(display.cells, GridRows, GridCols, row, col)
  {
    var cell := display.CellAt(row, col);
    var neighbours := display.CellNeighboursAt(row, col);
    var livingNeighbours := LivingCount(neighbours);
    newState := NextState(cell, livingNeighbours);
  }

  // ---------------------------------------------------------------------
  // The controller
  // ---------------------------------------------------------------------

  /**
   * `Controller`: the pause flag, the scratch grid `generate` computes into,
   * and the RGBA8 frame of PixelRows × PixelCols pixels the window shows.
   */
  class Controller {
    var paused: bool
    const calculationGrid: Grid
    const frame: array<byte>

    ghost predicate Valid()
      reads this, calculationGrid
    {
      calculationGrid.Valid() && calculationGrid.rows == GridRows && calculationGrid.cols == GridCols
      && frame.Length == FrameLength
    }

    /** `Controller::new`, without the window: paused, with an empty 64×64 scratch grid. */
    constructor ()
      ensures Valid() && paused && fresh(calculationGrid) && fresh(frame)
      ensures calculationGrid.cells == DeadCells(GridRows * GridCols)
    {
      paused := true;
      calculationGrid := new Grid(GridRows, GridCols);
      frame := new byte[FrameLength];
    }

    /** `paused`. */
    function Paused(): (b: bool)
      reads this
      ensures b <==> paused
    {
      paused
    }

    /** `pause`: only the flag changes. */
    method Pause()
      requires Valid()
      modifies this
      ensures Valid() && paused
    {
      paused := true;
    }

    /** `unpause`: only the flag changes. */
    method Unpause()
      requires Valid()
      modifies this
      ensures Valid() && !paused
    {
      paused := false;
    }

    /**
     * `initialise_game`: the seed squares are set Alive on the scratch grid,
     * one after another, and a copy of the scratch grid is returned.
     */
    method InitialiseGame() returns (grid: Grid)
      requires Valid()
      modifies calculationGrid
      ensures Valid()
      ensures calculationGrid.cells == SetSquares(old(calculationGrid.cells), GridRows, GridCols, SeedSquares, Alive)
      ensures fresh(grid) && grid.Valid() && grid.rows == GridRows && grid.cols == GridCols
      ensures grid.cells == calculationGrid.cells
    {
      assert InGrid(SeedSquares, GridRows, GridCols);
      SetEach(calculationGrid, SeedSquares, Alive);
      grid := calculationGrid.Clone();
    }

    /**
     * `generate`: when paused, nothing changes. Otherwise the scratch grid is
     * cleared and filled, square by square in row-major order, with the next
     * state of each square of `display` read from the unchanged board; then
     * `display` is cleared and the living squares of the scratch grid are set
     * Alive on it. Both grids end holding the next generation.
     */
    method Generate(display: Grid)
      requires Valid() && display.Valid() && display.rows == GridRows && display.cols == GridCols
      requires display != calculationGrid
      modifies calculationGrid, display
      ensures Valid() && display.Valid()
      ensures paused ==> unchanged(calculationGrid, display)
      ensures !paused ==> calculationGrid.cells == NextGeneration(old(display.cells), GridRows, GridCols)
      ensures !paused ==> display.cells == calculationGrid.cells
    {
      if paused {
        return;
      }
      ComputeNext(display);
      CopyLiving(display);
    }

    /**
     * The first half of `generate`: the scratch grid is cleared, then each
     * square in row-major order takes the next state of the same square of
     * `display`, computed from its cell and its neighbour list.
     */
    method ComputeNext(display: Grid)
      requires Valid() && display.Valid() && display.rows == GridRows && display.cols == GridCols
      requires display != calculationGrid
      modifies calculationGrid
      ensures Valid()
      ensures calculationGrid.cells == NextGeneration(display.cells, GridRows, GridCols)
    {
      calculationGrid.KillAll();
      ghost var next := NextGeneration(display.cells, GridRows, GridCols);
      var row := 0;
      while row < GridRows
        invariant row <= GridRows && Valid()
        invariant forall i :: 0 <= i < row * GridCols ==> calculationGrid.cells[i] == next[i]
      {
        var col := 0;
        while col < GridCols
          invariant col <= GridCols && Valid()
          invariant forall i :: 0 <= i < row * GridCols + col ==> calculationGrid.cells[i] == next[i]
        {
          var newState := NextStateAt(display, row, col);
          ghost var k := Offset(GridRows, GridCols, (row, col));
          assert k == row * GridCols + col && Cell(newState) == next[k];
          ghost var before := calculationGrid.cells;
          calculationGrid.SetCellAt(row, col, newState);
          assert calculationGrid.cells == before[k := next[k]];
          col := col + 1;
        }
        row := row + 1;
      }
    }

    /**
     * The second half of `generate`: `display` is cleared and every living
     * square met in a traversal of the scratch grid is set Alive on it.
     */
    method CopyLiving(display: Grid)
      requires Valid() && display.Valid() && display.rows == GridRows && display.cols == GridCols
      requires display != calculationGrid
      modifies display
      ensures display.Valid() && display.cells == calculationGrid.cells
    {
      display.KillAll();
      var it := calculationGrid.Iter();
      while true
        invariant display.Valid() && fresh(it) && it.grid == calculationGrid && it.idx <= |calculationGrid.cells|
        invariant forall i :: 0 <= i < |display.cells| ==>
                    display.cells[i] == if i < it.idx then calculationGrid.cells[i] else Cell(Dead)
        decreases |calculationGrid.cells| - it.idx
      {
        var item := it.Next();
        if item.None? {
          break;
        }
        var (r, c, cell) := item.value;
        if cell.Living() {
          display.SetCellAt(r, c, Alive);
        }
      }
    }

    /**
     * `manual_set`: the cell at offset `SquareIndex(y) * cols + SquareIndex(x)` becomes
     * Alive. Only that offset is bounds-checked, so a column past the last one
     * lands in the next row (`ClickPastLastColumn`).
     */
    method ManualSet(grid: Grid, x: real, y: real)
      requires grid.Valid() && SquareIndex(y) * grid.cols + SquareIndex(x) < grid.rows * grid.cols
      modifies grid
      ensures grid.Valid()
      ensures grid.cells == old(grid.cells)[SquareIndex(y) * grid.cols + SquareIndex(x) := Cell(Alive)]
    {
      var row := SquareIndex(y);
      var col := SquareIndex(x);
      grid.SetCellAt(row, col, Alive);
    }

    /**
     * `manual_unset`: the cell at offset `SquareIndex(y) * cols + SquareIndex(x)` becomes
     * Dead. Only that offset is bounds-checked, so a column past the last one
     * lands in the next row (`ClickPastLastColumn`).
     */
    method ManualUnset(grid: Grid, x: real, y: real)
      requires grid.Valid() && SquareIndex(y) * grid.cols + SquareIndex(x) < grid.rows * grid.cols
      modifies grid
      ensures grid.Valid()
      ensures grid.cells == old(grid.cells)[SquareIndex(y) * grid.cols + SquareIndex(x) := Cell(Dead)]
    {
      var row := SquareIndex(y);
      var col := SquareIndex(x);
      grid.SetCellAt(row, col, Dead);
    }

    /**
     * `display`, up to the hand-over to the renderer: the frame is cleared to
     * 0x00, then the ten pixel rows of every living square's block are painted
     * Red. The frame ends as the picture of `grid`.
     */
    method Display(grid: Grid)
      requires Valid() && grid.Valid() && grid.rows == GridRows && grid.cols == GridCols
      modifies frame
      ensures Valid()
      ensures frame[..] == Rendered(grid.cells)
    {
      FillBytes(frame, 0, frame.Length, 0);
      var it := grid.Iter();
      while true
        invariant fresh(it) && it.grid == grid && it.idx <= |grid.cells|
        invariant forall i :: 0 <= i < FrameLength ==> frame[i] == Painted(grid.cells, it.idx, i)
        decreases |grid.cells| - it.idx
      {
        ghost var k := it.idx;
        var item := it.Next();
        if item.None? {
          break;
        }
        var (gridRow, gridCol, cell) := item.value;
        assert (gridRow, gridCol) == (k / GridCols, k % GridCols);
        if cell.Living() {
          PaintSquare(frame, gridRow, gridCol);
          forall i | 0 <= i < FrameLength ensures frame[i] == Painted(grid.cells, k + 1, i) {
            OffsetRoundTrip(GridRows, GridCols, k);
          }
        }
      }
      assert frame[..] == Rendered(grid.cells);
    }

  }
}
