/**
 * The fixed birth/survival rule and the generation it produces, evaluated on
 * the pre-step board only (src/gol/controller.rs, `generate`).
 */
module Rules {
  import opened Cells
  import opened Grids
  import Arith

  /** `neighbours.iter().filter(|cell| cell.living()).count()`. */
  function LivingCount(ns: seq<Cell>): (n: nat)
    ensures n <= |ns|
    ensures n == 0 <==> forall i :: 0 <= i < |ns| ==> !ns[i].Living()
    ensures n == |ns| <==> forall i :: 0 <= i < |ns| ==> ns[i].Living()
  {
    if ns == [] then 0
    else LivingCount(ns[..|ns| - 1]) + (if ns[|ns| - 1].Living() then 1 else 0)
  }

  /**
   * The rule table: a living cell with 2 or 3 living neighbours survives and
   * dies with any other count; a dead cell is born with exactly 3.
   */
  function NextState(cell: Cell, livingNeighbours: nat): (s: CellState)
    ensures cell.Living() ==> (s == Alive <==> livingNeighbours == 2 || livingNeighbours == 3)
    ensures !cell.Living() ==> (s == Alive <==> livingNeighbours == 3)
  {
    if cell.Living() && (livingNeighbours < 2 || livingNeighbours > 3) then
      Dead      // under- or overpopulation
    else if cell.Living() && (livingNeighbours == 2 || livingNeighbours == 3) then
      Alive     // survival
    else if !cell.Living() && livingNeighbours == 3 then
      Alive     // birth
    else
      Dead
  }

  /** The next state of `(row, col)`, read from `cells` alone. */
  function NextCell(cells: seq<Cell>, rows: nat, cols: nat, row: nat, col: nat): Cell
    requires 1 <= rows && 1 <= cols && |cells| == rows * cols && row < rows && col < cols
  {
    Cell(NextState(cells[Offset(rows, cols, (row, col))], LivingCount(NeighbourCells(cells, rows, cols, row, col))))
  }

  /** The whole next generation, each cell computed from the current board only. */
  function NextGeneration(cells: seq<Cell>, rows: nat, cols: nat): (next: seq<Cell>)
    requires 1 <= rows && 1 <= cols && |cells| == rows * cols
    ensures |next| == |cells|
    ensures forall x: Coord :: x.0 < rows && x.1 < cols ==>
              next[Offset(rows, cols, x)] == NextCell(cells, rows, cols, x.0, x.1)
  {
    seq(rows * cols, i requires 0 <= i < rows * cols => NextCellAt(cells, rows, cols, i))
  }

  /** The next state of the cell stored at index `i`. */
  function NextCellAt(cells: seq<Cell>, rows: nat, cols: nat, i: nat): Cell
    requires 1 <= rows && 1 <= cols && |cells| == rows * cols && i < rows * cols
  {
    Arith.QuotientInRange(i, rows, cols);
    NextCell(cells, rows, cols, i / cols, i % cols)
  }

  /** The neighbour list of a square whose in-grid neighbours are all Dead has no living cell. */
  lemma NoLivingNeighbours(cells: seq<Cell>, rows: nat, cols: nat, row: nat, col: nat)
    requires 1 <= rows && 1 <= cols && |cells| == rows * cols
    requires forall x: Coord :: x.0 < rows && x.1 < cols && Adjacent(x, (row, col)) ==>
               !cells[Offset(rows, cols, x)].Living()
    ensures LivingCount(NeighbourCells(cells, rows, cols, row, col)) == 0
  {
    var n := NeighbourCoords(rows, cols, row, col);
    NeighbourWindow(rows, cols, row, col);
    CellsAtIndex(cells, rows, cols, n);
    forall i | 0 <= i < |n| ensures !NeighbourCells(cells, rows, cols, row, col)[i].Living() {
      assert n[i] in n;
    }
  }

  /** An empty board stays empty. */
  lemma AllDeadStaysDead(rows: nat, cols: nat)
    requires 1 <= rows && 1 <= cols
    ensures NextGeneration(DeadCells(rows * cols), rows, cols) == DeadCells(rows * cols)
  {
    var next := NextGeneration(DeadCells(rows * cols), rows, cols);
    forall i | 0 <= i < rows * cols ensures next[i] == Cell(Dead) {
      OffsetRoundTrip(rows, cols, i);
      DeadSquareStaysDead(rows, cols, (i / cols, i % cols));
    }
  }

  lemma DeadSquareStaysDead(rows: nat, cols: nat, x: Coord)
    requires 1 <= rows && 1 <= cols && x.0 < rows && x.1 < cols
    ensures NextGeneration(DeadCells(rows * cols), rows, cols)[Offset(rows, cols, x)] == Cell(Dead)
  {
    NoLivingNeighbours(DeadCells(rows * cols), rows, cols, x.0, x.1);
  }

  /**
   * The next state of a square depends only on the current square and its
   * in-grid neighbours: two boards that agree there agree on it, however the
   * rest of the board (or the order of evaluation) differs.
   */
  lemma NextCellDependsOnWindow(a: seq<Cell>, b: seq<Cell>, rows: nat, cols: nat, row: nat, col: nat)
    requires 1 <= rows && 1 <= cols && |a| == rows * cols && |b| == rows * cols
    requires row < rows && col < cols
    requires a[Offset(rows, cols, (row, col))] == b[Offset(rows, cols, (row, col))]
    requires forall x: Coord :: x.0 < rows && x.1 < cols && Adjacent(x, (row, col)) ==>
               a[Offset(rows, cols, x)] == b[Offset(rows, cols, x)]
    ensures NextGeneration(a, rows, cols)[Offset(rows, cols, (row, col))] ==
            NextGeneration(b, rows, cols)[Offset(rows, cols, (row, col))]
  {
    var n := NeighbourCoords(rows, cols, row, col);
    NeighbourWindow(rows, cols, row, col);
    CellsAtIndex(a, rows, cols, n);
    CellsAtIndex(b, rows, cols, n);
    forall i | 0 <= i < |n| ensures NeighbourCells(a, rows, cols, row, col)[i] == NeighbourCells(b, rows, cols, row, col)[i] {
      assert n[i] in n;
    }
    assert NeighbourCells(a, rows, cols, row, col) == NeighbourCells(b, rows, cols, row, col);
  }

  /** A living cell with no living neighbour dies: underpopulation. */
  lemma LoneCellDies(rows: nat, cols: nat, row: nat, col: nat)
    requires row < rows && col < cols
    ensures NextGeneration(DeadCells(rows * cols)[Offset(rows, cols, (row, col)) := Cell(Alive)], rows, cols)
              [Offset(rows, cols, (row, col))] == Cell(Dead)
  {
    var cells := DeadCells(rows * cols)[Offset(rows, cols, (row, col)) := Cell(Alive)];
    NoLivingNeighbours(cells, rows, cols, row, col);
  }

  /**
   * The board does not wrap around: on a board of at least 3×3, the three
   * squares that would touch the top-left corner on a torus are not its
   * neighbours, so with only those alive the corner is not born.
   */
  lemma NoWrapAround(rows: nat, cols: nat)
    requires 3 <= rows && 3 <= cols
    ensures var cells := DeadCells(rows * cols)
                           [Offset(rows, cols, (rows - 1, cols - 1)) := Cell(Alive)]
                           [Offset(rows, cols, (rows - 1, 0)) := Cell(Alive)]
                           [Offset(rows, cols, (0, cols - 1)) := Cell(Alive)];
            LivingCount(NeighbourCells(cells, rows, cols, 0, 0)) == 0 &&
            NextGeneration(cells, rows, cols)[Offset(rows, cols, (0, 0))] == Cell(Dead)
  {
    var cells := DeadCells(rows * cols)
                   [Offset(rows, cols, (rows - 1, cols - 1)) := Cell(Alive)]
                   [Offset(rows, cols, (rows - 1, 0)) := Cell(Alive)]
                   [Offset(rows, cols, (0, cols - 1)) := Cell(Alive)];
    NoLivingNeighbours(cells, rows, cols, 0, 0);
  }
}
