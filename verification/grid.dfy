/**
 * The board: a fixed, row-major dense array of cells with indexed access, a
 * clamped Moore-neighbourhood query, a full reset and a row-major traversal
 * (src/gol/grid.rs).
 */
module Grids {
  import opened Cells
  import Arith

  /** A (row, column) pair. */
  type Coord = (nat, nat)

  datatype Option<T> = None | Some(value: T)

  /** `n` Dead cells, as `vec![Cell { state: Dead }; n]` builds them. */
  function DeadCells(n: nat): (cells: seq<Cell>)
    ensures |cells| == n
    ensures forall k :: 0 <= k < n ==> !cells[k].Living()
  {
    seq(n, _ => Cell(Dead))
  }

  /** The row-major offset of an in-range coordinate; it decodes back to the coordinate. */
  function Offset(rows: nat, cols: nat, x: Coord): (i: nat)
    requires x.0 < rows && x.1 < cols
    ensures i < rows * cols
    ensures i / cols == x.0 && i % cols == x.1
  {
    Arith.IndexInBounds(x.0, x.1, rows, cols);
    Arith.DivModOf(x.0 * cols + x.1, cols, x.0, x.1);
    x.0 * cols + x.1
  }

  /** Every offset inside the array is the offset of the coordinate it decodes to. */
  lemma OffsetRoundTrip(rows: nat, cols: nat, i: nat)
    requires i < rows * cols
    ensures 0 < cols && i / cols < rows && i % cols < cols
    ensures Offset(rows, cols, (i / cols, i % cols)) == i
  {
    Arith.QuotientInRange(i, rows, cols);
  }

  /** Two boards of the same size that agree on every square are equal. */
  lemma EqualBySquares(a: seq<Cell>, b: seq<Cell>, rows: nat, cols: nat)
    requires |a| == rows * cols && |b| == rows * cols
    requires forall x: Coord :: x.0 < rows && x.1 < cols ==> a[Offset(rows, cols, x)] == b[Offset(rows, cols, x)]
    ensures a == b
  {
    forall i | 0 <= i < rows * cols ensures a[i] == b[i] {
      OffsetRoundTrip(rows, cols, i);
      var x: Coord := (i / cols, i % cols);
      assert a[Offset(rows, cols, x)] == b[Offset(rows, cols, x)];
    }
  }

  /**
   * Writing the cell at one square's offset, as `set_cell_at` does, changes
   * what that square holds and no other square's cell.
   */
  lemma SetTouchesOneSquare(cells: seq<Cell>, rows: nat, cols: nat, x: Coord, y: Coord, c: Cell)
    requires |cells| == rows * cols && x.0 < rows && x.1 < cols && y.0 < rows && y.1 < cols
    ensures cells[Offset(rows, cols, x) := c][Offset(rows, cols, y)] == if x == y then c else cells[Offset(rows, cols, y)]
  {
  }

  // ---------------------------------------------------------------------
  // The Moore neighbourhood, clamped at the edges
  // ---------------------------------------------------------------------

  /** `i.checked_sub(1).unwrap_or_default()`: one less, but never below 0. */
  function PrevIndex(i: nat): (p: nat)
    ensures p <= i <= p + 1
    ensures p == i <==> i == 0
  {
    if i == 0 then 0 else i - 1
  }

  /** `min(n - 1, i + 1)`; `n - 1` would underflow for `n == 0`. */
  function LastIndex(n: nat, i: nat): (last: nat)
    requires 1 <= n
    ensures last < n && last <= i + 1
    ensures last == n - 1 || last == i + 1
  {
    if n - 1 < i + 1 then n - 1 else i + 1
  }

  /** The coordinates `(r, c)` for `c0 <= c < cEnd`, ascending, leaving out `centre`. */
  function RowCoords(r: nat, c0: nat, cEnd: nat, centre: Coord): seq<Coord>
    decreases cEnd
  {
    if cEnd <= c0 then []
    else RowCoords(r, c0, cEnd - 1, centre) + (if (r, cEnd - 1) == centre then [] else [(r, cEnd - 1)])
  }

  /** The rows `r0 <= r < rEnd` of the window, each by `RowCoords`, top to bottom. */
  function WindowCoords(r0: nat, rEnd: nat, c0: nat, cEnd: nat, centre: Coord): seq<Coord>
    decreases rEnd
  {
    if rEnd <= r0 then []
    else WindowCoords(r0, rEnd - 1, c0, cEnd, centre) + RowCoords(rEnd - 1, c0, cEnd, centre)
  }

  /**
   * The coordinates `cell_neighbours_at(row, col)` visits, in its order: the
   * window from `PrevIndex` to `LastIndex` in both directions, row by row,
   * skipping `(row, col)` itself.
   */
  function NeighbourCoords(rows: nat, cols: nat, row: nat, col: nat): seq<Coord>
    requires 1 <= rows && 1 <= cols
  {
    WindowCoords(PrevIndex(row), LastIndex(rows, row) + 1, PrevIndex(col), LastIndex(cols, col) + 1, (row, col))
  }

  /** `x` is one of the (up to) eight squares touching `y`, ignoring the board's edges. */
  predicate Adjacent(x: Coord, y: Coord)
  {
    x != y && x.0 <= y.0 + 1 && y.0 <= x.0 + 1 && x.1 <= y.1 + 1 && y.1 <= x.1 + 1
  }

  /** Strict row-major order. */
  predicate Before(x: Coord, y: Coord)
  {
    x.0 < y.0 || (x.0 == y.0 && x.1 < y.1)
  }

  predicate RowMajorSorted(s: seq<Coord>)
  {
    forall i, j :: 0 <= i < j < |s| ==> Before(s[i], s[j])
  }

  predicate InGrid(coords: seq<Coord>, rows: nat, cols: nat)
  {
    forall i :: 0 <= i < |coords| ==> coords[i].0 < rows && coords[i].1 < cols
  }

  lemma {:induction false} RowCoordsMembers(r: nat, c0: nat, cEnd: nat, centre: Coord, x: Coord)
    ensures x in RowCoords(r, c0, cEnd, centre) <==> x.0 == r && c0 <= x.1 < cEnd && x != centre
    decreases cEnd
  {
    if c0 < cEnd {
      RowCoordsMembers(r, c0, cEnd - 1, centre, x);
    }
  }

  lemma {:induction false} WindowCoordsMembers(r0: nat, rEnd: nat, c0: nat, cEnd: nat, centre: Coord, x: Coord)
    ensures x in WindowCoords(r0, rEnd, c0, cEnd, centre) <==>
              r0 <= x.0 < rEnd && c0 <= x.1 < cEnd && x != centre
    decreases rEnd
  {
    if r0 < rEnd {
      var above, last := WindowCoords(r0, rEnd - 1, c0, cEnd, centre), RowCoords(rEnd - 1, c0, cEnd, centre);
      assert WindowCoords(r0, rEnd, c0, cEnd, centre) == above + last;
      WindowCoordsMembers(r0, rEnd - 1, c0, cEnd, centre, x);
      RowCoordsMembers(rEnd - 1, c0, cEnd, centre, x);
      InAppend(above, last, x);
    }
  }

  lemma InAppend(a: seq<Coord>, b: seq<Coord>, x: Coord)
    ensures x in a + b <==> x in a || x in b
  {
  }

  lemma {:induction false} RowCoordsLength(r: nat, c0: nat, cEnd: nat, centre: Coord)
    requires c0 <= cEnd
    ensures |RowCoords(r, c0, cEnd, centre)| ==
              cEnd - c0 - (if centre.0 == r && c0 <= centre.1 < cEnd then 1 else 0)
    decreases cEnd
  {
    if c0 < cEnd {
      RowCoordsLength(r, c0, cEnd - 1, centre);
    }
  }

  lemma {:induction false} WindowCoordsLength(r0: nat, rEnd: nat, c0: nat, cEnd: nat, centre: Coord)
    requires r0 <= rEnd && c0 <= cEnd
    ensures |WindowCoords(r0, rEnd, c0, cEnd, centre)| ==
              (rEnd - r0) * (cEnd - c0) - (if r0 <= centre.0 < rEnd && c0 <= centre.1 < cEnd then 1 else 0)
    decreases rEnd
  {
    if r0 < rEnd {
      WindowCoordsLength(r0, rEnd - 1, c0, cEnd, centre);
      RowCoordsLength(rEnd - 1, c0, cEnd, centre);
      assert (rEnd - r0) * (cEnd - c0) == (rEnd - 1 - r0) * (cEnd - c0) + (cEnd - c0);
    }
  }

  lemma {:induction false} RowCoordsSorted(r: nat, c0: nat, cEnd: nat, centre: Coord)
    ensures RowMajorSorted(RowCoords(r, c0, cEnd, centre))
    decreases cEnd
  {
    if c0 < cEnd {
      var prev := RowCoords(r, c0, cEnd - 1, centre);
      var s := RowCoords(r, c0, cEnd, centre);
      RowCoordsSorted(r, c0, cEnd - 1, centre);
      forall i, j | 0 <= i < j < |s| ensures Before(s[i], s[j]) {
        if j >= |prev| {
          assert s[i] == prev[i] && s[j] == (r, cEnd - 1);
          RowCoordsMembers(r, c0, cEnd - 1, centre, prev[i]);
        }
      }
    }
  }

  lemma {:induction false} WindowCoordsSorted(r0: nat, rEnd: nat, c0: nat, cEnd: nat, centre: Coord)
    ensures RowMajorSorted(WindowCoords(r0, rEnd, c0, cEnd, centre))
    decreases rEnd
  {
    if r0 < rEnd {
      var prev := WindowCoords(r0, rEnd - 1, c0, cEnd, centre);
      var last := RowCoords(rEnd - 1, c0, cEnd, centre);
      var s := WindowCoords(r0, rEnd, c0, cEnd, centre);
      WindowCoordsSorted(r0, rEnd - 1, c0, cEnd, centre);
      RowCoordsSorted(rEnd - 1, c0, cEnd, centre);
      assert s == prev + last;
      forall i, j | 0 <= i < |prev| && 0 <= j < |last| ensures Before(prev[i], last[j]) {
        assert prev[i] in prev && last[j] in last;
        RowsBefore(r0, rEnd - 1, c0, cEnd, centre, prev[i], last[j]);
      }
      SortedConcat(prev, last);
    }
  }

  lemma SortedConcat(a: seq<Coord>, b: seq<Coord>)
    requires RowMajorSorted(a) && RowMajorSorted(b)
    requires forall i, j :: 0 <= i < |a| && 0 <= j < |b| ==> Before(a[i], b[j])
    ensures RowMajorSorted(a + b)
  {
    var s := a + b;
    forall i, j | 0 <= i < j < |s| ensures Before(s[i], s[j]) {
      if i >= |a| {
        assert s[i] == b[i - |a|] && s[j] == b[j - |a|];
      } else if j >= |a| {
        assert s[i] == a[i] && s[j] == b[j - |a|];
      } else {
        assert s[i] == a[i] && s[j] == a[j];
      }
    }
  }

  /** Every coordinate of the rows above `rLast` comes before every coordinate of row `rLast`. */
  lemma RowsBefore(r0: nat, rLast: nat, c0: nat, cEnd: nat, centre: Coord, x: Coord, y: Coord)
    requires x in WindowCoords(r0, rLast, c0, cEnd, centre) && y in RowCoords(rLast, c0, cEnd, centre)
    ensures Before(x, y)
  {
    WindowCoordsMembers(r0, rLast, c0, cEnd, centre, x);
    RowCoordsMembers(rLast, c0, cEnd, centre, y);
  }

  /**
   * The neighbours visited are exactly the in-grid squares touching
   * `(row, col)`: no wrap-around, never the square itself, each once, in
   * row-major order.
   */
  lemma NeighbourWindow(rows: nat, cols: nat, row: nat, col: nat)
    requires 1 <= rows && 1 <= cols
    ensures forall x :: x in NeighbourCoords(rows, cols, row, col) <==>
              x.0 < rows && x.1 < cols && Adjacent(x, (row, col))
    ensures InGrid(NeighbourCoords(rows, cols, row, col), rows, cols)
    ensures RowMajorSorted(NeighbourCoords(rows, cols, row, col))
  {
    var r0, rEnd := PrevIndex(row), LastIndex(rows, row) + 1;
    var c0, cEnd := PrevIndex(col), LastIndex(cols, col) + 1;
    var n := NeighbourCoords(rows, cols, row, col);
    forall x: Coord ensures x in n <==> x.0 < rows && x.1 < cols && Adjacent(x, (row, col)) {
      WindowCoordsMembers(r0, rEnd, c0, cEnd, (row, col), x);
    }
    forall i | 0 <= i < |n| ensures n[i].0 < rows && n[i].1 < cols {
      WindowCoordsMembers(r0, rEnd, c0, cEnd, (row, col), n[i]);
    }
    WindowCoordsSorted(r0, rEnd, c0, cEnd, (row, col));
  }

  /** How many rows (or columns) the clamped window spans around index `i` of `n`. */
  function Span(n: nat, i: nat): nat
  {
    (if i == 0 then 0 else 1) + 1 + (if i + 1 < n then 1 else 0)
  }

  /** The window is `Span × Span` squares, less the centre. */
  lemma NeighbourCount(rows: nat, cols: nat, row: nat, col: nat)
    requires row < rows && col < cols
    ensures |NeighbourCoords(rows, cols, row, col)| == Span(rows, row) * Span(cols, col) - 1
  {
    WindowCoordsLength(PrevIndex(row), LastIndex(rows, row) + 1, PrevIndex(col), LastIndex(cols, col) + 1, (row, col));
  }

  predicate OnBorder(n: nat, i: nat)
  {
    i == 0 || i + 1 == n
  }

  /** On a board of at least 2×2: 3 neighbours at a corner, 5 on an edge, 8 inside. */
  lemma NeighbourCountByPosition(rows: nat, cols: nat, row: nat, col: nat)
    requires 2 <= rows && 2 <= cols && row < rows && col < cols
    ensures OnBorder(rows, row) && OnBorder(cols, col) ==> |NeighbourCoords(rows, cols, row, col)| == 3
    ensures OnBorder(rows, row) != OnBorder(cols, col) ==> |NeighbourCoords(rows, cols, row, col)| == 5
    ensures !OnBorder(rows, row) && !OnBorder(cols, col) ==> |NeighbourCoords(rows, cols, row, col)| == 8
  {
    NeighbourCount(rows, cols, row, col);
    assert Span(rows, row) == if OnBorder(rows, row) then 2 else 3;
    assert Span(cols, col) == if OnBorder(cols, col) then 2 else 3;
  }

  // ---------------------------------------------------------------------
  // Reading the cells at a list of coordinates
  // ---------------------------------------------------------------------

  /** The cells at `coords`, in the order of `coords`. */
  function CellsAt(cells: seq<Cell>, rows: nat, cols: nat, coords: seq<Coord>): seq<Cell>
    requires |cells| == rows * cols && InGrid(coords, rows, cols)
  {
    if coords == [] then []
    else CellsAt(cells, rows, cols, coords[..|coords| - 1]) + [cells[Offset(rows, cols, coords[|coords| - 1])]]
  }

  lemma {:induction false} CellsAtIndex(cells: seq<Cell>, rows: nat, cols: nat, coords: seq<Coord>)
    requires |cells| == rows * cols && InGrid(coords, rows, cols)
    ensures |CellsAt(cells, rows, cols, coords)| == |coords|
    ensures forall i :: 0 <= i < |coords| ==>
              CellsAt(cells, rows, cols, coords)[i] == cells[Offset(rows, cols, coords[i])]
  {
    if coords != [] {
      CellsAtIndex(cells, rows, cols, coords[..|coords| - 1]);
    }
  }

  /**
   * The cells around `(row, col)`, in the order `cell_neighbours_at` pushes
   * them: one cell per visited square.
   */
  function NeighbourCells(cells: seq<Cell>, rows: nat, cols: nat, row: nat, col: nat): (ns: seq<Cell>)
    requires 1 <= rows && 1 <= cols && |cells| == rows * cols
    ensures |ns| == |NeighbourCoords(rows, cols, row, col)|
  {
    NeighbourCoordsInGrid(rows, cols, row, col);
    CellsAtIndex(cells, rows, cols, NeighbourCoords(rows, cols, row, col));
    CellsAt(cells, rows, cols, NeighbourCoords(rows, cols, row, col))
  }

  lemma NeighbourCoordsInGrid(rows: nat, cols: nat, row: nat, col: nat)
    requires 1 <= rows && 1 <= cols
    ensures InGrid(NeighbourCoords(rows, cols, row, col), rows, cols)
  {
    NeighbourWindow(rows, cols, row, col);
  }

  // ---------------------------------------------------------------------
  // Row-major traversal
  // ---------------------------------------------------------------------

  /** The item the traversal yields at position `i`: `(i / cols, i % cols, cells[i])`. */
  function ItemAt(cells: seq<Cell>, cols: nat, i: nat): (item: (nat, nat, Cell))
    requires 0 < cols && i < |cells|
    ensures item.1 < cols && item.0 * cols + item.1 == i
    ensures item.2 == cells[i]
  {
    (i / cols, i % cols, cells[i])
  }

  /** Item `i` of the traversal names an in-grid coordinate and holds the cell stored there. */
  lemma ItemInGrid(cells: seq<Cell>, rows: nat, cols: nat, i: nat)
    requires 0 < cols && |cells| == rows * cols && i < |cells|
    ensures ItemAt(cells, cols, i).0 < rows && ItemAt(cells, cols, i).1 < cols
    ensures ItemAt(cells, cols, i).2 == cells[Offset(rows, cols, (i / cols, i % cols))]
  {
    OffsetRoundTrip(rows, cols, i);
  }

  /** Items come in strict row-major order, so no coordinate is named twice. */
  lemma ItemsOrdered(cells: seq<Cell>, cols: nat, i: nat, j: nat)
    requires 0 < cols && i < j < |cells|
    ensures Before((ItemAt(cells, cols, i).0, ItemAt(cells, cols, i).1), (ItemAt(cells, cols, j).0, ItemAt(cells, cols, j).1))
  {
    if j / cols < i / cols {
      Arith.MulLe(j / cols + 1, i / cols, cols);
    }
  }

  /**
   * Over a rows×cols grid the traversal yields `rows * cols` items: item `i`
   * names an in-grid coordinate and holds the cell stored there, every
   * coordinate is named (by item `row * cols + col`), and the coordinates
   * strictly increase in row-major order, so none is named twice.
   */
  lemma TraversalRowMajor(cells: seq<Cell>, rows: nat, cols: nat)
    requires 0 < cols && |cells| == rows * cols
    ensures forall i :: 0 <= i < |cells| ==>
              ItemAt(cells, cols, i).0 < rows && ItemAt(cells, cols, i).1 < cols &&
              ItemAt(cells, cols, i).2 == cells[Offset(rows, cols, (i / cols, i % cols))]
    ensures forall x: Coord :: x.0 < rows && x.1 < cols ==>
              ItemAt(cells, cols, Offset(rows, cols, x)) == (x.0, x.1, cells[Offset(rows, cols, x)])
    ensures forall i, j :: 0 <= i < j < |cells| ==>
              Before((ItemAt(cells, cols, i).0, ItemAt(cells, cols, i).1), (ItemAt(cells, cols, j).0, ItemAt(cells, cols, j).1))
  {
    forall i | 0 <= i < |cells|
      ensures ItemAt(cells, cols, i).0 < rows && ItemAt(cells, cols, i).1 < cols
      ensures ItemAt(cells, cols, i).2 == cells[Offset(rows, cols, (i / cols, i % cols))]
    {
      ItemInGrid(cells, rows, cols, i);
    }
    forall i, j | 0 <= i < j < |cells|
      ensures Before((ItemAt(cells, cols, i).0, ItemAt(cells, cols, i).1), (ItemAt(cells, cols, j).0, ItemAt(cells, cols, j).1))
    {
      ItemsOrdered(cells, cols, i, j);
    }
  }

  lemma RowCoordsStep(r: nat, c0: nat, c: nat, centre: Coord)
    requires c0 <= c
    ensures RowCoords(r, c0, c + 1, centre) ==
              RowCoords(r, c0, c, centre) + (if (r, c) == centre then [] else [(r, c)])
  {
  }

  lemma WindowCoordsStep(r0: nat, r: nat, c0: nat, cEnd: nat, centre: Coord)
    requires r0 <= r
    ensures WindowCoords(r0, r + 1, c0, cEnd, centre) ==
              WindowCoords(r0, r, c0, cEnd, centre) + RowCoords(r, c0, cEnd, centre)
  {
  }

  /** `ns` holds, one for one, the cells at the in-grid coordinates `coords`. */
  ghost predicate Gathered(cells: seq<Cell>, rows: nat, cols: nat, ns: seq<Cell>, coords: seq<Coord>)
    requires |cells| == rows * cols
  {
    InGrid(coords, rows, cols) && |ns| == |coords| &&
    forall k :: 0 <= k < |coords| ==> ns[k] == cells[Offset(rows, cols, coords[k])]
  }

  lemma GatheredSnoc(cells: seq<Cell>, rows: nat, cols: nat, ns: seq<Cell>, coords: seq<Coord>, x: Coord)
    requires |cells| == rows * cols && x.0 < rows && x.1 < cols
    requires Gathered(cells, rows, cols, ns, coords)
    ensures x.0 * cols + x.1 < |cells|
    ensures Gathered(cells, rows, cols, ns + [cells[x.0 * cols + x.1]], coords + [x])
  {
    Arith.IndexInBounds(x.0, x.1, rows, cols);
  }

  lemma GatheredAreCellsAt(cells: seq<Cell>, rows: nat, cols: nat, ns: seq<Cell>, coords: seq<Coord>)
    requires |cells| == rows * cols && Gathered(cells, rows, cols, ns, coords)
    ensures ns == CellsAt(cells, rows, cols, coords)
  {
    CellsAtIndex(cells, rows, cols, coords);
  }

  // ---------------------------------------------------------------------
  // The grid object
  // ---------------------------------------------------------------------

  /** A grid of `rows × cols` cells stored row-major; its size never changes. */
  class Grid {
    var cells: seq<Cell>
    const rows: nat
    const cols: nat

    ghost predicate Valid()
      reads this
    {
      |cells| == rows * cols
    }

    /** `Grid::new`: `rows * cols` Dead cells. */
    constructor (rows: nat, cols: nat)
      ensures Valid() && this.rows == rows && this.cols == cols
      ensures cells == DeadCells(rows * cols)
    {
      this.rows := rows;
      this.cols := cols;
      cells := DeadCells(rows * cols);
    }

    /** The derived `Clone`: a new grid with the same size and cells. */
    method Clone() returns (g: Grid)
      requires Valid()
      ensures fresh(g) && g.Valid()
      ensures g.rows == rows && g.cols == cols && g.cells == cells
    {
      g := new Grid(rows, cols);
      g.cells := cells;
    }

    /** `iter`: a fresh traversal, starting at the first cell. */
    method Iter() returns (it: GridIterator)
      ensures fresh(it) && it.grid == this && it.idx == 0
    {
      it := new GridIterator(this);
    }

    /**
     * `cell_at`: the cell at offset `row * cols + col`. Only that offset is
     * bounds-checked, so a column within range forces a row within range.
     */
    function CellAt(row: nat, col: nat): (c: Cell)
      reads this
      requires Valid() && row * cols + col < rows * cols
      ensures c == cells[row * cols + col]
      ensures col < cols ==> row < rows && c == cells[Offset(rows, cols, (row, col))]
    {
      if col < cols then
        Arith.RowInRange(row, col, rows, cols);
        cells[row * cols + col]
      else
        cells[row * cols + col]
    }

    /** `set_cell_at`: the cell at offset `row * cols + col` takes `state`; nothing else changes. */
    method SetCellAt(row: nat, col: nat, state: CellState)
      requires Valid() && row * cols + col < rows * cols
      modifies this
      ensures Valid()
      ensures cells == old(cells)[row * cols + col := Cell(state)]
    {
      var i := row * cols + col;
      cells := cells[i := cells[i].(state := state)];
    }

    /**
     * `cell_neighbours_at`: the neighbour list is cleared, then every square
     * of the clamped window other than `(row, col)` is pushed, row by row.
     */
    method CellNeighboursAt(row: nat, col: nat) returns (neighbours: seq<Cell>)
      requires Valid() && 1 <= rows && 1 <= cols
      ensures neighbours == NeighbourCells(cells, rows, cols, row, col)
    {
      var prevRow, nextRow := PrevIndex(row), LastIndex(rows, row);
      var prevCol, nextCol := PrevIndex(col), LastIndex(cols, col);
      ghost var centre := (row, col);
      ghost var seen: seq<Coord> := [];
      neighbours := [];
      var r := prevRow;
      while r <= nextRow
        invariant prevRow <= r && (r == prevRow || r <= nextRow + 1)
        invariant seen == WindowCoords(prevRow, r, prevCol, nextCol + 1, centre)
        invariant Gathered(cells, rows, cols, neighbours, seen)
        decreases (nextRow + 1) as int - r
      {
        neighbours, seen := PushRow(r, prevCol, nextCol, row, col, neighbours, seen);
        WindowCoordsStep(prevRow, r, prevCol, nextCol + 1, centre);
        r := r + 1;
      }
      if nextRow + 1 < prevRow {
        assert WindowCoords(prevRow, nextRow + 1, prevCol, nextCol + 1, centre) == [];
      }
      assert seen == NeighbourCoords(rows, cols, row, col);
      GatheredAreCellsAt(cells, rows, cols, neighbours, seen);
    }

    /**
     * One pass of the outer loop of `cell_neighbours_at`: the cells of row `r`
     * from column `prevCol` to `nextCol` are pushed in order, except the
     * centre's own.
     */
    method PushRow(r: nat, prevCol: nat, nextCol: nat, row: nat, col: nat, neighbours: seq<Cell>, ghost seen: seq<Coord>)
      returns (pushed: seq<Cell>, ghost seenAfter: seq<Coord>)
      requires Valid() && r < rows && nextCol < cols && Gathered(cells, rows, cols, neighbours, seen)
      ensures seenAfter == seen + RowCoords(r, prevCol, nextCol + 1, (row, col))
      ensures Gathered(cells, rows, cols, pushed, seenAfter)
    {
      pushed, seenAfter := neighbours, seen;
      var c := prevCol;
      while c <= nextCol
        invariant prevCol <= c && (c == prevCol || c <= nextCol + 1)
        invariant seenAfter == seen + RowCoords(r, prevCol, c, (row, col))
        invariant Gathered(cells, rows, cols, pushed, seenAfter)
        decreases (nextCol + 1) as int - c
      {
        RowCoordsStep(r, prevCol, c, (row, col));
        if r == row && c == col {
          c := c + 1;
          continue;
        }
        Arith.IndexInBounds(r, c, rows, cols);
        GatheredSnoc(cells, rows, cols, pushed, seenAfter, (r, c));
        pushed := pushed + [CellAt(r, c)];
        seenAfter := seenAfter + [(r, c)];
        c := c + 1;
      }
      if nextCol + 1 < prevCol {
        assert RowCoords(r, prevCol, nextCol + 1, (row, col)) == [];
      }
    }

    /** `kill_all`: every cell becomes Dead; the size is unchanged. */
    method KillAll()
      requires Valid()
      modifies this
      ensures Valid() && cells == DeadCells(rows * cols)
    {
      var i := 0;
      while i < |cells|
        invariant i <= |cells| == rows * cols
        invariant forall k :: 0 <= k < i ==> cells[k] == Cell(Dead)
      {
        cells := cells[i := cells[i].(state := Dead)];
        i := i + 1;
      }
    }
  }

  /** `GridIterator`: a position in a row-major traversal of a grid it borrows. */
  class GridIterator {
    const grid: Grid
    var idx: nat

    constructor (grid: Grid)
      ensures this.grid == grid && idx == 0
    {
      this.grid := grid;
      idx := 0;
    }

    /**
     * `next`: past the last cell, nothing and the position stays; otherwise
     * the item at the current position, and the position advances by one.
     */
    method Next() returns (item: Option<(nat, nat, Cell)>)
      requires grid.Valid()
      modifies this
      ensures old(idx) < |grid.cells| ==> 0 < grid.cols && item == Some(ItemAt(grid.cells, grid.cols, old(idx))) && idx == old(idx) + 1
      ensures |grid.cells| <= old(idx) ==> item == None && idx == old(idx)
    {
      if |grid.cells| <= idx {
        return None;
      }
      var cell := grid.cells[idx];
      var row := idx / grid.cols;
      var col := idx % grid.cols;
      idx := idx + 1;
      item := Some((row, col, cell));
    }
  }
}
