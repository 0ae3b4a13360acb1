/** The state of a single square of the Game of Life board (src/gol/cell.rs). */
module Cells {

  /** The two states a cell can be in; there is no third. */
  datatype CellState = Dead | Alive

  /** A cell is a value wrapping its state; copying a cell copies its state. */
  datatype Cell = Cell(state: CellState) {

    /** A cell is living exactly when its state is Alive, and so never when it is Dead. */
    function Living(): (b: bool)
      ensures b <==> state == Alive
      ensures !b <==> state == Dead
    {
      state == Alive
    }
  }

  /** Equality of cells is equality of their states (the derived PartialEq). */
  lemma CellEquality(a: Cell, b: Cell)
    ensures a == b <==> a.state == b.state
  {
  }

  /** A cell is determined by whether it is living. */
  lemma LivingDetermines(a: Cell)
    ensures a.Living() ==> a == Cell(Alive)
    ensures !a.Living() ==> a == Cell(Dead)
  {
  }
}
