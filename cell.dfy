/** A single cell of the Game of Life board: an immutable alive/dead value. */
module Cells {

  /** Equality is structural on `alive`, as for a frozen record. */
  datatype Cell = Cell(alive: bool) {

    predicate IsAlive() {
      alive
    }

    predicate IsDead() {
      !alive
    }
  }

  /** Factory for a living cell. */
  function AliveCell(): (c: Cell)
    ensures c.IsAlive() && !c.IsDead()
  {
    Cell(true)
  }

  /** Factory for a dead cell. */
  function DeadCell(): (c: Cell)
    ensures c.IsDead() && !c.IsAlive()
  {
    Cell(false)
  }

  /** The two factories give different values, and every cell is one of them. */
  lemma ExactlyTwoCells(c: Cell)
    ensures AliveCell() != DeadCell()
    ensures c == AliveCell() || c == DeadCell()
    ensures c == AliveCell() <==> c.IsAlive()
  {
  }

  /** Being dead is exactly not being alive. */
  lemma DeadIsNotAlive(c: Cell)
    ensures c.IsDead() <==> !c.IsAlive()
  {
  }

  /** A cell is determined by whether it is alive. */
  lemma SameLivenessSameCell(c: Cell, d: Cell)
    requires c.IsAlive() == d.IsAlive()
    ensures c == d
  {
  }
}
