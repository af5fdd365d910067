/** Conway's B3/S23 rule as a pure function of a cell and its living-neighbour count. */
module Rules {
  import opened Cells

  /** A living cell lives on with 2 or 3 living neighbours and dies otherwise. */
  function ApplySurvivalRules(livingNeighbors: int): (next: Cell)
    ensures next.IsAlive() <==> livingNeighbors == 2 || livingNeighbors == 3
  {
    if livingNeighbors in [2, 3] then AliveCell() else DeadCell()
  }

  /** A dead cell comes alive with exactly 3 living neighbours and stays dead otherwise. */
  function ApplyBirthRules(livingNeighbors: int): (next: Cell)
    ensures next.IsAlive() <==> livingNeighbors == 3
  {
    if livingNeighbors == 3 then AliveCell() else DeadCell()
  }

  /**
   * The next state of a cell. Any integer count is accepted. Three neighbours always give
   * a living cell, two keep the current state, any other count gives a dead cell.
   */
  function CalculateNextState(current: Cell, livingNeighbors: int): (next: Cell)
    ensures livingNeighbors == 3 ==> next == AliveCell()
    ensures livingNeighbors == 2 ==> next == current
    ensures livingNeighbors != 2 && livingNeighbors != 3 ==> next == DeadCell()
  {
    if current.IsAlive() then ApplySurvivalRules(livingNeighbors)
    else ApplyBirthRules(livingNeighbors)
  }

  /** Survival and birth read off the next state: the rule as a table by current state. */
  lemma SurvivalAndBirth(current: Cell, livingNeighbors: int)
    ensures current.IsAlive() ==>
      (CalculateNextState(current, livingNeighbors).IsAlive() <==> livingNeighbors in {2, 3})
    ensures current.IsDead() ==>
      (CalculateNextState(current, livingNeighbors).IsAlive() <==> livingNeighbors == 3)
  {
  }
}
