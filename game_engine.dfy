/** One synchronous step of the simulation, and the engine that owns grid and generation. */
module Engine {
  import opened Cells
  import opened Positions
  import opened GridSizes
  import opened Generations
  import opened Grids
  import opened Rules
  import opened Iteration

  /**
   * The next generation as a value: every in-bounds position gets the rule applied to its
   * cell and neighbour count in the OLD state, so the result does not depend on any order.
   */
  function NextGeneration(s: GridState): (t: GridState)
    ensures t.size == s.size && t.Valid()
    ensures forall p {:trigger t.Get(p)} | s.size.Contains(p) ::
      t.Get(p) == CalculateNextState(s.Get(p), s.LivingNeighbors(p))
  {
    GridState(s.size,
      map p | p in s.size.AllPositions() :: CalculateNextState(s.Get(p), s.LivingNeighbors(p)))
  }

  /** The state after `k` steps. */
  function After(s: GridState, k: nat): GridState
  {
    Iterate(NextGeneration, s, k)
  }

  /**
   * Builds the next generation into a fresh all-dead grid of the same size, writing only
   * the cells that come out alive. Every read goes to `current`, which is not modified.
   */
  method CalculateNextGeneration(current: Grid) returns (next: Grid)
    requires current.Valid()
    ensures fresh(next) && next.Valid()
    ensures next.State() == NextGeneration(current.State())
  {
    var gridSize := current.size;
    next := new Grid(gridSize);
    var ps := gridSize.AllPositions();
    gridSize.AllPositionsDistinct();
    ghost var old_ := current.State();
    var i := 0;
    while i < |ps|
      invariant 0 <= i <= |ps|
      invariant next.Valid() && next.size == gridSize
      invariant forall j | 0 <= j < |ps| ::
        next.cells[ps[j]] == if j < i then CalculateNextState(old_.Get(ps[j]), old_.LivingNeighbors(ps[j]))
                             else DeadCell()
    {
      var position := ps[i];
      var currentCell := current.State().Get(position);
      var neighborCount := current.State().LivingNeighbors(position);
      var nextCell := CalculateNextState(currentCell, neighborCount);
      if nextCell.IsAlive() {
        var written := next.SetCell(position, nextCell);
        assert written == Done;
      }
      i := i + 1;
    }
    ValidStatesEqual(next.State(), NextGeneration(old_));
  }

  class GameEngine {
    var grid: Grid
    var generation: Generation

    ghost predicate Valid()
      reads this, grid
    {
      grid.Valid()
    }

    /** An engine holding the supplied grid, at generation 0. */
    constructor (grid: Grid)
      requires grid.Valid()
      ensures Valid() && this.grid == grid && generation == Generation(0)
    {
      this.grid := grid;
      generation := Generation(0);
    }

    /** Replaces the grid by the next generation and advances the counter by one. */
    method Step()
      requires Valid()
      modifies this
      ensures Valid() && fresh(grid)
      ensures grid.size == old(grid.size)
      ensures grid.State() == NextGeneration(old(grid.State()))
      ensures generation == old(generation).Next()
    {
      grid := CalculateNextGeneration(grid);
      generation := generation.Next();
    }
  }
}
