/**
 * The older array-style facade: an n x n game whose step computes the whole next picture
 * as a boolean matrix and then overwrites its own grid cell by cell.
 */
module Legacy {
  import opened Cells
  import opened Positions
  import opened GridSizes
  import opened Generations
  import opened Grids
  import opened Engine

  /** The n x n picture of a state: entry [r][c] tells whether (r, c) is alive. */
  function Matrix(s: GridState, n: nat): (m: seq<seq<bool>>)
    ensures |m| == n && forall r | 0 <= r < n :: |m[r]| == n
  {
    seq(n, r => seq(n, c => s.Get(Position(r, c)).IsAlive()))
  }

  /** On an n x n board the picture determines the whole state. */
  lemma MatrixDeterminesState(s: GridState, t: GridState, n: nat)
    requires s.Valid() && t.Valid() && s.size == t.size == GridSize(n, n)
    requires Matrix(s, n) == Matrix(t, n)
    ensures s == t
  {
    forall p | s.size.Contains(p)
      ensures s.Get(p) == t.Get(p)
    {
      assert Matrix(s, n)[p.row][p.col] == Matrix(t, n)[p.row][p.col];
      SameLivenessSameCell(s.Get(p), t.Get(p));
    }
    ValidStatesEqual(s, t);
  }

  /** Reads an n x n picture of `g` with two nested loops, appending row by row. */
  method ReadMatrix(g: Grid, n: nat) returns (m: seq<seq<bool>>)
    ensures m == Matrix(g.State(), n)
  {
    ghost var picture := Matrix(g.State(), n);
    m := [];
    var row := 0;
    while row < n
      invariant 0 <= row <= n
      invariant m == picture[..row]
    {
      var rowList := [];
      var col := 0;
      while col < n
        invariant 0 <= col <= n
        invariant rowList == picture[row][..col]
      {
        var position := Position(row, col);
        rowList := rowList + [g.State().Get(position).IsAlive()];
        col := col + 1;
      }
      assert rowList == picture[row];
      assert picture[..row + 1] == picture[..row] + [picture[row]];
      m := m + [rowList];
      row := row + 1;
    }
    assert picture[..n] == picture;
  }

  /** Every square (r, c) of the n x n board of `s` is alive exactly when value[r][c] holds. */
  ghost predicate Shows(s: GridState, value: seq<seq<bool>>, n: nat)
    requires |value| >= n && forall r | 0 <= r < n :: |value[r]| >= n
  {
    forall r, c | 0 <= r < n && 0 <= c < n :: s.Get(Position(r, c)).IsAlive() == value[r][c]
  }

  /** A matrix that agrees with the state on every square of the board is its picture. */
  lemma PictureOf(s: GridState, value: seq<seq<bool>>, n: nat)
    requires |value| == n && forall r | 0 <= r < n :: |value[r]| == n
    requires Shows(s, value, n)
    ensures Matrix(s, n) == value
  {
    var m := Matrix(s, n);
    forall r | 0 <= r < n
      ensures m[r] == value[r]
    {
      assert forall c | 0 <= c < n :: m[r][c] == value[r][c];
    }
  }

  /**
   * Writing the picture of the next generation back over the board, square by square,
   * yields the next generation itself.
   */
  lemma WriteBackIsNext(s: GridState, before: GridState, picture: seq<seq<bool>>, n: nat)
    requires s.Valid() && before.Valid() && s.size == before.size == GridSize(n, n)
    requires picture == Matrix(NextGeneration(before), n)
    requires Shows(s, picture, n)
    ensures s == NextGeneration(before)
  {
    PictureOf(s, picture, n);
    MatrixDeterminesState(s, NextGeneration(before), n);
  }

  class GameOfLife {
    /** The configured side length of the square board. */
    const gridSize: int
    var grid: Grid
    var generation: Generation

    ghost predicate Valid()
      reads this, grid
    {
      gridSize >= 1 && grid.size == GridSize(gridSize, gridSize) && grid.Valid()
    }

    /**
     * A new game at generation 0. The random draw made for each position is the parameter
     * `chosen`: chosen(p) stands for "the draw for p fell below the density", so p starts alive.
     */
    constructor (gridSize: int, chosen: Position -> bool)
      requires gridSize >= 1
      ensures Valid() && fresh(grid) && this.gridSize == gridSize && generation == Generation(0)
      ensures forall p | grid.size.Contains(p) :: grid.cells[p].IsAlive() <==> chosen(p)
    {
      this.gridSize := gridSize;
      grid := new Grid(GridSize(gridSize, gridSize));
      generation := Generation(0);
      new;
      InitializeGrid(chosen);
    }

    /** Brings to life every chosen position, in row-major order; no cell is killed. */
    method InitializeGrid(chosen: Position -> bool)
      requires Valid()
      modifies grid
      ensures Valid()
      ensures forall p | grid.size.Contains(p) ::
        grid.cells[p].IsAlive() <==> old(grid.cells[p].IsAlive()) || chosen(p)
    {
      var ps := grid.size.AllPositions();
      grid.size.AllPositionsDistinct();
      ghost var before := grid.cells;
      var i := 0;
      while i < |ps|
        invariant 0 <= i <= |ps|
        invariant Valid()
        invariant forall j | 0 <= j < |ps| ::
          grid.cells[ps[j]].IsAlive() <==> before[ps[j]].IsAlive() || (j < i && chosen(ps[j]))
      {
        if chosen(ps[i]) {
          var written := grid.SetCell(ps[i], AliveCell());
          assert written == Done;
        }
        i := i + 1;
      }
    }

    /** The generation property: the counter as a plain number. */
    function GenerationNumber(): int
      reads this
    {
      generation.number
    }

    /** The generation setter: replaces the counter and nothing else. */
    method SetGeneration(value: int)
      requires Valid()
      modifies this
      ensures Valid() && generation == Generation(value) && grid == old(grid)
      ensures GenerationNumber() == value
    {
      generation := Generation(value);
    }

    /** The number of rows, which is also the number of columns. */
    function Len(): (n: int)
      reads this, grid
      requires Valid()
      ensures n >= 1 && n == grid.size.height && n == grid.size.width
    {
      gridSize
    }

    /** The board as n rows of n booleans. */
    method ToList() returns (m: seq<seq<bool>>)
      requires Valid()
      ensures m == Matrix(grid.State(), gridSize)
    {
      m := ReadMatrix(grid, gridSize);
    }

    /** `grid[row][col]` for integer indices: off the board, negative included, reads false. */
    function GetItem(row: int, col: int): (alive: bool)
      reads this, grid
      requires Valid()
      ensures alive ==> 0 <= row < gridSize && 0 <= col < gridSize
      ensures 0 <= row < gridSize && 0 <= col < gridSize ==>
        alive == grid.cells[Position(row, col)].IsAlive()
    {
      grid.State().Get(Position(row, col)).IsAlive()
    }

    /** `grid[row][col] = value`: off the board the write is refused and nothing changes. */
    method SetItem(row: int, col: int, value: bool) returns (r: Outcome)
      requires Valid()
      modifies grid
      ensures Valid()
      ensures r == Done <==> 0 <= row < gridSize && 0 <= col < gridSize
      ensures r.Failed? ==> r.error == OutOfBounds(Position(row, col))
      ensures r == Done ==> GetItem(row, col) == value
      ensures forall i, j | i != row || j != col :: GetItem(i, j) == old(GetItem(i, j))
    {
      var cell := if value then AliveCell() else DeadCell();
      r := grid.SetCell(Position(row, col), cell);
    }

    /** The living-neighbour count of (row, col), as the grid counts it. */
    function CountNeighbors(row: int, col: int): (n: nat)
      reads this, grid
      ensures n == grid.State().LivingNeighbors(Position(row, col)) && n <= 8
    {
      grid.State().LivingNeighbors(Position(row, col))
    }

    /** The picture of the next generation; the game itself is not changed. */
    method CalculateNextGeneration() returns (m: seq<seq<bool>>)
      requires Valid()
      ensures m == Matrix(NextGeneration(grid.State()), gridSize)
    {
      var next := Engine.CalculateNextGeneration(grid);
      m := ReadMatrix(next, gridSize);
    }

    /** The grid setter: overwrites every one of the n x n cells with value[row][col]. */
    method SetGrid(value: seq<seq<bool>>)
      requires Valid()
      requires |value| >= gridSize && forall r | 0 <= r < gridSize :: |value[r]| >= gridSize
      modifies grid
      ensures Valid()
      ensures forall r, c | 0 <= r < gridSize && 0 <= c < gridSize :: GetItem(r, c) == value[r][c]
      ensures Shows(grid.State(), value, gridSize)
    {
      var row := 0;
      while row < gridSize
        invariant 0 <= row <= gridSize
        invariant Valid()
        invariant forall r, c | 0 <= r < row && 0 <= c < gridSize :: GetItem(r, c) == value[r][c]
      {
        var col := 0;
        while col < gridSize
          invariant 0 <= col <= gridSize
          invariant Valid()
          invariant forall r, c | 0 <= r < row && 0 <= c < gridSize :: GetItem(r, c) == value[r][c]
          invariant forall c | 0 <= c < col :: GetItem(row, c) == value[row][c]
        {
          var cell := if value[row][col] then AliveCell() else DeadCell();
          var written := grid.SetCell(Position(row, col), cell);
          assert written == Done;
          col := col + 1;
        }
        row := row + 1;
      }
    }

    /**
     * One step: the whole next picture is computed before any cell is written back, so
     * overwriting the same grid in place gives exactly the synchronous next generation.
     */
    method Step()
      requires Valid()
      modifies this, grid
      ensures Valid() && grid == old(grid)
      ensures grid.State() == NextGeneration(old(grid.State()))
      ensures generation == old(generation).Next()
      ensures GenerationNumber() == old(GenerationNumber()) + 1
    {
      ghost var before := grid.State();
      var next := CalculateNextGeneration();
      SetGrid(next);
      WriteBackIsNext(grid.State(), before, next, gridSize);
      generation := generation.Next();
    }
  }
}
