/** The board: a map from in-bounds positions to cells, bounded and not wrapping. */
module Grids {
  import opened Cells
  import opened Positions
  import opened GridSizes
  import opened Counting

  /** The error `set_cell` raises for a position outside the board. */
  datatype GridError = OutOfBounds(position: Position)

  /** Result of a write: it either happened or was refused with an error. */
  datatype Outcome = Done | Failed(error: GridError)

  /** The contents of a grid at one moment; the read-only queries are defined on it. */
  datatype GridState = GridState(size: GridSize, cells: map<Position, Cell>) {

    /** Every in-bounds position has an entry and no entry lies outside the bounds. */
    ghost predicate Valid() {
      forall p :: p in cells <==> size.Contains(p)
    }

    /** The stored cell; outside the board, and for a missing entry, a dead cell. */
    function Get(p: Position): (c: Cell)
      ensures !size.Contains(p) ==> c.IsDead()
      ensures Valid() && size.Contains(p) ==> c == cells[p]
    {
      if !size.Contains(p) then DeadCell()
      else if p in cells then cells[p]
      else DeadCell()
    }

    /** Whether `q` is on the board and holds a living cell. */
    predicate LiveAt(q: Position) {
      size.Contains(q) && Get(q).IsAlive()
    }

    /** How many of the 8 neighbours are on the board and alive. */
    function LivingNeighbors(p: Position): (n: nat)
      ensures n <= 8
    {
      CountIf(p.Neighbors(), LiveAt)
    }

    /** The positions whose stored cell is alive. */
    function LivingCells(): (living: set<Position>)
      ensures Valid() ==> forall q {:trigger q in living} :: q in living <==> size.Contains(q) && Get(q).IsAlive()
    {
      set p | p in cells && cells[p].IsAlive()
    }
  }

  /** Two valid states of the same size that read alike everywhere on the board are equal. */
  lemma ValidStatesEqual(s: GridState, t: GridState)
    requires s.Valid() && t.Valid() && s.size == t.size
    requires forall p | s.size.Contains(p) :: s.Get(p) == t.Get(p)
    ensures s == t
  {
    assert s.cells.Keys == t.cells.Keys;
    forall p | p in s.cells
      ensures s.cells[p] == t.cells[p]
    {
      assert s.Get(p) == t.Get(p);
    }
    assert s.cells == t.cells;
  }

  /** A valid state is determined by its size and its set of living cells. */
  lemma SameLivingSameState(s: GridState, t: GridState)
    requires s.Valid() && t.Valid() && s.size == t.size
    requires s.LivingCells() == t.LivingCells()
    ensures s == t
  {
    forall p | s.size.Contains(p)
      ensures s.Get(p) == t.Get(p)
    {
      assert p in s.LivingCells() <==> p in t.LivingCells();
      SameLivenessSameCell(s.Get(p), t.Get(p));
    }
    ValidStatesEqual(s, t);
  }

  /**
   * The neighbour count is the number of living cells adjacent to `p`: out-of-bounds
   * neighbours never contribute, and `p` itself is never counted.
   */
  lemma LivingNeighborsAreAdjacentLivingCells(s: GridState, p: Position)
    requires s.Valid()
    ensures s.LivingNeighbors(p) == |set q | q in s.LivingCells() && IsNeighbor(p, q)|
  {
    var ns := p.Neighbors();
    var live := s.LiveAt;
    NeighborsDistinct(p);
    CountIfIsCardinality(ns, live);
    var counted := Selected(ns, live);
    var adjacent := set q | q in s.LivingCells() && IsNeighbor(p, q);
    forall q
      ensures q in counted <==> q in adjacent
    {
      assert q in ns <==> IsNeighbor(p, q);
    }
    assert counted == adjacent;
  }

  /** Writing any cell at `p` itself leaves the neighbour count of `p` unchanged. */
  lemma OwnCellNotCounted(s: GridState, p: Position, c: Cell)
    ensures GridState(s.size, s.cells[p := c]).LivingNeighbors(p) == s.LivingNeighbors(p)
  {
    var t := GridState(s.size, s.cells[p := c]);
    var ns := p.Neighbors();
    forall k | 0 <= k < |ns|
      ensures t.LiveAt(ns[k]) == s.LiveAt(ns[k])
    {
      assert ns[k] in ns;
    }
    CountIfCongruent(ns, t.LiveAt, s.LiveAt);
  }

  /** The neighbour count of (r, c) as a sum over the 8 surrounding squares, row by row. */
  lemma LivingNeighborsSpelledOut(s: GridState, p: Position)
    ensures var r, c := p.row, p.col;
      s.LivingNeighbors(p)
      == Indicator(s.LiveAt(Position(r - 1, c - 1))) + Indicator(s.LiveAt(Position(r - 1, c)))
       + Indicator(s.LiveAt(Position(r - 1, c + 1))) + Indicator(s.LiveAt(Position(r, c - 1)))
       + Indicator(s.LiveAt(Position(r, c + 1))) + Indicator(s.LiveAt(Position(r + 1, c - 1)))
       + Indicator(s.LiveAt(Position(r + 1, c))) + Indicator(s.LiveAt(Position(r + 1, c + 1)))
  {
    CountIfEight(p.Neighbors(), s.LiveAt);
  }

  /** At a corner of the board at most 3 neighbours can be counted. */
  lemma CornerAtMostThree(s: GridState, p: Position)
    requires p.row == 0 || p.row == s.size.height - 1
    requires p.col == 0 || p.col == s.size.width - 1
    ensures s.LivingNeighbors(p) <= 3
  {
    LivingNeighborsSpelledOut(s, p);
  }

  /** On an edge of the board at most 5 neighbours can be counted. */
  lemma EdgeAtMostFive(s: GridState, p: Position)
    requires p.row == 0 || p.row == s.size.height - 1 || p.col == 0 || p.col == s.size.width - 1
    ensures s.LivingNeighbors(p) <= 5
  {
    LivingNeighborsSpelledOut(s, p);
  }

  /** Every square of the board is alive. */
  ghost predicate FullBoard(s: GridState) {
    forall q | s.size.Contains(q) :: s.Get(q).IsAlive()
  }

  /** On a full board a square counts exactly when it is on the board. */
  lemma FullBoardLiveAt(s: GridState, p: Position)
    requires FullBoard(s)
    ensures var r, c := p.row, p.col;
      && s.LiveAt(Position(r - 1, c - 1)) == s.size.Contains(Position(r - 1, c - 1))
      && s.LiveAt(Position(r - 1, c)) == s.size.Contains(Position(r - 1, c))
      && s.LiveAt(Position(r - 1, c + 1)) == s.size.Contains(Position(r - 1, c + 1))
      && s.LiveAt(Position(r, c - 1)) == s.size.Contains(Position(r, c - 1))
      && s.LiveAt(Position(r, c + 1)) == s.size.Contains(Position(r, c + 1))
      && s.LiveAt(Position(r + 1, c - 1)) == s.size.Contains(Position(r + 1, c - 1))
      && s.LiveAt(Position(r + 1, c)) == s.size.Contains(Position(r + 1, c))
      && s.LiveAt(Position(r + 1, c + 1)) == s.size.Contains(Position(r + 1, c + 1))
  {
  }

  /** On a full board of at least 2 x 2, a corner has exactly 3 living neighbours. */
  lemma FullCornerHasThree(s: GridState, p: Position)
    requires FullBoard(s) && s.size.width >= 2 && s.size.height >= 2
    requires p.row == 0 || p.row == s.size.height - 1
    requires p.col == 0 || p.col == s.size.width - 1
    ensures s.LivingNeighbors(p) == 3
  {
    LivingNeighborsSpelledOut(s, p);
    FullBoardLiveAt(s, p);
  }

  /** On a full board of at least 2 x 2, an edge square that is not a corner has exactly 5. */
  lemma FullEdgeHasFive(s: GridState, p: Position)
    requires FullBoard(s) && s.size.width >= 2 && s.size.height >= 2 && s.size.Contains(p)
    requires p.row == 0 || p.row == s.size.height - 1 || p.col == 0 || p.col == s.size.width - 1
    requires !((p.row == 0 || p.row == s.size.height - 1) && (p.col == 0 || p.col == s.size.width - 1))
    ensures s.LivingNeighbors(p) == 5
  {
    LivingNeighborsSpelledOut(s, p);
    FullBoardLiveAt(s, p);
  }

  /**
   * When the living cells are exactly the elements of `pattern`, the neighbour count
   * of `p` is the number of pattern cells adjacent to `p`.
   */
  lemma PatternNeighborCount(s: GridState, pattern: seq<Position>, p: Position)
    requires s.Valid() && Distinct(pattern)
    requires s.LivingCells() == set q | q in pattern
    ensures s.LivingNeighbors(p) == CountIf(pattern, q => IsNeighbor(p, q))
  {
    LivingNeighborsAreAdjacentLivingCells(s, p);
    var adjacent := q => IsNeighbor(p, q);
    CountIfIsCardinality(pattern, adjacent);
    assert (set q | q in s.LivingCells() && IsNeighbor(p, q)) == Selected(pattern, adjacent);
  }

  /** The mutable grid: its size is fixed, its cells are written in place. */
  class Grid {
    const size: GridSize
    var cells: map<Position, Cell>

    function State(): GridState
      reads this
    {
      GridState(size, cells)
    }

    ghost predicate Valid()
      reads this
    {
      State().Valid()
    }

    /** A grid of the given size with a dead cell at every in-bounds position. */
    constructor (size: GridSize)
      ensures Valid() && this.size == size
      ensures forall p | size.Contains(p) :: cells[p] == DeadCell()
      ensures State().LivingCells() == {}
    {
      this.size := size;
      cells := map[];
      new;
      var ps := size.AllPositions();
      var i := 0;
      while i < |ps|
        invariant 0 <= i <= |ps|
        invariant forall p :: p in cells <==> p in ps[..i]
        invariant forall p | p in cells :: cells[p] == DeadCell()
      {
        cells := cells[ps[i] := DeadCell()];
        assert ps[..i + 1] == ps[..i] + [ps[i]];
        i := i + 1;
      }
      assert ps[..i] == ps;
    }

    /**
     * Writes `c` at `p`. A position outside the board is refused with OutOfBounds and
     * nothing changes; otherwise only the entry for `p` changes.
     */
    method SetCell(p: Position, c: Cell) returns (r: Outcome)
      requires Valid()
      modifies this
      ensures Valid()
      ensures r == Done <==> size.Contains(p)
      ensures r.Failed? ==> r.error == OutOfBounds(p) && cells == old(cells)
      ensures r == Done ==> cells == old(cells)[p := c]
      ensures r == Done ==> State().Get(p) == c
      ensures forall q | q != p :: State().Get(q) == old(State().Get(q))
    {
      if !size.Contains(p) {
        return Failed(OutOfBounds(p));
      }
      cells := cells[p := c];
      r := Done;
    }
  }
}
