/** Known patterns under the engine's step: empty board, block still life, blinker. */
module Patterns {
  import opened Cells
  import opened Positions
  import opened GridSizes
  import opened Counting
  import opened Grids
  import opened Rules
  import opened Engine
  import opened Iteration

  /** Who is alive in the next generation, in terms of the old living set and counts. */
  lemma NextAliveIff(s: GridState, p: Position)
    requires s.Valid()
    ensures var n := s.LivingNeighbors(p);
      p in NextGeneration(s).LivingCells()
      <==> s.size.Contains(p) && (n == 3 || (n == 2 && p in s.LivingCells()))
  {
  }

  /** No spontaneous generation: an empty board stays empty. */
  lemma EmptyStaysEmpty(s: GridState)
    requires s.Valid() && s.LivingCells() == {}
    ensures NextGeneration(s).LivingCells() == {}
  {
    var t := NextGeneration(s);
    forall p | s.size.Contains(p)
      ensures t.Get(p).IsDead()
    {
      LivingNeighborsAreAdjacentLivingCells(s, p);
      assert (set q | q in s.LivingCells() && IsNeighbor(p, q)) == {};
    }
  }

  /** An empty board stays empty after any number of steps. */
  lemma EmptyStaysEmptyForever(s: GridState, k: nat)
    requires s.Valid() && s.LivingCells() == {}
    ensures After(s, k).LivingCells() == {}
  {
    var empty := (t: GridState) => t.Valid() && t.LivingCells() == {};
    forall t | empty(t)
      ensures empty(NextGeneration(t))
    {
      EmptyStaysEmpty(t);
    }
    InvariantForever(NextGeneration, empty, s, k);
  }

  /**
   * Whether `p` is alive next time when the living cells are exactly `pattern`: it has
   * 3 pattern neighbours, or 2 and belongs to the pattern.
   */
  predicate Reborn(pattern: seq<Position>, p: Position) {
    var n := CountIf(pattern, q => IsNeighbor(p, q));
    n == 3 || (n == 2 && p in pattern)
  }

  /**
   * A pattern whose rule image `image` lies on the board steps to exactly that image:
   * the board edge plays no part.
   */
  lemma PatternStep(s: GridState, pattern: seq<Position>, image: seq<Position>)
    requires s.Valid() && Distinct(pattern)
    requires s.LivingCells() == set q | q in pattern
    requires forall p | p in image :: s.size.Contains(p)
    requires forall p :: p in image <==> Reborn(pattern, p)
    ensures NextGeneration(s).LivingCells() == set q | q in image
  {
    var t := NextGeneration(s);
    forall p
      ensures p in t.LivingCells() <==> p in image
    {
      NextAliveIff(s, p);
      if s.size.Contains(p) {
        PatternNeighborCount(s, pattern, p);
      }
    }
  }

  /** The 2x2 block with top-left corner (r, c). */
  function Block(r: int, c: int): seq<Position> {
    [Position(r, c), Position(r, c + 1), Position(r + 1, c), Position(r + 1, c + 1)]
  }

  /** Each block cell is adjacent to the 3 others; any other position to at most 2 of them. */
  lemma BlockNeighborCount(p: Position, r: int, c: int)
    ensures p in Block(r, c) ==> CountIf(Block(r, c), q => IsNeighbor(p, q)) == 3
    ensures p !in Block(r, c) ==> CountIf(Block(r, c), q => IsNeighbor(p, q)) <= 2
  {
    var b := Block(r, c);
    CountIfFour(b[0], b[1], b[2], b[3], q => IsNeighbor(p, q));
  }

  /** A block anywhere on the board is a still life. */
  lemma BlockIsStill(s: GridState, r: int, c: int)
    requires s.Valid()
    requires s.size.Contains(Position(r, c)) && s.size.Contains(Position(r + 1, c + 1))
    requires s.LivingCells() == set q | q in Block(r, c)
    ensures NextGeneration(s) == s
  {
    var block := Block(r, c);
    forall p
      ensures p in block <==> Reborn(block, p)
    {
      BlockNeighborCount(p, r, c);
    }
    PatternStep(s, block, block);
    SameLivingSameState(NextGeneration(s), s);
  }

  /** A block stays put for any number of steps. */
  lemma BlockStillForever(s: GridState, r: int, c: int, k: nat)
    requires s.Valid()
    requires s.size.Contains(Position(r, c)) && s.size.Contains(Position(r + 1, c + 1))
    requires s.LivingCells() == set q | q in Block(r, c)
    ensures After(s, k) == s
  {
    BlockIsStill(s, r, c);
    FixedPointForever(NextGeneration, s, k);
  }

  /** Three cells in a row, centred on (r, c). */
  function Horizontal(r: int, c: int): seq<Position> {
    [Position(r, c - 1), Position(r, c), Position(r, c + 1)]
  }

  /** Three cells in a column, centred on (r, c). */
  function Vertical(r: int, c: int): seq<Position> {
    [Position(r - 1, c), Position(r, c), Position(r + 1, c)]
  }

  /** The 3x3 box around (r, c) lies on the board. */
  predicate BoxOnBoard(size: GridSize, r: int, c: int) {
    size.Contains(Position(r - 1, c - 1)) && size.Contains(Position(r + 1, c + 1))
  }

  /**
   * Next to a horizontal line, exactly the cells of the crossing vertical line are alive
   * next time: 3 line neighbours for the cells above and below the centre, 2 for the centre.
   */
  lemma HorizontalNeighborCount(p: Position, r: int, c: int)
    ensures Reborn(Horizontal(r, c), p) <==> p in Vertical(r, c)
  {
    var h := Horizontal(r, c);
    CountIfThree(h[0], h[1], h[2], q => IsNeighbor(p, q));
  }

  /** The same for a vertical line, which turns into the crossing horizontal line. */
  lemma VerticalNeighborCount(p: Position, r: int, c: int)
    ensures Reborn(Vertical(r, c), p) <==> p in Horizontal(r, c)
  {
    var v := Vertical(r, c);
    CountIfThree(v[0], v[1], v[2], q => IsNeighbor(p, q));
  }

  /** A horizontal blinker becomes a vertical one. */
  lemma BlinkerTurnsVertical(s: GridState, r: int, c: int)
    requires s.Valid() && BoxOnBoard(s.size, r, c)
    requires s.LivingCells() == set q | q in Horizontal(r, c)
    ensures NextGeneration(s).LivingCells() == set q | q in Vertical(r, c)
  {
    forall p
      ensures p in Vertical(r, c) <==> Reborn(Horizontal(r, c), p)
    {
      HorizontalNeighborCount(p, r, c);
    }
    PatternStep(s, Horizontal(r, c), Vertical(r, c));
  }

  /** A vertical blinker becomes a horizontal one. */
  lemma BlinkerTurnsHorizontal(s: GridState, r: int, c: int)
    requires s.Valid() && BoxOnBoard(s.size, r, c)
    requires s.LivingCells() == set q | q in Vertical(r, c)
    ensures NextGeneration(s).LivingCells() == set q | q in Horizontal(r, c)
  {
    forall p
      ensures p in Horizontal(r, c) <==> Reborn(Vertical(r, c), p)
    {
      VerticalNeighborCount(p, r, c);
    }
    PatternStep(s, Vertical(r, c), Horizontal(r, c));
  }

  /** Two steps bring a horizontal blinker back. */
  lemma BlinkerReturns(s: GridState, r: int, c: int)
    requires s.Valid() && BoxOnBoard(s.size, r, c)
    requires s.LivingCells() == set q | q in Horizontal(r, c)
    ensures NextGeneration(NextGeneration(s)) == s
  {
    var t := NextGeneration(s);
    BlinkerTurnsVertical(s, r, c);
    BlinkerTurnsHorizontal(t, r, c);
    SameLivingSameState(NextGeneration(t), s);
  }

  /** The blinker has period 2: it changes after one step and is back after two. */
  lemma BlinkerPeriodTwo(s: GridState, r: int, c: int)
    requires s.Valid() && BoxOnBoard(s.size, r, c)
    requires s.LivingCells() == set q | q in Horizontal(r, c)
    ensures After(s, 1) != s
    ensures After(s, 2) == s
  {
    BlinkerTurnsVertical(s, r, c);
    assert Position(r - 1, c) in After(s, 1).LivingCells();
    BlinkerReturns(s, r, c);
  }

  /** After any even number of steps the blinker is back where it started. */
  lemma BlinkerEvenSteps(s: GridState, r: int, c: int, k: nat)
    requires s.Valid() && BoxOnBoard(s.size, r, c)
    requires s.LivingCells() == set q | q in Horizontal(r, c)
    ensures After(s, 2 * k) == s
  {
    BlinkerReturns(s, r, c);
    PeriodTwoForever(NextGeneration, s, k);
  }
}
