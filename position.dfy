/** Board coordinates and the 8-neighbourhood; nothing here knows about bounds. */
module Positions {

  datatype Position = Position(row: int, col: int) {

    /**
     * The 8 surrounding positions, scanning the row offsets -1, 0, 1 and within each the
     * column offsets -1, 0, 1, skipping the offset (0, 0). No bounds filtering.
     */
    function Neighbors(): (ns: seq<Position>)
      ensures |ns| == 8
      ensures ns[0] == Position(row - 1, col - 1) && ns[7] == Position(row + 1, col + 1)
      ensures forall q :: q in ns <==> IsNeighbor(this, q)
      ensures this !in ns
      ensures forall i, j | 0 <= i < j < |ns| :: RowMajorBefore(ns[i], ns[j])
    {
      [ Position(row - 1, col - 1), Position(row - 1, col), Position(row - 1, col + 1),
        Position(row,     col - 1),                         Position(row,     col + 1),
        Position(row + 1, col - 1), Position(row + 1, col), Position(row + 1, col + 1) ]
    }
  }

  /** Reference definition of adjacency: Chebyshev distance exactly 1. */
  predicate IsNeighbor(p: Position, q: Position) {
    && -1 <= q.row - p.row <= 1
    && -1 <= q.col - p.col <= 1
    && p != q
  }

  /** Strict row-major order: by row, then by column. */
  predicate RowMajorBefore(p: Position, q: Position) {
    p.row < q.row || (p.row == q.row && p.col < q.col)
  }

  /** Adjacency is symmetric. */
  lemma NeighborSymmetric(p: Position, q: Position)
    ensures IsNeighbor(p, q) <==> IsNeighbor(q, p)
  {
  }

  /** The neighbours are pairwise distinct. */
  lemma NeighborsDistinct(p: Position)
    ensures forall i, j | 0 <= i < j < 8 :: p.Neighbors()[i] != p.Neighbors()[j]
  {
    var ns := p.Neighbors();
    forall i, j | 0 <= i < j < 8
      ensures ns[i] != ns[j]
    {
      assert RowMajorBefore(ns[i], ns[j]);
    }
  }
}
