/** Board dimensions: the bounds check and the enumeration of every position. */
module GridSizes {
  import opened Positions
  import opened Counting

  /** Any integers are accepted; a non-positive dimension simply contains nothing. */
  datatype GridSize = GridSize(width: int, height: int) {

    /** In bounds: row in [0, height) and column in [0, width). */
    predicate Contains(p: Position) {
      0 <= p.row < height && 0 <= p.col < width
    }

    /** Number of positions on the board; zero when a dimension is not positive. */
    function Area(): nat {
      if width > 0 && height > 0 then width * height else 0
    }

    /** The positions of row `r`, left to right (`range(width)`). */
    function RowPositions(r: int): seq<Position> {
      seq(if width > 0 then width else 0, c => Position(r, c))
    }

    /** The positions of rows 0 .. n-1, each row left to right. */
    function FirstRows(n: int): seq<Position>
      decreases n
    {
      if n <= 0 then [] else FirstRows(n - 1) + RowPositions(n - 1)
    }

    /**
     * Every position, row by row and within a row by column; exactly the in-bounds
     * positions occur. Length, order and distinctness are stated by the lemmas below.
     */
    function AllPositions(): (ps: seq<Position>)
      ensures forall p :: p in ps <==> Contains(p)
    {
      AllPositionsCover();
      FirstRows(height)
    }

    /** There are width * height positions, and element i is (i / width, i % width). */
    lemma AllPositionsRowMajor()
      ensures |AllPositions()| == Area()
      ensures forall i | 0 <= i < |AllPositions()| ::
        AllPositions()[i] == Position(i / width, i % width)
    {
      if width <= 0 || height <= 0 {
        EmptyRows(height);
      } else {
        FirstRowsRowMajor(height);
      }
    }

    /** No position occurs twice. */
    lemma AllPositionsDistinct()
      ensures Distinct(AllPositions())
    {
      AllPositionsRowMajor();
      if width > 0 {
        PositionsDistinct(AllPositions());
      }
    }

    lemma AllPositionsCover()
      ensures forall p :: p in FirstRows(height) <==> Contains(p)
    {
      if width <= 0 || height <= 0 {
        EmptyRows(height);
      } else {
        FirstRowsRowMajor(height);
        PositionsCover(FirstRows(height));
      }
    }

    /** With no columns or no rows nothing is enumerated. */
    lemma {:induction false} EmptyRows(n: int)
      requires width <= 0 || height <= 0
      requires n <= height
      ensures FirstRows(n) == []
      decreases n
    {
      if n > 0 {
        EmptyRows(n - 1);
      }
    }

    /** The first n rows hold n * width positions, element i being (i / width, i % width). */
    lemma {:induction false} FirstRowsRowMajor(n: int)
      requires width > 0 && n >= 0
      ensures |FirstRows(n)| == n * width
      ensures forall i | 0 <= i < n * width :: FirstRows(n)[i] == Position(i / width, i % width)
      decreases n
    {
      if n > 0 {
        FirstRowsRowMajor(n - 1);
        var prefix, last := FirstRows(n - 1), RowPositions(n - 1);
        assert FirstRows(n) == prefix + last;
        assert |prefix| == (n - 1) * width;
        forall i | 0 <= i < n * width
          ensures FirstRows(n)[i] == Position(i / width, i % width)
        {
          if i >= (n - 1) * width {
            var c := i - (n - 1) * width;
            DivModUnique(i, width, n - 1, c);
          }
        }
      }
    }

    /** Row-major positions of a board with positive dimensions are pairwise distinct. */
    lemma PositionsDistinct(ps: seq<Position>)
      requires width > 0
      requires forall i | 0 <= i < |ps| :: ps[i] == Position(i / width, i % width)
      ensures Distinct(ps)
    {
      forall i, j | 0 <= i < j < |ps|
        ensures ps[i] != ps[j]
      {
        assert i == (i / width) * width + i % width;
        assert j == (j / width) * width + j % width;
      }
    }

    /** Row-major positions of the whole board are exactly the in-bounds positions. */
    lemma PositionsCover(ps: seq<Position>)
      requires width > 0 && height > 0
      requires |ps| == height * width
      requires forall i | 0 <= i < |ps| :: ps[i] == Position(i / width, i % width)
      ensures forall p :: p in ps <==> Contains(p)
    {
      forall p
        ensures p in ps <==> Contains(p)
      {
        if p in ps {
          var i :| 0 <= i < |ps| && ps[i] == p;
          DivBelow(i, width, height);
        }
        if Contains(p) {
          var i := p.row * width + p.col;
          RowBelowHeight(p.row, p.col, width, height);
          DivModUnique(i, width, p.row, p.col);
          assert ps[i] == p;
        }
      }
    }
  }

  /** Euclidean division is determined by quotient and remainder. */
  lemma DivModUnique(i: int, w: int, q: int, r: int)
    requires w > 0 && 0 <= r < w && i == q * w + r
    ensures i / w == q && i % w == r
  {
    var q0, r0 := i / w, i % w;
    assert i == q0 * w + r0;
    assert (q - q0) * w == r0 - r;
    if q - q0 >= 1 {
      MulAtLeast(q - q0, w);
    } else if q - q0 <= -1 {
      MulAtLeast(q0 - q, w);
    }
  }

  lemma MulAtLeast(d: int, w: int)
    requires d >= 1 && w > 0
    ensures d * w >= w
  {
  }

  lemma DivBelow(i: int, w: int, h: int)
    requires w > 0 && 0 <= i < h * w
    ensures 0 <= i / w < h
  {
  }

  lemma RowBelowHeight(r: int, c: int, w: int, h: int)
    requires 0 <= r < h && 0 <= c < w
    ensures 0 <= r * w + c < h * w
  {
    assert r * w <= (h - 1) * w;
  }

  /** A board with a non-positive dimension contains nothing and enumerates nothing. */
  lemma DegenerateBoardIsEmpty(size: GridSize, p: Position)
    requires size.width <= 0 || size.height <= 0
    ensures !size.Contains(p)
    ensures size.AllPositions() == []
  {
    size.AllPositionsRowMajor();
  }
}
