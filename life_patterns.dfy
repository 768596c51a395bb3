/**
 Concrete generations that pin down the rules: wrap-around at the corners,
 the block still life and the blinker oscillator.
 */
module LifePatterns {
  import opened LifeRules

  /** The only live cell of g is (a, b). */
  ghost predicate LoneCell(g: Grid, a: int, b: int) {
    WellFormed(g) && forall x, y :: InRange(x, y) ==> (g[x][y] <==> x == a && y == b)
  }

  /** Setting one cell of the dead grid gives a grid whose only live cell is that one. */
  lemma SetOnDeadIsLoneCell(a: int, b: int)
    requires InRange(a, b)
    ensures LoneCell(SetCell(DeadGrid(), a, b, true), a, b)
  {
  }

  /**
   On the torus a live cell at (0, 0) is a neighbour of the three opposite
   corners (Width - 1, 0), (0, Height - 1) and (Width - 1, Height - 1).
   */
  lemma CornerCountsAcrossEdges(g: Grid)
    requires LoneCell(g, 0, 0)
    ensures CountN(g, Width - 1, 0) == 1
    ensures CountN(g, 0, Height - 1) == 1
    ensures CountN(g, Width - 1, Height - 1) == 1
  {
  }

  /** The live cells of g form a 2x2 block with its corner at (1, 1). */
  ghost predicate IsBlock(g: Grid) {
    WellFormed(g) && forall x, y :: InRange(x, y) ==> (g[x][y] <==> 1 <= x <= 2 && 1 <= y <= 2)
  }

  /** Every cell of the block keeps its state for one generation. */
  lemma BlockCell(g: Grid, x: int, y: int)
    requires IsBlock(g) && InRange(x, y)
    ensures NextCell(g, x, y) == g[x][y]
  {
  }

  /** The block is a still life. */
  lemma BlockIsStillLife(g: Grid)
    requires IsBlock(g)
    ensures Next(g) == g
  {
    var g' := Next(g);
    forall x | 0 <= x < Width
      ensures g'[x] == g[x]
    {
      forall y | 0 <= y < Height
        ensures g'[x][y] == g[x][y]
      {
        assert g'[x] == NextColumn(g, x);
        BlockCell(g, x, y);
      }
    }
  }

  /** Three live cells in a row: (4, 5), (5, 5) and (6, 5). */
  ghost predicate IsRowBlinker(g: Grid) {
    WellFormed(g) && forall x, y :: InRange(x, y) ==> (g[x][y] <==> y == 5 && 4 <= x <= 6)
  }

  /** Three live cells in a column: (5, 4), (5, 5) and (5, 6). */
  ghost predicate IsColumnBlinker(g: Grid) {
    WellFormed(g) && forall x, y :: InRange(x, y) ==> (g[x][y] <==> x == 5 && 4 <= y <= 6)
  }

  lemma RowBlinkerCell(g: Grid, x: int, y: int)
    requires IsRowBlinker(g) && InRange(x, y)
    ensures NextCell(g, x, y) <==> x == 5 && 4 <= y <= 6
  {
  }

  lemma ColumnBlinkerCell(g: Grid, x: int, y: int)
    requires IsColumnBlinker(g) && InRange(x, y)
    ensures NextCell(g, x, y) <==> y == 5 && 4 <= x <= 6
  {
  }

  /** A row of three turns into a column of three through its centre. */
  lemma RowBlinkerTurns(g: Grid)
    requires IsRowBlinker(g)
    ensures IsColumnBlinker(Next(g))
  {
    var g' := Next(g);
    forall x, y | InRange(x, y)
      ensures g'[x][y] <==> x == 5 && 4 <= y <= 6
    {
      assert g'[x] == NextColumn(g, x);
      RowBlinkerCell(g, x, y);
    }
  }

  /** A column of three turns into a row of three through its centre. */
  lemma ColumnBlinkerTurns(g: Grid)
    requires IsColumnBlinker(g)
    ensures IsRowBlinker(Next(g))
  {
    var g' := Next(g);
    forall x, y | InRange(x, y)
      ensures g'[x][y] <==> y == 5 && 4 <= x <= 6
    {
      assert g'[x] == NextColumn(g, x);
      ColumnBlinkerCell(g, x, y);
    }
  }

  /** Two well-formed grids that agree on every cell are equal. */
  lemma SameCellsSameGrid(g: Grid, h: Grid)
    requires WellFormed(g) && WellFormed(h)
    requires forall x, y :: InRange(x, y) ==> g[x][y] == h[x][y]
    ensures g == h
  {
    forall x | 0 <= x < Width
      ensures g[x] == h[x]
    {
      assert forall y :: 0 <= y < Height ==> g[x][y] == h[x][y];
    }
  }

  /** The blinker is an oscillator of period two. */
  lemma BlinkerHasPeriodTwo(g: Grid)
    requires IsRowBlinker(g)
    ensures IsColumnBlinker(Generations(g, 1))
    ensures Generations(g, 2) == g
  {
    RowBlinkerTurns(g);
    ColumnBlinkerTurns(Next(g));
    SameCellsSameGrid(Next(Next(g)), g);
  }
}
