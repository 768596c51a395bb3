/**
 The game object: the current generation held in a field and the operations
 that step it, clear it, count neighbours on it and write single cells.
 */
module LifeGame {
  import opened LifeRules

  class Game {
    /** The current generation, indexed grid[x][y]. */
    var grid: Grid
    /** Whether the simulation is advancing; only the presentation loop toggles it. */
    var running: bool

    ghost predicate Valid()
      reads this
    {
      WellFormed(grid)
    }

    /** A paused game on an all-dead grid. */
    constructor ()
      ensures Valid()
      ensures grid == DeadGrid() && !running
    {
      grid := DeadGrid();
      running := false;
    }

    /** Replaces the grid by the all-dead grid of the same dimensions. */
    method ClearGrid()
      requires Valid()
      modifies this
      ensures Valid()
      ensures grid == DeadGrid() && AllDead(grid)
      ensures running == old(running)
    {
      grid := DeadGrid();
    }

    /**
     Sums the wrapped 3x3 block around (x, y) and subtracts the cell itself,
     which gives the number of live neighbours.
     */
    method CountNeighbours(x: int, y: int) returns (n: int)
      requires Valid() && InRange(x, y)
      ensures n == CountN(grid, x, y)
      ensures 0 <= n <= 8
    {
      var neighbours := 0;
      for i := -1 to 2
        invariant neighbours == BlockPrefix(grid, x, y, i)
        invariant 0 <= neighbours <= 9
      {
        for j := -1 to 2
          invariant neighbours == BlockPrefix(grid, x, y, i) + RowPrefix(grid, x, y, i, j)
          invariant 0 <= neighbours <= 9
        {
          var cx := (x + i + Width) % Width;
          var cy := (y + j + Height) % Height;
          ModIsWrap(x, i, Width);
          ModIsWrap(y, j, Height);
          neighbours := neighbours + (if grid[cx][cy] then 1 else 0);
        }
      }
      BlockIsCentrePlusNeighbours(grid, x, y);
      n := neighbours - (if grid[x][y] then 1 else 0);
    }

    /**
     Advances one generation. The new cells are written into a copy of the
     grid while every neighbour count reads the unchanged current grid; the
     copy then replaces the grid as a whole.
     */
    method Update()
      requires Valid()
      modifies this
      ensures Valid()
      ensures grid == Next(old(grid))
      ensures forall x, y :: InRange(x, y) ==>
        grid[x][y] == CheckState(old(grid)[x][y], CountN(old(grid), x, y))
      ensures running == old(running)
    {
      var temp := grid;
      for x := 0 to Width
        invariant grid == old(grid) && running == old(running)
        invariant WellFormed(temp)
        invariant forall x' :: 0 <= x' < x ==> temp[x'] == NextColumn(grid, x')
        invariant forall x' :: x <= x' < Width ==> temp[x'] == grid[x']
      {
        for y := 0 to Height
          invariant grid == old(grid) && running == old(running)
          invariant WellFormed(temp)
          invariant forall x' :: 0 <= x' < x ==> temp[x'] == NextColumn(grid, x')
          invariant forall x' :: x < x' < Width ==> temp[x'] == grid[x']
          invariant forall y' :: 0 <= y' < y ==> temp[x][y'] == NextCell(grid, x, y')
          invariant forall y' :: y <= y' < Height ==> temp[x][y'] == grid[x][y']
        {
          var neighbours := CountNeighbours(x, y);
          temp := temp[x := temp[x][y := CheckState(grid[x][y], neighbours)]];
        }
        assert temp[x] == NextColumn(grid, x);
      }
      assert temp == Next(grid);
      grid := temp;
    }

    /** Writes one cell, as the mouse handlers do while the game is paused. */
    method Set(x: int, y: int, alive: bool)
      requires Valid() && InRange(x, y)
      modifies this
      ensures Valid()
      ensures grid == SetCell(old(grid), x, y, alive)
      ensures grid[x][y] == alive
      ensures forall x', y' :: InRange(x', y') && (x' != x || y' != y) ==> grid[x'][y'] == old(grid)[x'][y']
      ensures running == old(running)
    {
      grid := grid[x := grid[x][y := alive]];
    }
  }
}
