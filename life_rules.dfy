/**
 The rules of Conway's Game of Life on a toroidal grid, as pure functions.

 A grid is a sequence of Width columns, each a sequence of Height cells,
 indexed g[x][y]; `true` is a live cell. Moving off one edge re-enters at the
 opposite edge, so every cell has exactly eight neighbours.
 */
module LifeRules {

  /** Number of columns (the outer index x). */
  const Width: nat := 60
  /** Number of cells in a column (the inner index y). */
  const Height: nat := 30

  type Grid = seq<seq<bool>>

  /** g has Width columns of Height cells each. */
  predicate WellFormed(g: Grid) {
    |g| == Width && forall x :: 0 <= x < |g| ==> |g[x]| == Height
  }

  predicate InRange(x: int, y: int) {
    0 <= x < Width && 0 <= y < Height
  }

  /** Every cell of g is dead. */
  ghost predicate AllDead(g: Grid)
    requires WellFormed(g)
  {
    forall x, y :: InRange(x, y) ==> !g[x][y]
  }

  /** The grid a game starts from and is cleared to. */
  function DeadGrid(): (g: Grid)
    ensures WellFormed(g) && AllDead(g)
  {
    seq(Width, _ => seq(Height, _ => false))
  }

  /** A well-formed grid without live cells is the dead grid. */
  lemma AllDeadIsDeadGrid(g: Grid)
    requires WellFormed(g) && AllDead(g)
    ensures g == DeadGrid()
  {
    var d := DeadGrid();
    forall x | 0 <= x < Width
      ensures g[x] == d[x]
    {
      assert forall y :: 0 <= y < Height ==> g[x][y] == d[x][y];
    }
  }

  /** g with the cell at (x, y) set to `alive`. */
  function SetCell(g: Grid, x: int, y: int, alive: bool): (g': Grid)
    requires WellFormed(g) && InRange(x, y)
    ensures WellFormed(g')
    ensures g'[x][y] == alive
    ensures forall x', y' :: InRange(x', y') && (x' != x || y' != y) ==> g'[x'][y'] == g[x'][y']
  {
    g[x := g[x][y := alive]]
  }

  /**
   The coordinate p moved by d on a ring of n positions: p + d, except that
   stepping off one end re-enters at the other.
   */
  function Wrap(p: int, d: int, n: int): (r: int)
    requires 0 < n && 0 <= p < n && -1 <= d <= 1
    ensures 0 <= r < n
    ensures (r - (p + d)) % n == 0
  {
    if p + d < 0 then n - 1 else if p + d == n then 0 else p + d
  }

  /**
   The neighbour coordinate as the game computes it, (p + d + n) mod n, is
   the wrapped coordinate, so it is always a valid index. Wrap itself is kept
   free of `%` so that proofs about concrete patterns need no modular
   arithmetic; only the game's loop uses this lemma.
   */
  lemma ModIsWrap(p: int, d: int, n: int)
    requires 0 < n && 0 <= p < n && -1 <= d <= 1
    ensures (p + d + n) % n == Wrap(p, d, n)
    ensures 0 <= (p + d + n) % n < n
  {
  }

  /** Moving back by the opposite offset undoes a wrapped move. */
  lemma WrapInverse(p: int, d: int, n: int)
    requires 0 < n && 0 <= p < n && -1 <= d <= 1
    ensures Wrap(Wrap(p, d, n), -d, n) == p
  {
  }

  /**
   The transition rule: a live cell survives with two or three live
   neighbours, a dead cell is born with exactly three, every other cell is
   dead in the next generation.
   */
  function CheckState(alive: bool, neighbours: int): (next: bool)
    ensures next <==> neighbours == 3 || (neighbours == 2 && alive)
    ensures alive && (neighbours == 2 || neighbours == 3) ==> next
    ensures !alive && neighbours == 3 ==> next
    ensures neighbours != 2 && neighbours != 3 ==> !next
  {
    if neighbours == 2 then alive
    else if neighbours == 3 then true
    else false
  }

  /** 1 for a live cell, 0 for a dead one. */
  function Live(g: Grid, x: int, y: int): (c: nat)
    requires WellFormed(g) && InRange(x, y)
    ensures c <= 1 && (c == 1 <==> g[x][y])
  {
    if g[x][y] then 1 else 0
  }

  /** 1 when the cell at the wrapped position (x + dx, y + dy) is live, else 0. */
  function LiveAt(g: Grid, x: int, y: int, dx: int, dy: int): (c: nat)
    requires WellFormed(g) && InRange(x, y) && -1 <= dx <= 1 && -1 <= dy <= 1
    ensures c <= 1
  {
    Live(g, Wrap(x, dx, Width), Wrap(y, dy, Height))
  }

  /**
   Neighbourhood on the torus is mutual: the cell at (x, y) is the neighbour
   at the opposite offset of its own neighbour at offset (dx, dy).
   */
  lemma NeighbourIsMutual(g: Grid, x: int, y: int, dx: int, dy: int)
    requires WellFormed(g) && InRange(x, y) && -1 <= dx <= 1 && -1 <= dy <= 1
    ensures LiveAt(g, Wrap(x, dx, Width), Wrap(y, dy, Height), -dx, -dy) == Live(g, x, y)
  {
    WrapInverse(x, dx, Width);
    WrapInverse(y, dy, Height);
  }

  /** The number of live cells among the eight wrapped neighbours of (x, y). */
  function CountN(g: Grid, x: int, y: int): (n: nat)
    requires WellFormed(g) && InRange(x, y)
    ensures n <= 8
    ensures AllDead(g) ==> n == 0
  {
    LiveAt(g, x, y, -1, -1) + LiveAt(g, x, y, -1, 0) + LiveAt(g, x, y, -1, 1)
    + LiveAt(g, x, y, 0, -1)                          + LiveAt(g, x, y, 0, 1)
    + LiveAt(g, x, y, 1, -1)  + LiveAt(g, x, y, 1, 0)  + LiveAt(g, x, y, 1, 1)
  }

  /** Live cells at (x + i, y + j), wrapped, for j from -1 up to k - 1. */
  function RowPrefix(g: Grid, x: int, y: int, i: int, k: int): (n: nat)
    requires WellFormed(g) && InRange(x, y) && -1 <= i <= 1 && -1 <= k <= 2
    ensures n <= k + 1
    decreases k + 1
  {
    if k == -1 then 0
    else RowPrefix(g, x, y, i, k - 1) + LiveAt(g, x, y, i, k - 1)
  }

  /** Live cells in the rows i from -1 up to k - 1 of the wrapped 3x3 block around (x, y). */
  function BlockPrefix(g: Grid, x: int, y: int, k: int): (n: nat)
    requires WellFormed(g) && InRange(x, y) && -1 <= k <= 2
    ensures n <= 3 * (k + 1)
    decreases k + 1
  {
    if k == -1 then 0
    else BlockPrefix(g, x, y, k - 1) + RowPrefix(g, x, y, k - 1, 2)
  }

  /** The wrapped 3x3 block around a cell holds the cell itself and its eight neighbours. */
  lemma BlockIsCentrePlusNeighbours(g: Grid, x: int, y: int)
    requires WellFormed(g) && InRange(x, y)
    ensures BlockPrefix(g, x, y, 2) == Live(g, x, y) + CountN(g, x, y)
  {
    assert LiveAt(g, x, y, 0, 0) == Live(g, x, y);
    assert RowPrefix(g, x, y, 0, 2) == LiveAt(g, x, y, 0, -1) + Live(g, x, y) + LiveAt(g, x, y, 0, 1);
  }

  /** The state of (x, y) in the next generation. */
  function NextCell(g: Grid, x: int, y: int): (alive: bool)
    requires WellFormed(g) && InRange(x, y)
    ensures alive <==> CountN(g, x, y) == 3 || (CountN(g, x, y) == 2 && g[x][y])
  {
    CheckState(g[x][y], CountN(g, x, y))
  }

  /** Column x of the next generation. */
  function NextColumn(g: Grid, x: int): (col: seq<bool>)
    requires WellFormed(g) && 0 <= x < Width
    ensures |col| == Height
  {
    seq(Height, y requires 0 <= y < Height => NextCell(g, x, y))
  }

  /** The next generation: every cell follows CheckState on its old value and neighbour count. */
  function Next(g: Grid): (g': Grid)
    requires WellFormed(g)
    ensures WellFormed(g')
  {
    seq(Width, x requires 0 <= x < Width => NextColumn(g, x))
  }

  /** The grid after k generations. */
  function Generations(g: Grid, k: nat): (g': Grid)
    requires WellFormed(g)
    ensures WellFormed(g')
  {
    if k == 0 then g else Next(Generations(g, k - 1))
  }

  /** A grid without live cells stays without live cells for one generation. */
  lemma DeadStaysDead(g: Grid)
    requires WellFormed(g) && AllDead(g)
    ensures AllDead(Next(g))
  {
    var g' := Next(g);
    forall x, y | InRange(x, y)
      ensures !g'[x][y]
    {
      assert g'[x] == NextColumn(g, x);
      assert g'[x][y] == NextCell(g, x, y);
      assert CountN(g, x, y) == 0;
    }
  }

  /** A grid without live cells stays without live cells for ever. */
  lemma {:induction false} DeadStaysDeadForever(g: Grid, k: nat)
    requires WellFormed(g) && AllDead(g)
    ensures Generations(g, k) == DeadGrid()
  {
    if k == 0 {
      AllDeadIsDeadGrid(g);
    } else {
      DeadStaysDeadForever(g, k - 1);
      DeadStaysDead(DeadGrid());
      AllDeadIsDeadGrid(Next(DeadGrid()));
    }
  }
}
