# Conway's Game of Life on a torus — a Dafny model of the simulation engine

This project models the simulation engine of a small Game of Life program
(`Game` in `src/main.rs`). The engine holds a 60 × 30 grid of cells, stored
as a vector of 60 columns of 30 booleans and indexed `grid[x][y]`. Every
step computes the next generation into a copy of the grid and swaps the copy
in. Each cell counts its live neighbours in the 3 × 3 block around it, with
both coordinates wrapping around the edges (a torus). It then applies the
rule "alive next iff three neighbours, or two neighbours and alive now". The
presentation loop can also clear the grid and write single cells.

The project has three modules:

- `LifeRules` (`life_rules.dfy`) holds the pure specification: the grid
  shape, the wrapped coordinate, the transition rule, the eight-neighbour
  count, the next generation `Next` and iterated generations, with lemmas
  about them.
- `LifeGame` (`life_game.dfy`) holds the class `Game`, which has the fields
  `grid` and `running`. Its methods update them the way the Rust methods do:
  - `Update` runs the nested loop into a copy of the grid.
  - `CountNeighbours` runs the nested loop that sums the 3 × 3 block and
    subtracts the centre.
  - `ClearGrid` and `Set` are the other writes.

  Each method is proved against the `LifeRules` functions.
- `LifePatterns` (`life_patterns.dfy`) proves the rules on concrete
  generations. A cell at the corner (0, 0) is a neighbour of the three
  opposite corners. The 2 × 2 block is a still life. The three-cell blinker
  oscillates with period two.

Modelling choices:

- The Rust code holds grid sizes, the wrapped coordinates and the neighbour
  count in `f32`, and accumulates the count in an `i8`. All these values are
  small integers, so `f32` arithmetic and `%` on them are exact. The `i8` sum
  never exceeds 9. The model uses unbounded `int`, and the loop invariants in
  `CountNeighbours` keep the accumulator within 0..9.
- The grid is a `seq<seq<bool>>` field. A Rust `Vec<Vec<bool>>` with
  `clone()` has value semantics, and so does a Dafny sequence.
- The engine has no constructor taking dimensions and no cell accessor.
  Its dimensions are the constants `GRID_SIZE = (60, 30)`, which the model
  names `LifeRules.Width` and `LifeRules.Height`. `Game::draw` reads
  `self.grid[x][y]` (src/main.rs:30), and the mouse handlers write
  `game.grid[pos.0][pos.1]` directly (src/main.rs:111, 114). The model keeps
  `grid` as a public field and writes it through `Game.Set`.
- `Wrap` is the torus step (p + d, re-entering at the opposite end).
  `CountNeighbours` computes the coordinate as the Rust code does, as
  `(p + d + n) % n`. `ModIsWrap` proves that the two agree.

## Model

| member | source | states |
|---|---|---|
| `LifeRules.DeadGrid` | src/main.rs:22 | the initial grid has `GRID_SIZE.0` columns of `GRID_SIZE.1` cells and no live cell |
| `LifeRules.SetCell` | src/main.rs:111 | writing one cell keeps the shape, gives that cell the written value, and leaves every other cell as it was |
| `LifeRules.Wrap` | src/main.rs:68-69 | the wrapped coordinate is a valid index and is congruent to p + d modulo the dimension |
| `LifeRules.ModIsWrap` | src/main.rs:68-70 | the coordinate computed as `(pos + i + GRID_SIZE) % GRID_SIZE` is the torus step, so for i in -1..1 the grid access at line 70 stays in bounds |
| `LifeRules.WrapInverse` | src/main.rs:68-69 | a wrapped step by d undone by a step by -d returns to the start |
| `LifeRules.NeighbourIsMutual` | src/main.rs:66-70 | the cell at (x, y) is what its neighbour at offset (dx, dy) reads at offset (-dx, -dy), so neighbourhood on the torus is symmetric |
| `LifeRules.CheckState` | src/main.rs:55-63 | the next state is alive iff the count is 3, or the count is 2 and the cell is alive; every other count gives a dead cell |
| `LifeRules.Live` | src/main.rs:70 | a cell contributes 1 to a count when live and 0 when dead, the `as i8` cast of the cell |
| `LifeRules.LiveAt` | src/main.rs:68-70 | the contribution of the wrapped position (x + dx, y + dy) is 0 or 1 |
| `LifeRules.CountN` | src/main.rs:64-74 | the live cells among the eight wrapped neighbours number at most 8, and none on an all-dead grid |
| `LifeRules.RowPrefix` | src/main.rs:67-71 | a partial sum over one row of the wrapped 3 × 3 block is bounded by the number of cells summed |
| `LifeRules.BlockPrefix` | src/main.rs:66-72 | a partial sum over the rows of the wrapped 3 × 3 block is bounded by three per row summed |
| `LifeRules.BlockIsCentrePlusNeighbours` | src/main.rs:66-73 | the 3 × 3 block sum equals the centre cell plus the eight-neighbour count, so the block sum minus the centre is the neighbour count |
| `LifeRules.NextCell` | src/main.rs:46-47 | a cell is live in the next generation iff its old neighbour count is 3, or 2 and it is live now |
| `LifeRules.NextColumn` | src/main.rs:45-48 | each column of the next generation has `GRID_SIZE.1` cells |
| `LifeRules.Next` | src/main.rs:42-51 | the next generation keeps the grid dimensions |
| `LifeRules.Generations` | src/main.rs:118-121 | repeated steps keep the grid dimensions |
| `LifeRules.AllDeadIsDeadGrid` | src/main.rs:53 | a grid of the right shape without live cells is the cleared grid |
| `LifeRules.DeadStaysDead` | src/main.rs:42-63 | a step of an all-dead grid gives an all-dead grid |
| `LifeRules.DeadStaysDeadForever` | src/main.rs:118-121 | an all-dead grid stays the cleared grid after any number of steps |
| `LifeGame.Game.constructor` | src/main.rs:20-26 | a new game has the all-dead 60 × 30 grid and is not running |
| `LifeGame.Game.ClearGrid` | src/main.rs:52-54 | after clearing, every cell is dead, the dimensions are unchanged and `running` is untouched |
| `LifeGame.Game.CountNeighbours` | src/main.rs:64-74 | the 3 × 3 wrapped block sum minus the cell itself equals the eight-neighbour count `CountN` and lies in 0..8 |
| `LifeGame.Game.Update` | src/main.rs:42-51 | the new grid is exactly `Next` of the old grid: each cell is `CheckState` of its old value and its neighbour count in the old grid, the dimensions are unchanged and `running` is untouched |
| `LifeGame.Game.Set` | src/main.rs:110-115 | the written cell takes the written value; every other cell and `running` are unchanged |
| `LifePatterns.SetOnDeadIsLoneCell` | src/main.rs:111 | one write to the cleared grid leaves exactly that cell live |
| `LifePatterns.CornerCountsAcrossEdges` | src/main.rs:68-70 | a lone live cell at (0, 0) is counted as a neighbour by (59, 0), (0, 29) and (59, 29) |
| `LifePatterns.BlockCell` | src/main.rs:55-74 | each cell of the grid holding a 2 × 2 block keeps its state for one step |
| `LifePatterns.BlockIsStillLife` | src/main.rs:42-51 | a step leaves the 2 × 2 block unchanged |
| `LifePatterns.RowBlinkerCell` | src/main.rs:55-74 | in a row of three, the cells live after a step are exactly the column of three through its centre |
| `LifePatterns.ColumnBlinkerCell` | src/main.rs:55-74 | in a column of three, the cells live after a step are exactly the row of three through its centre |
| `LifePatterns.RowBlinkerTurns` | src/main.rs:42-51 | a step turns the row blinker into the column blinker |
| `LifePatterns.ColumnBlinkerTurns` | src/main.rs:42-51 | a step turns the column blinker into the row blinker |
| `LifePatterns.BlinkerHasPeriodTwo` | src/main.rs:118-121 | after one step the blinker is a column, and after two steps it is the original grid again |

## Left out

- Rendering (`Game::draw`, `draw_text`, the camera, `clear_background`,
  `next_frame`, src/main.rs:27-41 and 85-91): these are calls into the
  graphics library.
- Frame pacing (`timer`, `delta`, `get_frame_time`, the `fps` field and
  `FPS`, src/main.rs:79-84 and 117-125): wall-clock `f32` timing. Its
  `else if timer >= 5.` branch can never be taken after `timer >= 1.` fails.
  The model captures only its effect, a sequence of `Update` calls, as
  `LifeRules.Generations`.
- Keyboard and mouse decoding and the `running` toggle (src/main.rs:93-116):
  input handling. Only the cell writes they trigger are modelled, as
  `Game.Set`, and only the `running` field is kept.
- `calculate_pos` (src/main.rs:131-137): `f32` pixel-to-cell mapping of the
  mouse position. It does no bounds check, and `Game.Set` requires in-range
  coordinates, as the indexing at src/main.rs:111 and 114 does.
- The `STATE` enum (src/main.rs:8-11): mode state of the presentation loop.
