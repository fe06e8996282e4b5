# Game of Life generation engine, in Dafny

This project models the generation engine of a Game of Life program, `main.py`. The program keeps two `ROWS × COLS` buffers of integers:

- `grid` holds the current generation.
- `next_grid` is where the rule writes the next generation.

One generation runs `apply_rules` on every cell. For each cell, `apply_rules` uses `count_neighbors` to count the live cells in the bounded Moore neighbourhood. Edges do not wrap: a position off the grid counts as dead and is never read. It then writes the B3/S23 outcome into `next_grid`. After the loop, `copy_and_reset_grid` copies `next_grid` into `grid` and clears `next_grid`.

The project has four modules:

- `Grid` (`grid.dfy`): grid values (`seq<seq<int>>`), the two cell states `Dead = 0` and `Alive = 1`, filled grids, and planting a pattern.
- `Transition` (`transition.dfy`): the pure specification.
  - `LiveNeighbors` counts live cells over the eight Moore offsets, in the program's order.
  - `Written` is what `apply_rules` stores, and `None` when it stores nothing.
  - `NextState` is the rule.
  - `Step` is the next generation.
  - `RulePass` is what the rule loop leaves in the next buffer when that buffer held anything beforehand.
- `Patterns` (`patterns.dfy`): the blinker of `seed_test_grid` and the glider of `seed_glider_grid`. It proves that `Step` turns the blinker horizontal and then back.
- `GameOfLife` (`life.dfy`): the class `Life`.
  - It holds the two buffers as `array2<int>` fields, `grid` and `next`.
  - Operations that loop in the source (`initialize_grids`, `copy_and_reset_grid`, `compute_next_gen`, the glider placement) are methods with loops and loop invariants. The others (`count_neighbors`, `apply_rules`, `seed_test_grid`) are straight-line methods, as in the source.
  - `CountNeighbors`, `ApplyRules` and `ComputeNextGen` are proved against `LiveNeighbors`, `Written`, `RulePass` and `Step` from `Transition`. The constructor, `CopyAndReset`, `SeedTest` and `SeedGlider` are proved against the grid values `Filled` and `Plant` from `Grid` and `GliderAt` from `Patterns`.
  - `Valid()` is the double-buffer invariant: the next buffer is entirely dead between generations. The constructor establishes it and `ComputeNextGen` re-establishes it.

The source fixes the grid at 50 × 50 (`main.py:77-78`). The model takes any `rows > 0` and `cols > 0`.

Cell values are `int`, as in the source, and are not restricted to 0 and 1: the model follows the code. The source writes only 0 and 1, but the buffers are plain integer lists. For a cell holding any other value, `apply_rules` writes nothing (`main.py:145`, `main.py:152`), so the model keeps that case. A generation always yields a grid of 0s and 1s (`Step`).

## Model

| member | source | states |
|---|---|---|
| Transition.GuardedTests | main.py:159-182 | For a cell on the grid, each of the eight one-sided guards of `count_neighbors` (such as `row-1 >= 0 and col+1 < COLS`) followed by its live test gives exactly the position's term in the neighbour count, so an off-grid position counts as dead and is never read. |
| Transition.CountAlive | main.py:157-183 | Counting live cells over a list of offsets gives at most one per offset. |
| Transition.LiveNeighbors | main.py:157-183 | The neighbour count, taken over the eight Moore offsets in the program's order, is in [0, 8]. |
| Transition.NeighborsUnrolled | main.py:157-183 | The neighbour count is the sum of eight per-position terms, at the positions and in the order `count_neighbors` tests them. |
| Transition.NeighborBound | main.py:159-182 | Only on-grid neighbours are counted: at most Span(r)·Span(c) − 1 of them. Span is the number of rows, or columns, among i−1, i, i+1 that lie on the grid. |
| Transition.Span | main.py:159-182 | Span is 3 exactly for an interior index and between 1 and 3 otherwise. |
| Transition.FullNeighborhood | main.py:159-182 | On an all-live grid the bound is reached, so every on-grid neighbour is counted and none is lost. |
| Transition.CornerNeighbors | main.py:159-182 | A corner cell has at most 3 live neighbours. |
| Transition.EdgeNeighbors | main.py:159-182 | A cell on any border has at most 5 live neighbours. |
| Transition.Written | main.py:143-154 | What `apply_rules` stores, or `None` when it stores nothing. It writes nothing exactly when the cell is not live and is not a dead cell with 3 neighbours. Whatever it writes is 0 or 1, and it is Alive exactly when there are 3 neighbours, or 2 neighbours on a live cell. |
| Transition.NextState | main.py:145-154 | With a dead next buffer, the cell's next state is 0 or 1. It is Alive exactly for a live cell with 2 or 3 neighbours or a dead cell with 3 (B3/S23). |
| Transition.Step | main.py:135-140 | The next generation has the grid's shape and holds only 0 and 1. |
| Transition.RulePass | main.py:135-138 | The rule pass over every cell keeps the grid's shape. |
| Transition.RulePassFromDead | main.py:135-140 | If the next buffer is dead before the rule pass, the pass yields exactly the next generation `Step`. |
| Transition.StaleCellLeaks | main.py:152-154 | If a dead cell does not have 3 neighbours but its next-buffer cell is live, the pass leaves it live while the next generation has it dead. This is why the buffer must be cleared. |
| Transition.EmptyStaysEmpty | main.py:135-140 | The all-dead grid is its own next generation. |
| Patterns.GliderAt | main.py:127-132 | The glider anchored at (row, col) is the five cells (row, col), (row, col+1), (row, col+2), (row+1, col) and (row+2, col+1), in the order the program sets them. |
| Patterns.SeededStepAt | main.py:135-140 | On a grid where only some listed cells are alive, the next state of a cell depends only on whether it and its eight neighbours are in the list. |
| Patterns.BlinkerRule | main.py:105-108 | Cell by cell, the rule maps the vertical blinker (1,1), (2,1), (3,1) to the horizontal one (2,0), (2,1), (2,2). |
| Patterns.BlinkerTurnedRule | main.py:105-108 | Cell by cell, the rule maps the horizontal blinker back to the vertical one. |
| Patterns.BlinkerTurns | main.py:105-108 | On any grid of at least 4 × 3, one generation turns the seeded vertical blinker into the horizontal one. |
| Patterns.BlinkerTurnsBack | main.py:105-108 | One more generation turns it back, so the blinker has period 2. |
| GameOfLife.Life.constructor | main.py:83-89 | `initialize_grids`: both buffers are fresh, rows × cols, and every cell is dead. The double-buffer invariant holds. |
| GameOfLife.Life.CopyAndReset | main.py:92-96 | `copy_and_reset_grid`: the current buffer equals the old next buffer cell for cell, and the next buffer is entirely dead. |
| GameOfLife.Life.CountNeighbors | main.py:157-183 | `count_neighbors` returns exactly `LiveNeighbors` of the current buffer. Every array access in its eight guarded tests is in bounds. |
| GameOfLife.Life.ApplyRules | main.py:143-154 | `apply_rules` stores `Written` into the next cell, or leaves the old value there when the rule writes nothing. No other cell of the next buffer changes, and the current buffer does not change. |
| GameOfLife.Life.ComputeNextGen | main.py:135-140 | `compute_next_gen`: the current buffer becomes the rule pass over the old current buffer and the old next buffer. If the double-buffer invariant held on entry, this is exactly `Step` of the old current buffer. On exit the next buffer is dead again. |
| GameOfLife.Life.SeedTest | main.py:105-108 | `seed_test_grid`: the current buffer gets the vertical blinker planted on it, and nothing else changes. |
| GameOfLife.Life.SeedGlider | main.py:126-132 | The placement loop of `seed_glider_grid`: the current buffer gets the glider planted at the given anchor, and nothing else changes. |
| GameOfLife.BlinkerRun | main.py:105-108 | The test scenario: fresh buffers, `seed_test_grid`, then two generations. The buffers are back to the seeded blinker, and the invariant holds. |

## Left out

- The pygame view (`initialize_view`, `draw_view_grid`, `draw_view`, `close_view`, `main.py:15-72`) and `main` (`main.py:186-214`) are display, timer and event I/O.
- `print_grid` (`main.py:99-102`) only prints to the console.
- `seed_random_grid` (`main.py:111-123`) is left out. It draws random positions until it has enough distinct ones, so its termination depends on the random source.
- In `seed_glider_grid`, the random anchors and the loop over the number of gliders (`main.py:128-130`) are left out. `SeedGlider` places one glider at an anchor the caller supplies, with `row + 3 <= rows` and `col + 3 <= cols`.
- `initialize_grids` appends to the module-level lists, so calling it twice would grow them. The constructor always creates fresh buffers, so that case does not arise in the model.
- The grid dimensions are the fields `rows` and `cols`, not the constants `ROWS = COLS = 50`.
- Python integers are unbounded, like Dafny's `int`, so no width or overflow is modelled.
- The glider's translation by one cell diagonally every four generations is not proved. Nothing in the program relies on it.
