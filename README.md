# Game of Life on a torus, with a two-stage pipeline and a column printer

This project models the sequential core of `example_code/item_58_learn.py`, a Conway's
Game of Life written as a thread-and-queue pipeline. It covers seven parts:

- **Grid.** `Grid` (and `LockGrid`, whose lock adds nothing sequentially) is a height × width
  matrix of cells, each `ALIVE` (`"*"`) or `EMPTY` (`"-"`). `get` and `set` reduce both
  coordinates modulo the dimensions, so the grid is a torus. `str(grid)` prints one line
  per row.
- **The rule.** `game_logic` applies the B3/S23 rule to a state and a count.
- **The count.** `count_neighbors` counts the live cells among the eight neighbours that an
  accessor returns.
- **The thread wrappers.** `count_neighbors_thread` and `game_logic_thread` reshape work
  items and turn exceptions into values.
- **One generation.** `simulation_pipeline` enqueues every cell, runs the two stages, and
  drains the results into a fresh grid.
- **The printer.** `ColumnPrinter` lays multi-line texts side by side under a header row
  that numbers the columns.
- **Two patterns.** A 2 × 2 block is a still life, and the glider that the script seeds
  into a 5 × 9 grid takes its next phase after one generation.

Module layout (one file each):

| module | file | models |
|---|---|---|
| `Wrappers` | `wrappers.dfy` | `Option` |
| `LifeRules` | `life_rules.dfy` | states, glyphs, `game_logic` |
| `Text` | `text.dfy` | the Python `str` operations the printer uses (`splitlines`, `sep.join`, `str(n)`, `' ' * n`), and `split` on a character, which the printer does not call but which states the join's round trip |
| `Arith` | `arith.dfy` | facts about `//` and `%` by a positive number; Python's floor modulo equals Dafny's `%` for a positive divisor |
| `Grids` | `grid.dfy` | value-level torus (`At`, `Put`, `Blank`, `Render`) and the class `Grid` |
| `Neighbors` | `neighbors.dfy` | `count_neighbors` |
| `Pipeline` | `pipeline.dfy` | the thread wrappers, the next generation, and `simulation_pipeline` as a method |
| `Columns` | `columns.dfy` | `ColumnPrinter` |
| `Patterns` | `patterns.dfy` | the block and the script's glider, stepped one generation |

How the model maps onto the source:

- **Grid.** `Grid` is a class. `__init__` and `__str__` are methods with loops, as in the
  source. `set` is a method that updates one cell. `get` is a function over the object.
- **Value-level twins.** Each grid operation also has a twin on plain rows (`At`, `Put`,
  `Blank`, `Render`). The properties are proved on the twins.
- **The queues.** Each queue is a sequence. A worker stage (`StoppableWorker.run`) is a loop
  that maps its input queue to its output queue.
- **Drain order.** The order in which the last queue is drained is a parameter: any
  permutation of the item numbers. Each stage treats items independently. So every order
  the workers could produce is an in-order pass through both stages followed by some
  permuted drain.

Two points about error payloads:

- **The final drain.** The code does not look for error payloads before calling
  `next_grid.set`. The model does not take that path: `Pipeline.DrainInto` requires every
  payload to be a success, and the model proves that on a well-formed grid no payload is
  ever an error (`Pipeline.StagesCompose`, `Pipeline.UpdateIsNextCell`), so the
  requirement always holds inside `Pipeline.SimulationPipeline`.
- **`game_logic_thread` with a failed count.** If the count were an exception, an alive
  cell would raise `TypeError`: `neighbors < 2` compares an exception with an int. An empty
  cell would stay empty, because `neighbors == 3` is simply false. `Pipeline.GameLogicThread`
  models both branches.

## Model

| member | source | states |
|---|---|---|
| LifeRules.Glyph | example_code/item_58_learn.py:54-55 | a state prints as `*` when alive and `-` when empty, and as nothing else |
| LifeRules.GameLogic | example_code/item_58_learn.py:135-144 | an alive cell stays alive iff its count is 2 or 3; an empty cell becomes alive iff its count is 3 |
| LifeRules.GameLogicIsB3S23 | example_code/item_58_learn.py:135-144 | the rule's if-chain equals B3/S23: alive next iff the count is 3, or the cell is alive and the count is 2 |
| Text.SplitLines | example_code/item_58_learn.py:197 | `splitlines` yields lines free of boundaries, and no lines exactly for the empty string |
| Text.SplitLinesRoundTrip | example_code/item_58_learn.py:197 | each line of `splitlines`, followed by the boundary that ended it (empty after an unterminated last line), re-joins to the original text |
| Text.SplitLinesBoundaries | example_code/item_58_learn.py:197 | every line ends in a boundary character or `"\r\n"`, except a non-empty last line that runs to the end of the text |
| Text.SplitLinesKeepsCRLF | example_code/item_58_learn.py:197 | a line ended by a lone `"\r"` is not followed by `"\n"`, so `"\r\n"` is always one boundary |
| Text.SplitLinesLast | example_code/item_58_learn.py:197 | text with no boundary before its end is one last line, ended by no boundary |
| Text.SplitLinesCons | example_code/item_58_learn.py:202 | a line followed by `"\n"` is split off as the first line of the rest |
| Text.SplitOn | example_code/item_58_learn.py:212 | the inverse used to state the join's round trip (`split` on a character): at least one piece, and no piece contains the character |
| Text.JoinWithEnds | example_code/item_58_learn.py:209-212 | `sep.join(parts)` of at least one part starts with the first part and ends with the last |
| Text.JoinWithAvoids | example_code/item_58_learn.py:209-212 | joining keeps out a character that neither the parts nor the separator contain |
| Text.SplitOnJoinWith | example_code/item_58_learn.py:212 | splitting `'\n'.join(parts)` on `'\n'` gives back `parts` when no part contains `'\n'` |
| Text.Spaces | example_code/item_58_learn.py:204 | `' ' * n` is `max(n, 0)` spaces |
| Text.DecimalString | example_code/item_58_learn.py:205 | `str(i)` is a non-empty digit string without a leading zero |
| Text.DigitRoundTrip | example_code/item_58_learn.py:205 | a digit character lies in `0`–`9` and reads back as its value |
| Text.DecimalRoundTrip | example_code/item_58_learn.py:205 | the digits of `str(i)` read back as `i` |
| Grids.Blank | example_code/item_58_learn.py:59-64 | a new grid has `height` rows of `width` cells (none for negative sizes), all empty |
| Grids.Put | example_code/item_58_learn.py:69-70 | writing a cell keeps the grid's shape |
| Grids.At | example_code/item_58_learn.py:66-67 | `get`, the accessor handed to the counter: inside the bounds it reads the stored cell |
| Grids.AtWraps | example_code/item_58_learn.py:66-67 | `get` (the accessor the counter reads through) is toroidal: `get(y + k*height, x + m*width) == get(y, x)` for all integers k, m, negative included |
| Grids.AtPut | example_code/item_58_learn.py:66-70 | after `set(y, x, s)`, `get` at every coordinate (the accessor the counter reads through) returns `s` at coordinates congruent to (y, x) and the old cell elsewhere |
| Grids.RowText | example_code/item_58_learn.py:74-75 | a row's text has one character per cell |
| Grids.RowTextGlyphs | example_code/item_58_learn.py:74-75 | character j of a row's text is the glyph of cell j |
| Grids.Render | example_code/item_58_learn.py:72-78 | `str(grid)` is empty exactly for a grid without rows |
| Grids.RenderLength | example_code/item_58_learn.py:72-78 | `str(grid)` has length height × (width + 1) |
| Grids.RenderAt | example_code/item_58_learn.py:72-78 | the glyph of cell (i, j) is at offset i·(width+1)+j, and each line ends in `"\n"` at offset i·(width+1)+width |
| Grids.SplitLinesRender | example_code/item_58_learn.py:72-78 | the lines of `str(grid)` are exactly the rows' texts, one per row |
| Grids.Grid.constructor | example_code/item_58_learn.py:59-64 | the appending loop builds the blank grid of the given size and keeps the dimensions |
| Grids.Grid.Get | example_code/item_58_learn.py:66-67 | inside the bounds, `get` returns the stored cell |
| Grids.Grid.Set | example_code/item_58_learn.py:69-70 | only the addressed cell (mod the dimensions) changes, the grid stays well shaped, and every other `get` is unchanged |
| Grids.Grid.ToString | example_code/item_58_learn.py:72-78 | the nested accumulation loops produce `Render(rows)` |
| Neighbors.NeighborStates | example_code/item_58_learn.py:157-165 | the eight states are the accessor at the offsets N, NE, E, SE, S, SW, W, NW, in that order |
| Neighbors.CountAlive | example_code/item_58_learn.py:166-169 | the count is at most the number of states, and zero exactly when all are empty |
| Neighbors.CountAliveIsMultiplicity | example_code/item_58_learn.py:166-169 | the count equals the multiplicity of `ALIVE` among the states |
| Neighbors.CountAlivePermutation | example_code/item_58_learn.py:157-169 | the visiting order of the neighbours does not change the count |
| Neighbors.NeighborCount | example_code/item_58_learn.py:156-170 | `count_neighbors` is between 0 and 8 |
| Neighbors.CountNeighbors | example_code/item_58_learn.py:156-170 | the counting loop returns the number of live cells among the eight neighbours, at most 8 |
| Neighbors.NeighborCountLocal | example_code/item_58_learn.py:156-170 | the count depends only on the accessor's values at the eight offsets |
| Neighbors.NeighborCountIgnoresCenter | example_code/item_58_learn.py:156-170 | the cell (y, x) itself is never read |
| Neighbors.NeighborCountWraps | example_code/item_58_learn.py:156-170 | on a grid the count is periodic in both coordinates |
| Pipeline.CountNeighborsThread | example_code/item_58_learn.py:173-179 | y, x and state pass through, and the payload is a successful count between 0 and 8 |
| Pipeline.GameLogicThread | example_code/item_58_learn.py:147-153 | y and x pass through; a count gives `game_logic(state, count)`; a caught exception raises again for an alive cell and leaves an empty cell empty |
| Pipeline.StagesCompose | example_code/item_58_learn.py:147-179 | the two stages in sequence turn (y, x, state, get) into (y, x, `game_logic(state, count_neighbors(y, x, get))`), never an error |
| Pipeline.NextGeneration | example_code/item_58_learn.py:234-257 | the next generation has the old grid's shape |
| Pipeline.NextGenerationAt | example_code/item_58_learn.py:234-257 | read at any coordinates, the next generation is the rule applied there to the old `get` and its count |
| Pipeline.EmptyStaysEmpty | example_code/item_58_learn.py:234-257 | an all-empty grid stays all empty |
| Pipeline.NeighborCountMod | example_code/item_58_learn.py:156-170 | the count at the reduced coordinates equals the count at the coordinates themselves |
| Pipeline.AtShift | example_code/item_58_learn.py:66-67 | the grid shifted by (dy, dx) reads at (a, b) what the original reads at (a−dy, b−dx) |
| Pipeline.ShiftedCount | example_code/item_58_learn.py:156-170 | neighbour counts move with a shifted grid |
| Pipeline.ShiftStepAt | example_code/item_58_learn.py:234-257 | at every cell, stepping a shifted grid equals shifting the stepped grid |
| Pipeline.NextGenerationCommutesWithShift | example_code/item_58_learn.py:234-257 | one generation commutes with every translation of the torus |
| Pipeline.CellItems | example_code/item_58_learn.py:240-243 | there are height × width work items |
| Pipeline.ItemIsCell | example_code/item_58_learn.py:240-243 | every work item is a cell inside the grid, carrying that cell's state |
| Pipeline.CellIsItem | example_code/item_58_learn.py:240-243 | every cell (y, x) is enqueued, as item y·width+x |
| Pipeline.EnqueueCells | example_code/item_58_learn.py:240-243 | the row-by-row loop enqueues exactly the work items, in row-major order |
| Pipeline.RunStage | example_code/item_58_learn.py:129-132 | a worker stage maps every input item to the output queue: the same count, item k going to `func(item k)` |
| Pipeline.Updates | example_code/item_58_learn.py:240-255 | the output queue has one update per cell |
| Pipeline.UpdateIsNextCell | example_code/item_58_learn.py:240-255 | update k is a success that sets cell (k / width, k % width) to that cell of the next generation |
| Pipeline.IotaOnce | example_code/item_58_learn.py:240-243 | the item numbers 0..n−1 list each item exactly once |
| Pipeline.DrainOrderCovers | example_code/item_58_learn.py:240-255 | a drain order (a permutation of the item numbers 0..n−1) has n entries, names only existing items, names every one of them, and repeats none |
| Pipeline.DrainStep | example_code/item_58_learn.py:252-255 | after each `set`, the drained cells hold their new state and all the others are still empty |
| Pipeline.OutputQueue | example_code/item_58_learn.py:240-255 | after both stages, item k of the output queue sets cell (k / width, k % width) to its next-generation state |
| Pipeline.DrainInto | example_code/item_58_learn.py:252-255 | whatever the drain order, the fresh grid ends equal to the target, with the same size |
| Pipeline.SimulationPipeline | example_code/item_58_learn.py:234-257 | the returned grid is new, has the old size, and equals the next generation, for every drain order |
| Patterns.WrapBack | example_code/item_58_learn.py:66-67 | `get` one place back wraps from index 0 to the last index, as Python's `%` does |
| Patterns.WrapForward | example_code/item_58_learn.py:66-67 | `get` one place forward wraps from the last index to 0 |
| Patterns.StepCell | example_code/item_58_learn.py:156-170 | a cell of the next generation is the rule applied to the cell and the sum of its eight neighbours read through `get` |
| Patterns.StepCellWrapped | example_code/item_58_learn.py:156-170 | a cell of the next generation is the rule applied to the cell and its eight neighbours, whose indices wrap from the first to the last row or column and back |
| Patterns.NextGenerationSteps | example_code/item_58_learn.py:234-257 | every cell of the next generation is the rule applied to the cell and its eight neighbours, with wrapped indices |
| Patterns.BlockAt | example_code/item_58_learn.py:59-70 | a new 4 × 4 grid with the four middle cells `set` alive reads alive exactly there, at every coordinate of the torus |
| Patterns.BlockRuleCell | example_code/item_58_learn.py:135-144 | by the rule, every cell of a 4 × 4 grid holding a 2 × 2 block keeps its state for a generation |
| Patterns.BlockRuleStill | example_code/item_58_learn.py:135-144 | by the rule, a generation after a 2 × 2 block in a 4 × 4 grid is that same grid |
| Patterns.BlockIsStill | example_code/item_58_learn.py:234-257 | the block is a still life: one generation leaves it unchanged |
| Patterns.GliderAt | example_code/item_58_learn.py:261-266 | the script's seed reads alive exactly on its five cells (0, 3), (1, 4), (2, 2), (2, 3), (2, 4) |
| Patterns.GliderRuleCell | example_code/item_58_learn.py:135-144 | by the rule, a cell after the glider is alive exactly on (1, 2), (1, 4), (2, 3), (2, 4), (3, 3) |
| Patterns.GliderRule | example_code/item_58_learn.py:135-144 | a generation after the glider is the grid alive exactly on those five cells |
| Patterns.GliderStep | example_code/item_58_learn.py:261-274 | the first generation the script computes from its seed is the glider's next phase, one row lower |
| Columns.RowCount | example_code/item_58_learn.py:194-197 | `row_count` is at least 1, at least every column's line count + 1, and equal to 1 or to one of them |
| Columns.AlignedColumnsNonEmpty | example_code/item_58_learn.py:202-203 | when the printer returns, no column is empty, because the header row looks up every column's first line |
| Columns.Cell | example_code/item_58_learn.py:202-207 | a column's contribution to a row holds no `"\n"`; in the header it is as wide as twice half the first line's length plus the digits of the column number |
| Columns.PaddedAvoidsNewline | example_code/item_58_learn.py:204-205 | the padded column number holds no `"\n"` |
| Columns.LayoutRow | example_code/item_58_learn.py:201-210 | an output row holds no `"\n"` |
| Columns.Layout | example_code/item_58_learn.py:199-210 | the printer lays out exactly `row_count` rows |
| Columns.CellsStep | example_code/item_58_learn.py:201-210 | each column after the first adds the separator (space, bar, space) and then its contribution to the row |
| Columns.Misaligned | example_code/item_58_learn.py:202 | a column without the looked-up line makes the printer raise |
| Columns.FillStep | example_code/item_58_learn.py:198-207 | appending layout row j to the still-empty output row j keeps the earlier rows filled and the later ones empty |
| Columns.RowsAreLayout | example_code/item_58_learn.py:199-212 | rows that each equal their layout row are the whole layout, and nothing raised |
| Columns.AlignedIffUniform | example_code/item_58_learn.py:193-212 | the printer returns iff every column has the same, non-zero number of lines (`row_count − 1`) |
| Columns.LayoutLines | example_code/item_58_learn.py:212 | the printed text splits on `"\n"` back into exactly `row_count` rows |
| Columns.PrintedGridsAligned | example_code/item_58_learn.py:193-212 | printing `str(grid)` of grids of one height H > 0 returns, with H + 1 rows |
| Columns.PrintedGridsHeader | example_code/item_58_learn.py:203-205 | over such grids, the header row is each grid's number padded by width / 2 spaces on each side, joined by the separator (space, bar, space) |
| Columns.PrintedGridsRow | example_code/item_58_learn.py:206-210 | over such grids, row y + 1 is row y of every grid, joined by the separator (space, bar, space) |
| Columns.ColumnPrinter.constructor | example_code/item_58_learn.py:187-188 | a new printer has no columns |
| Columns.ColumnPrinter.Append | example_code/item_58_learn.py:190-191 | `append` adds the text as the rightmost column and changes nothing else |
| Columns.ColumnPrinter.CountRows | example_code/item_58_learn.py:194-197 | the running-maximum loop computes `row_count` |
| Columns.ColumnPrinter.FillRow | example_code/item_58_learn.py:201-210 | the column loop builds layout row j when every column has its line, and otherwise reports a column that lacks it |
| Columns.ColumnPrinter.LayoutRows | example_code/item_58_learn.py:198-210 | the outer loop yields exactly the layout rows, and stops early (where the source raises) iff the columns are not aligned |
| Columns.ColumnPrinter.ToString | example_code/item_58_learn.py:193-212 | `str(printer)` raises iff the columns are not aligned, and otherwise returns the layout rows joined by `"\n"` |

## Left out

- The threads, queues, joins and the sentinel protocol are left out. This covers `ClosableQueue`, `StoppableWorker`, the worker start-up and shut-down, and the race noted in the comments around `out_queue.close()`. Each stage is a sequential map, and the drain order is a parameter. Which permutation the threads actually produce is not modelled.
- The lock in `LockGrid` is left out. `LockGrid` is `Grids.Grid`.
- The `try`/`except` capture in the thread wrappers is modelled as an `Outcome` value. No exception can arise in the modelled stages, and `SimulationError` is never used.
- Process housekeeping is left out: the temporary directory, `chdir`, `atexit`, closing files through `gc`, and `random.seed`. The driver script's `print` is left out too. Both are I/O or interpreter state.
- Cell values are the two states only. The source would store any Python value that `set` is given.
- Grids.Grid.Get: requires positive dimensions. The source raises `ZeroDivisionError` at zero; with negative dimensions the rows are empty and the lookup fails.
- Grids.Grid.Set: requires positive dimensions, for the same reason as `get`.
- Pipeline.DrainInto: requires output queues whose every payload is a successful state. The source would `set` an exception object into the grid; that path is not modelled, and the model proves instead that no payload is an error.
- Pipeline.SimulationPipeline: requires positive dimensions. On a grid with no cells the source returns an empty grid; that degenerate case is not modelled.
- Columns.ColumnPrinter.ToString: returns `None` where the source raises `IndexError`. The exception object itself is not modelled.
- Columns.ColumnPrinter.LayoutRows: returns `None` where the source raises `IndexError`, for the same reason.
- Text.SplitLines: follows Python's line boundaries for `str` (`\n`, `\r`, `\r\n`, `\v`, `\f`, `\x1c`–`\x1e`, `\x85`, `\u2028`, `\u2029`). Strings are sequences of characters, with no encoding.
- The driver script's later generations are not proved. `Patterns.GliderStep` proves the first one. Each further generation needs its own cell-by-cell lemma, and its own grid built with `set`, at a verifier cost comparable to the first.
