# life-game in Dafny

A model of the engine behind the two front-ends of life-game, a cellular
automaton loosely based on Conway's Game of Life. The console front-end
(`life_game.py`) runs up to a given number of generations on its own. The
windowed front-end (`life_game_ui.py`) advances one generation per call.
Each front-end has the same four parts:

- **Grid and rule** (module `LifeRules`, `life_rules.dfy`). A grid is a
  sequence of rows of integer cells, with 1 for alive and 0 for dead.
  `updateCell` sums the cell and its in-bounds neighbours. It looks that sum
  (0..9) up in `RULE_DICT`, which makes the cell alive exactly for the sums 3
  and 4. Every cell of the next generation is computed from the unchanged
  current grid.
- **Border growth** (module `Periphery`, `periphery.dfy`). `peripheryExpand`
  / `periphery_expand` tests the top, bottom, left and right edges in turn.
  When an edge holds a live cell and that axis is below its maximum, it adds
  one all-0 row or column on that side. `Expanded` is the reference
  definition. The method `PeripheryExpand` follows the source's four steps
  and its row-by-row column loops, and is proved equal to `Expanded`.
- **History**:
  - the window both queues answer for is in module `Window` (`window.dfy`);
  - the console queue keeps a growing list plus a head index, and cuts off the
    consumed prefix once the head passes `maxHead` (module `LifeGame`,
    `life_game.dfy`);
  - the windowed queue is a fixed array of `size` slots, overwritten in a
    circle (module `LifeGameUi`, `life_game_ui.dfy`);
  - each queue has a ghost record `added` of everything added, and is proved
    to answer `item in q` exactly for the last `size` items added.
- **The grid object** (`LifeGrid` in `LifeGame` and in `LifeGameUi`). This
  covers the constructor, `updateCell`, the generation step and the two
  status queries:
  - the console `UpdateGrid` is proved against `Run` (the grid after k
    generations) and `Recorded` (what the history receives);
  - the windowed `UpdateGrid` is proved against `Step`.

Both files define `peripheryExpand` with the same text. One `PeripheryExpand`
method models both, and each front-end passes its own maxima:
- the console uses 100 by 100;
- the windowed front-end uses 100 by 100 when it sets the grid up
  (`life_game_ui.py:144`), and 50 by 50 after each generation
  (`life_game_ui.py:172`).

Where the code and its description disagree, the model follows the code:
- **Birth at 4.** `RULE_DICT` also brings a dead cell with four live
  neighbours to life. The comment at `life_game.py:151` says birth happens
  at exactly three. `ClassicRule` states the rule as written.
- **What is recorded.** The console loop records `_gridNew` before computing
  (`life_game.py:183`), not the current grid. Its first record is the all −1
  grid set up at `life_game.py:161`. After that it records the previous
  generation, which equals the current grid at that point. So the starting
  grid is never recorded as such. The windowed front-end records `_grid`
  (`life_game_ui.py:164`).
- **The column test.** This uses `len(self._grid[x])`, the length of row x
  for x in {-1, 0, 1}, and not row `r + x`. `Contribution` models it through
  `PyRow`, Python's indexing with negative indices. `ColumnBoundIsWidth`
  shows it is the grid's width on a rectangular grid.

## Model

| member | source | states |
|---|---|---|
| LifeRules.Sum | life_game.py:173 | Python's `sum` of a list; a list of 0/1 values sums to between 0 and its length |
| LifeRules.Total | life_game.py:211 | `sum(map(sum, grid))`, the sum of the row sums, is never negative on a 0/1 grid |
| LifeRules.TotalOfBinary | life_game.py:208-211 | on a 0/1 grid the sum of all cells is positive exactly when some cell is 1, and zero exactly when every cell is 0 |
| LifeRules.PyRow | life_game.py:170 | `self._grid[x]` for x in -1..1 is a row of the grid, counted from the end for x = -1; on a rectangle it is as long as the width |
| LifeRules.Contribution | life_game.py:169-170 | one term of the comprehension: only a cell that passes the row test and the column test contributes, and then it contributes its value; on a 0/1 grid each term is 0 or 1 |
| LifeRules.ColumnBoundIsWidth | life_game.py:169-170 | the column test made against row `self._grid[x]` is a test against the grid's width when the grid is rectangular, so each term is the in-bounds neighbour's value |
| LifeRules.NeighbourSum | life_game.py:169-173 | `sum(nbr)` over the nine offsets visited by the comprehension; on a 0/1 grid it lies in 0..9 |
| LifeRules.NeighbourSumTerms | life_game.py:169-170 | `sum(nbr)` is the sum of the nine contributions at offsets (-1..1, -1..1), the cell itself included |
| LifeRules.NeighbourSumRange | life_game.py:169-173 | on a 0/1 grid the sum lies in 0..9 and counts the cell itself exactly once |
| LifeRules.Rule | life_game.py:153 | `RULE_DICT.get(total)` is defined exactly for totals 0..9, gives 1 exactly for 3 and 4, and otherwise 0 |
| LifeRules.NextCell | life_game.py:173 | the next state of a cell is 0 or 1, alive exactly when the neighbour sum is 3 or 4 |
| LifeRules.RuleGivesNextCell | life_game.py:169-173 | the `RULE_DICT` lookup of the neighbour sum is always defined and gives the cell's next state |
| LifeRules.ClassicRule | life_game.py:147-153 | a live cell survives exactly with 2 or 3 live neighbours; a dead cell is born exactly with 3 or 4 live neighbours, the 4 contradicting the comment's rule |
| LifeRules.NextGeneration | life_game.py:186-188 | the next generation has the grid's shape and is a 0/1 rectangle |
| LifeRules.NextGenerationCells | life_game.py:186-188 | every cell of the next generation is the next state of the same cell of the unchanged current grid, whatever the visiting order |
| LifeRules.DeadGenerationIsDead | life_game.py:166-173 | an all-dead grid has itself as the next generation |
| LifeRules.LoneCellDies | life_game.py:149 | a lone live cell in a 3 by 3 grid dies of isolation |
| LifeRules.Placeholder | life_game.py:161 | the all -1 grid has the asked-for shape and, having a cell, is never a 0/1 grid |
| Periphery.GrowthOf | life_game.py:55-77 | the four edge tests as they fall out on a rectangle: a side grows only when its edge sums to more than 0, and the grown row count and width never pass the larger of the old size and the maximum |
| Periphery.Expanded | life_game.py:52-79 | the reference grown grid: a rectangle framed with at most one row or column of 0s on each side |
| Periphery.PeripheryExpand | life_game.py:52-79 | the four edge tests and growth steps, the column steps row by row, give exactly the reference grown grid `Expanded`; `periphery_expand` at life_game_ui.py:100-127 is the same text |
| Periphery.PrependColumn | life_game.py:65-71 | the left step's loop puts a 0 in front of exactly the rows shorter than the maximum |
| Periphery.AppendColumn | life_game.py:73-77 | the right step's loop appends a 0 to exactly the rows shorter than the maximum |
| Periphery.AddTop | life_game.py:55-59 | the top step on its own keeps a rectangle of the same width |
| Periphery.AddBottom | life_game.py:61-63 | the bottom step on its own keeps a rectangle of the same width |
| Periphery.AddLeft | life_game.py:65-71 | the left step on its own keeps a rectangle |
| Periphery.AddRight | life_game.py:73-77 | the right step on its own keeps a rectangle with the same row count |
| Periphery.TopStep | life_game.py:55-59 | the top step adds a row of 0s above exactly when the top row's sum is positive and the row count is below the maximum |
| Periphery.BottomStep | life_game.py:61-63 | the bottom step adds a row of 0s below exactly when the bottom row's sum is positive and the row count, after the top step, is below the maximum |
| Periphery.LeftStep | life_game_ui.py:113-119 | the left step adds a column of 0s on the left exactly when the first column's sum is positive and the width is below the maximum; the rows added before do not change that sum |
| Periphery.RightStep | life_game_ui.py:121-125 | the right step adds a column of 0s on the right exactly when the last column's sum is positive and the width, after the left step, is below the maximum |
| Periphery.StepsExpand | life_game.py:55-77 | the four steps, in `peripheryExpand`'s order top, bottom, left, right, build the reference grown grid |
| Periphery.ExpandedKeepsCells | life_game.py:55-79 | growth never drops or changes a cell: the result is rectangular, and each cell is the input's cell shifted down one row if the top grew and right one column if the left grew, or an added 0; a 0/1 grid stays 0/1 |
| Periphery.ExpandedSize | life_game.py:56-77 | each axis grows by at most 2, never shrinks, and never passes the larger of its old size and its maximum |
| Periphery.ExpandedBounds | life_game.py:56-77 | a side grows only when its edge holds a live cell and its axis is below its maximum |
| Periphery.ExpandedBorderDead | life_game.py:53-77 | with room for two more rows and two more columns, all four edges of the grown grid are dead, as the doc comment promises |
| Periphery.ExpandedDead | life_game.py:55-77 | an all-dead grid does not grow |
| Periphery.Step | life_game.py:186-192 | one generation of either front-end, the transition grown up to the given maxima (100 by 100 in the console, 50 by 50 at life_game_ui.py:166-173), is a 0/1 rectangle that never shrinks and never grows an axis past the larger of its size and the maximum |
| Periphery.StepOfDead | life_game.py:186-192 | one generation leaves an all-dead grid as it is, whatever the maxima |
| Window.Last | life_game.py:125-138 | the window is the last min(n, size) items added, oldest first |
| Window.LastAppend | life_game.py:125-129 | adding to a full window drops the oldest item and appends the new one; adding to a window with room only appends |
| Window.InLast | life_game.py:137-138 | an item is in the window exactly when it equals one of the last `size` items added |
| Window.LastHasNewest | life_game_ui.py:164 | the item added last is always in the window |
| LifeGame.FifoQueue.constructor | life_game.py:118-123 | an empty list, head 0, the given size and compaction threshold |
| LifeGame.FifoQueue.Add | life_game.py:125-129 | the item is appended; once the list is longer than `size` the head moves on one and `clean` runs; afterwards the live part is the window of everything added, its length is min(n, size), and the head is at most `maxHead` |
| LifeGame.FifoQueue.Clean | life_game.py:131-135 | the consumed prefix is cut off and the head reset to 0 exactly when the head has passed `maxHead`; the live part is unchanged |
| LifeGame.LiveAfterAdd | life_game.py:125-129 | appending an item, and moving past the oldest live item once the list outgrows `size`, leaves as live part the window with the item added |
| LifeGame.FifoQueue.Contains | life_game.py:137-138 | `item in q` holds exactly when the item is one of the last `size` items added |
| LifeGame.Run | life_game.py:181-192 | the grid after k generations is a 0/1 rectangle |
| LifeGame.RunStep | life_game.py:186-192 | each generation is one `Step` from the one before |
| LifeGame.RunBounds | life_game.py:191 | over any number of generations the grid never shrinks and never grows an axis past the larger of its start size and 100 |
| LifeGame.DeadStaysDead | life_game.py:181-192 | an all-dead grid stays the same grid for any number of generations |
| LifeGame.Recorded | life_game.py:181-183 | k generations record k grids |
| LifeGame.RecordedAt | life_game.py:183 | the first record is `_gridNew` as the loop found it (the all -1 grid after construction), and record j for j > 0 is generation j, so the starting grid is never recorded as such |
| LifeGame.GoesOn | life_game.py:197-203 | the loop goes on after a generation exactly when its cell sum is positive and it is not among the recorded grids the history answers for |
| LifeGame.WentOnNext | life_game.py:197-203 | when generation k + 1 is live and not among the last twenty records, the loop has gone on after each of the first k + 1 generations |
| LifeGame.LifeGrid.constructor | life_game.py:155-164 | the given population grown once up to 100 by 100, an all -1 grid of the same shape as `_gridNew`, and an empty history of twenty with threshold 10 |
| LifeGame.LifeGrid.UpdateCell | life_game.py:166-173 | only `_gridNew[r][c]` changes, to the rule applied to the neighbour sum read from `_grid` |
| LifeGame.LifeGrid.UpdateCells | life_game.py:186-188 | the nested loop leaves `_gridNew` equal to the next generation of the unchanged `_grid` |
| LifeGame.LifeGrid.Generation | life_game.py:181-192 | one pass of the loop body records `_gridNew`, then moves the grid from generation p to generation p + 1, with `_gridNew` equal to it |
| LifeGame.LifeGrid.UpdateGrid | life_game.py:175-203 | at most `iterCnt` generations are run (none when `iterCnt` is not positive); the grid is the generation reached; the history has every record the loop made; stopping early happens only after a generation whose grid is dead or among the last twenty records, and the loop went on after every earlier generation |
| LifeGame.LifeGrid.IsGridLive | life_game.py:208-211 | the grid is live exactly when its cell sum is positive, that is when some cell is 1 |
| LifeGame.LifeGrid.IsGridBalance | life_game.py:213-214 | the grid is balanced exactly when it equals one of the last twenty records |
| LifeGameUi.Circular | life_game_ui.py:191-199 | the slot layout after the items added: while fewer than `size` have been added they fill the slots from the front, the rest still the placeholder 0 and `head` the next free slot; afterwards reading from `head` round to the slot before it gives the last `size` items, oldest first |
| LifeGameUi.InEntries | life_game_ui.py:201-202 | a stored item's slot is among the slots of a sequence exactly when the item is in it |
| LifeGameUi.CircularAdd | life_game_ui.py:197-199 | writing slot `head` and moving `head` on modulo `size` keeps the circular layout, now with the item added |
| LifeGameUi.CircularHolds | life_game_ui.py:201-202 | in the circular layout an item's slot is present exactly when the item is one of the last `size` added; the placeholder 0s never match |
| LifeGameUi.FifoQueue.constructor | life_game_ui.py:191-195 | `size` placeholder slots, head 0, nothing added |
| LifeGameUi.FifoQueue.Add | life_game_ui.py:197-199 | only slot old `head` changes, to the item; `head` was below `size` and moves on by one modulo `size`; the layout is kept with the item added |
| LifeGameUi.FifoQueue.Contains | life_game_ui.py:201-202 | `item in q` holds exactly when the item is one of the last `size` items added |
| LifeGameUi.LifeGrid.constructor | life_game_ui.py:141-150 | the given population grown once up to 100 by 100, an all -1 grid of the same shape as `_gridNew`, and twenty empty history slots |
| LifeGameUi.LifeGrid.UpdateCell | life_game_ui.py:152-159 | only `_gridNew[r][c]` changes, to the rule applied to the neighbour sum read from `_grid` |
| LifeGameUi.LifeGrid.UpdateCells | life_game_ui.py:166-169 | the nested loop leaves `_gridNew` equal to the next generation of the unchanged `_grid` |
| LifeGameUi.LifeGrid.Generation | life_game_ui.py:166-173 | all cells rewritten from `_grid`, grown up to 50 by 50 and made the grid: the grid becomes `Step` of the old grid |
| LifeGameUi.LifeGrid.UpdateGrid | life_game_ui.py:161-175 | the old grid is recorded; the grid returned and kept is `Step` of the old grid; the old grid is in the history, so a generation that changes nothing is reported balanced at once |
| LifeGameUi.LifeGrid.IsGridLive | life_game_ui.py:177-179 | the grid is live exactly when its cell sum is positive, that is when some cell is 1 |
| LifeGameUi.LifeGrid.IsGridBalanced | life_game_ui.py:181-182 | the grid is balanced exactly when it equals one of the last twenty recorded grids |
| LifeGameUi.LifeGrid.GetGrid | life_game_ui.py:184-185 | the current grid, always a 0/1 rectangle |

## Left out

- Console and file output are not modelled: `showNote`, `showGrid`, the
  output file's removal and `subprocess.call` at the end of `updateGrid`.
  They are I/O.
- The `letsDoIt` command loop and its parsing of "count,rows,cols" are not
  modelled. They are console input.
- The windowed front-end's `main`, `handlerAdaptor`, `label_click` and
  `center_window` are not modelled. They are GUI code driven by a timer. The
  stop tests `label_click` makes after each call are `IsGridLive` and
  `IsGridBalanced`.
- The module-level calls `letsDoIt()` and `main()` are side effects of
  import, and are not modelled.
- The random initial population is a constructor parameter `init`, a
  non-empty rectangular 0/1 grid.
- `copy.deepcopy` is not modelled. Grids are Dafny values, so a recorded
  grid can never change afterwards. The windowed queue stores references, but
  a stored `_grid` object is never mutated afterwards: `_grid` is always
  replaced by a fresh copy.
- The `val=None` default of the growth function is not modelled: every call
  passes `val=0`, so added rows are always 0s.
- The Python 2 compatibility branches are not modelled.
- `getQueue` / `get_queue` are not modelled. They hand out the raw storage
  and promise nothing.
- Periphery.PeripheryExpand is specified on rectangular grids only. The
  source needs only a non-empty grid whose rows are non-empty, and every
  caller passes a rectangular one.
- `Run`, `Next`, `Grown` and `Transition` together define generation k, and
  `Generation` is the body of the console's loop. Both are split this way
  only to keep the proofs small.
- `SumAround` is the running sum behind `NeighbourSum`, and `Column`,
  `LastColumn`, `LastRow`, `Count`, `Pad`, `PadCell`, `Zeros`,
  `PrependZero` and `AppendZero` are the pieces `GrowthOf` and `Expanded`
  are written with, and `LoneCellSum` is one step of `LoneCellDies`; they
  are helpers and have no row above.
- A population with no rows or with empty rows is not modelled: the
  constructors require a rectangular `init`, which is non-empty with
  non-empty rows. On such a grid the source fails at `grid[0]`
  (`life_game.py:55`) or `grid[r][0]` (`life_game.py:65`), which the
  console reaches from the input "100,0,4".
- A windowed `FifoQueue` of size 0 is not modelled beyond its construction:
  its `add` fails at `life_game_ui.py:198`, indexing an empty list, so
  `LifeGameUi.FifoQueue.Add` requires a positive size. The grid object
  always uses size 20.
- `updateCell`, `isGridLive` and the cell loop are written out in both
  `LifeGrid` classes, because the two classes are separate in the source
  and Dafny has no shared base class here; `Step` and its dead-grid lemma
  are defined once, in `Periphery`, with the maxima as parameters.
- `FillingAdd`, `FullAdd` and `EntriesShift` split the proof of
  `CircularAdd`; they are helpers and have no row above.
