# Minesweeper engine model

A Dafny model of the `Minesweeper` class of a small C++ Minesweeper game
(`minesweeper.h`, `minesweeper.cpp`). The engine keeps a rectangular board
of cell records (coordinate, flag, mine, opened, number of neighbouring
mines), a game status (`NotStarted`, `InProgress`, `Victory`, `Defeat`), a
counter of opened cells, the number of safe cells to open for a victory,
and the start and end times of the game.

The model follows the source's structure:

- `grid.dfy` (module `Grid`): the records, the board as a sequence of rows,
  the eight-neighbour list `Neighbours` in the engine's clockwise order, and
  the sets of opened, closed, mined and safe cells.
- `layout.dfy` (module `Layout`): what a board looks like once mines are laid
  (`Laid`), with the neighbour counts the setup accumulates; exactness of the
  counts for a list of distinct mines; how the random setup turns a cell
  index into a coordinate.
- `fill.dfy` (module `Fill`): the specification of the breadth-first reveal.
  A cell is `Reachable` from the start when a fill path leads to it. A fill
  path is a chain of adjacent cells that are neither open nor flagged, in
  which every cell except the last has a count of zero. `Filled` is the
  board with those cells opened. This module also holds the loop invariant
  of the queue-driven reveal.
- `render.dfy` (module `Render`): the text dump of the board.
- `engine.dfy` (module `Engine`): class `Minesweeper`. Its fields are
  updated in place by the constructors, `NewGameRandom`, `NewGameWithList`,
  `OpenCell`, `MarkCell` and their private helpers. Every public operation
  preserves the invariant `Valid`:
  - the board has its dimensions and every record stores its own coordinate;
  - a zero-count cell has no neighbouring mine;
  - until a defeat, the counter counts the opened cells and no mine is open;
  - a victory has reached the safe-cell target;
  - a defeat has opened every cell.

  `Consistent` adds that every count is exact and that the target is the
  number of safe cells. It holds whenever the setup was given distinct
  mines.

The loops of the source are loops here:
- the nested loops of the constructor that number the cells;
- the two setup loops;
- the increment loop over the neighbours;
- the defeat loop that opens the board;
- the reveal's queue loop and its inner loop over the neighbours.

Each loop is proved against the function or predicate that specifies it.

The wall clock is a parameter `now` of the operations that read it. The
random shuffle of cell indices is a parameter `ids`: any permutation of the
board's cell indices.

## Model

| member | source | states |
|---|---|---|
| `Grid.NeighboursUpTo` | minesweeper.cpp:214-252 | the neighbours found at the first `k` of the eight offsets (upper-left clockwise to left) are exactly the in-grid adjacent cells at those offsets, without repeats |
| `Grid.Neighbours` | minesweeper.cpp:214-252 | the neighbour list holds exactly the in-grid cells at Chebyshev distance 1, never the cell itself, each once, at most eight |
| `Grid.CornerNeighbours` | minesweeper.cpp:214-252 | each corner of a board at least 2 by 2 has exactly three neighbours |
| `Grid.InteriorNeighbours` | minesweeper.cpp:214-252 | an interior cell has all eight neighbours |
| `Grid.NeighboursSymmetric` | minesweeper.cpp:214-252 | `n` is listed as a neighbour of `c` exactly when `c` is listed as a neighbour of `n` |
| `Grid.SafeAndMinesPartition` | minesweeper.cpp:19 | safe cells and mined cells together are all `w * h` cells of the board |
| `Layout.LaidSafeZeros` | minesweeper.cpp:61-67 | after mines are laid, even from a list with repeats, a cell with count zero has no neighbouring mine |
| `Layout.LaidCountsExact` | minesweeper.cpp:254-259 | laying distinct in-grid mines gives every cell the exact number of mines among its neighbours |
| `Layout.CountsAtMostEight` | minesweeper.cpp:254-259 | with exact counts no cell's count exceeds eight |
| `Layout.LaidMines` | minesweeper.cpp:26 | with distinct in-grid mines the mined cells are exactly the listed ones, so `w * h - count` is the number of safe cells |
| `Layout.CellOfIdInGrid` | minesweeper.cpp:53-55 | an index below `w * h` names an in-grid cell (column `id % w`, row `id / w`) |
| `Layout.CellOfIdInjective` | minesweeper.cpp:54-55 | distinct indices name distinct cells |
| `Layout.RandomMinesDistinct` | minesweeper.cpp:42-59 | the first `count` entries of a shuffled index list give `count` distinct in-grid mines |
| `Fill.Filled` | minesweeper.cpp:178-212 | the board after the reveal from `s`: a cell is open iff it was open or is reachable by a fill path, and nothing but opened bits changes |
| `Fill.ReachEligible` | minesweeper.cpp:203-205 | the reveal only reaches cells that were neither open nor flagged |
| `Fill.ReachThroughZero` | minesweeper.cpp:193-208 | every reached cell other than the start has a reached zero-count neighbour: only zero-count cells are expanded |
| `Fill.ReachFromNumbered` | minesweeper.cpp:193-196 | a reveal started on a numbered cell reaches that cell and nothing else |
| `Fill.ReachNoMine` | minesweeper.cpp:178-212 | on a board whose zero-count cells have no neighbouring mine, a reveal from a safe cell never reaches a mine |
| `Fill.FilledBehaviour` | minesweeper.cpp:178-212 | the reveal opens the start; open cells stay open; closed flagged cells stay closed; a numbered start is opened alone; a safe start opens no mine |
| `Fill.QueueStart` | minesweeper.cpp:179-180 | the queue holding only the start satisfies the reveal's loop invariant |
| `Fill.QueueSkip` | minesweeper.cpp:185-188 | popping an already opened head keeps the loop invariant |
| `Fill.VisitNumbered` | minesweeper.cpp:190-196 | opening a numbered head and popping it keeps the loop invariant |
| `Fill.VisitZero` | minesweeper.cpp:199-210 | opening a zero-count head, queuing its neighbours that are neither open nor flagged and popping it keeps the loop invariant |
| `Fill.ReachableOpened` | minesweeper.cpp:182-211 | a board that opened the start and every eligible neighbour of each zero-count cell it opened has every reachable cell open |
| `Fill.QueueDone` | minesweeper.cpp:182-211 | when the queue is empty the board is exactly `Filled` of the board the reveal started from |
| `Render.DecimalString` | minesweeper.cpp:153 | the decimal text of a count is non-empty, all digits, and a single digit below ten |
| `Render.CellTextGlyph` | minesweeper.cpp:145-165 | a cell renders as one legend character: `*` open mine, digit 1-9 open numbered cell, `.` open empty cell, `?` closed flagged, `-` closed; never `0` |
| `Render.RenderRowGlyphs` | minesweeper.cpp:143-166 | a row renders to one legend character per cell, in order |
| `Render.RenderField` | minesweeper.cpp:136-171 | the dump has one string per board row |
| `Render.RenderFieldShape` | minesweeper.cpp:136-171 | with exact counts the dump is `h` strings of `w` legend characters, character `(x, y)` being the legend of cell `(x, y)`, never `0` |
| `Engine.ResetGrid` | minesweeper.cpp:71 | the rebuilt board has the requested shape and every record is the default record, coordinate (0, 0) included |
| `Engine.ResetGridForgetsCoordinates` | minesweeper.cpp:69-76 | a board rebuilt by `ResetField` is not numbered: the record at (1, 1) reports (0, 0), whose neighbour list has 3 entries instead of 8 |
| `Engine.AllOpenedLayout` | minesweeper.cpp:91-96 | opening every cell leaves no cell closed and changes nothing but opened bits |
| `Engine.ToggleTwice` | minesweeper.cpp:115 | flagging flips the flag of the target cell only, and flagging twice restores the board |
| `Engine.Minesweeper.constructor` | minesweeper.cpp:7-16 | a fresh game: the requested dimensions, every record numbered with its own coordinate and otherwise default, not started, times and counter zero |
| `Engine.Minesweeper.Random` | minesweeper.cpp:18-21 | a fresh game with exactly `minesCount` mines on the cells named by the shuffled indices, exact counts, target `w * h - minesCount` |
| `Engine.Minesweeper.WithList` | minesweeper.cpp:23-28 | a fresh game with a mine on each listed cell, target `w * h` minus the list's length, valid always and consistent when the list has no repeats |
| `Engine.Minesweeper.NewGameRandom` | minesweeper.cpp:30-34 | restarts on a new board with the random setup, with the same guarantees as the random constructor |
| `Engine.Minesweeper.NewGameWithList` | minesweeper.cpp:36-40 | restarts on a new board with a mine on each listed cell, with the same guarantees as the list constructor |
| `Engine.Minesweeper.ResetField` | minesweeper.cpp:69-76 | sets the dimensions, rebuilds the board, resets status, times and counter, and keeps the safe-cell target |
| `Engine.Minesweeper.NumberCells` | minesweeper.cpp:10-15 | every record of the rebuilt board stores its own coordinate |
| `Engine.Minesweeper.UpdateMinesQtyNearbyForNeighbours` | minesweeper.cpp:254-259 | adds one to the count of exactly the cells adjacent to the coordinate the record stores, and changes nothing else |
| `Engine.Minesweeper.SetMinesByList` | minesweeper.cpp:61-67 | the board becomes the fresh board with the listed mines laid |
| `Engine.Minesweeper.SetMinesRandomly` | minesweeper.cpp:42-59 | the board becomes the fresh board with mines on the cells named by the first `minesCount` shuffled indices |
| `Engine.Minesweeper.PlaceMine` | minesweeper.cpp:63-66 | marking one more mine and counting it at its neighbours extends the laid list by that mine |
| `Engine.Minesweeper.StartGame` | minesweeper.cpp:173-176 | the game is in progress, started at `now`, and stays valid |
| `Engine.Minesweeper.OpenCell` | minesweeper.cpp:78-107 | starts a game not yet started. After a victory or defeat nothing changes. A mine loses at `now` and opens the whole board. A closed, unflagged safe cell yields `Filled` with the counter raised by the newly opened cells, and the game is won exactly when the counter reaches the target. An open or flagged cell changes nothing. Validity and consistency are kept |
| `Engine.Minesweeper.Play` | minesweeper.cpp:84-106 | the same three outcomes of opening a cell, for a game in progress |
| `Engine.Minesweeper.Lose` | minesweeper.cpp:87-96 | defeat at `now`, every cell opened, counter raised by `w * h`, the game still valid |
| `Engine.Minesweeper.Reveal` | minesweeper.cpp:98-104 | the reveal from a closed unflagged safe cell yields `Filled` and counts the newly opened cells; the game is then won at `now` exactly when the counter reaches the safe-cell target; the game stays valid |
| `Engine.Minesweeper.CheckVictory` | minesweeper.cpp:101-104 | the game is won at `now` exactly when the counter equals the safe-cell target |
| `Engine.Minesweeper.FillKeepsInvariant` | minesweeper.cpp:98-99 | after a reveal from a safe cell the counter counts the opened cells, no mine is open, and mines, safe cells and counts are unchanged |
| `Engine.Minesweeper.DefeatKeepsInvariant` | minesweeper.cpp:87-96 | opening the whole board leaves every cell open and keeps the layout, the safe cells and exact counts |
| `Engine.Minesweeper.OpenAllCells` | minesweeper.cpp:91-96 | every cell is opened and the counter grows by one per cell |
| `Engine.Minesweeper.Bfs` | minesweeper.cpp:178-212 | the board becomes `Filled` from the start cell and the counter grows by exactly the number of newly opened cells |
| `Engine.Minesweeper.Visit` | minesweeper.cpp:183-210 | one loop round keeps the queue invariant and the counter, and either opens a cell or leaves the board and shrinks the queue |
| `Engine.Minesweeper.ExpandZero` | minesweeper.cpp:199-210 | visiting a just-opened zero-count cell keeps the queue invariant |
| `Engine.Minesweeper.EnqueueNeighbours` | minesweeper.cpp:199-208 | the queue keeps its prefix, gains only reachable cells, and afterwards every neighbour of the cell is open, flagged or queued |
| `Engine.Minesweeper.MarkCell` | minesweeper.cpp:109-117 | starts a game not yet started; while in progress flips the target's flag and nothing else; after a victory or defeat changes nothing; keeps validity and consistency |
| `Engine.Minesweeper.GetGameStatus` | minesweeper.cpp:119-121 | a reported victory has reached the target, a reported defeat has opened the board, before the start nothing is open |
| `Engine.Minesweeper.GameTimeBehaviour` | minesweeper.cpp:123-134 | the game time is 0 before the start, grows with the clock during the game, and is frozen once the game is over |
| `Engine.Minesweeper.RenderField` | minesweeper.cpp:136-171 | the dump of the engine's board has one string per row and, with distinct mines, one legend character per cell |
| `Engine.Minesweeper.VictoryOpensAllSafeCells` | minesweeper.cpp:101-104 | with distinct mines a victory means exactly the safe cells are open |
| `Engine.Minesweeper.OpenedWithinTarget` | minesweeper.cpp:101 | with distinct mines, until a defeat the counter never exceeds the target, so the victory test cannot be skipped over |

## Left out

- Randomness: `std::random_device`, `std::mt19937` and `std::shuffle` are replaced by the parameter `ids`. The properties hold for every permutation of the cell indices. The distribution is not modelled.
- The clock: `std::time` becomes the parameter `now`. `GetGameTime` subtracts whole seconds, where the source rounds the `double` from `difftime` with `lround`. Floating point is not modelled.
- `floor(static_cast<double>(id / width))` is modelled as integer division. The division happens on integers before the conversion.
- Pointers: the reveal's queue of `CellInfo*` and the neighbour lists of pointers become lists of coordinates. This is the same cell as long as each record stores its own coordinate, which `Valid` guarantees.
- `size_t` wrap-around is not modelled; dimensions and counts are unbounded naturals.
- `Engine.Minesweeper.Random`: requires `minesCount <= width * height`. With more mines the source reads past the shuffled index list and wraps the safe-cell target. `Engine.Minesweeper.NewGameRandom` requires the same.
- `Engine.Minesweeper.WithList`: requires every listed cell to lie on the board, because the source indexes the board without a check. It also requires the list to be no longer than the board has cells; a longer list (only possible with repeats) wraps the target in `size_t`. `Engine.Minesweeper.NewGameWithList` requires the same.
- `Engine.Minesweeper.OpenCell`: requires the cell to lie on the board. The source indexes without a bounds check.
- `Engine.Minesweeper.MarkCell`: requires the cell to lie on the board, as above. The flag is flipped even on an opened cell, as in the source.
- `Engine.Minesweeper.constructor`: the two-argument constructor leaves `non_mines_qty_` uninitialised (minesweeper.h:62). The model sets it to `width * height`, the number of safe cells on a board without mines.
- `Engine.Minesweeper.WithList`: a list with repeats is laid as the source lays it. A repeated mine is counted twice at its neighbours, and the target, `w * h` minus the list's length, is then below the number of safe cells. Exact counts (`Consistent`) are guaranteed only for lists without repeats.
- `Engine.Minesweeper.Lose`: the defeat loop adds one to the counter for every cell, including cells that were already open. The model keeps this: the counter grows by `w * h`. After a defeat `Valid` does not relate the counter to the opened cells.
- `Engine.Minesweeper.OpenCell`: exact counts (`Consistent`) are kept when they held before; they are not re-established from a board that lacked them.
- `RenderedField::reserve` is a capacity hint with no observable effect and is not modelled.

## Findings

| source | as written | input that shows it | evidently intended | confidence | as-written member | corrected member |
|---|---|---|---|---|---|---|
| minesweeper.cpp:30-40 | `NewGame` calls `ResetField`, which rebuilds the board from default records whose coordinates are all (0, 0). It does not renumber them as the constructor does (lines 10-15). Setup and the reveal locate neighbours through the coordinate a record stores, so every mine is counted at the neighbours of (0, 0) | `NewGame(3, 3, {(1, 1)})`: the centre mine's record reports (0, 0), so the counts of (1, 0), (0, 1) and (1, 1) are raised and (2, 2), next to the mine, keeps count 0. A later `OpenCell((2, 2))` starts the reveal at the stored coordinate (0, 0) | after `NewGame`, every record stores its own coordinate, as after construction | not executed | `Engine.ResetGridForgetsCoordinates` | `Engine.Minesweeper.NewGameWithList` |
