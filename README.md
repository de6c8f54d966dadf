# Cat stacking puzzle — Dafny model

This project models the game logic of a browser puzzle in which cats of
four colours (`white`, `black`, `brown`, `gray`) sit on a 5 × 6 board. The
player clicks a column to pick up its top cat, then clicks a second column
to drop the cat there. A cat may land on an empty column or on a cat of
the same colour. A column whose five cells all hold one colour is cleared,
and the game is won when the board is empty.

The model covers:

- the board generator of `initGame`:
  - a bag with five cats of every colour;
  - the in-place Durstenfeld shuffle;
  - the deal, which pops the bag into the first `COLS - 2` columns;
  - the check that no column holds three equal cats in a row;
  - the retry loop, which stops after 100 attempts;
- the column queries `findTopCatRow` and `findLandingRow`;
- the click handler, with its one-slot selection `selectedCol` and the move;
- `checkWin`'s column clear;
- `checkGameClear`.

The project has four modules:

- `Cells`: cells, columns, the column queries as functions, and per-colour
  cat counts (`Count` for one column, `Tally` for the board).
- `Generator`: the values the generator computes, as functions:
  - the bag (`Bag`);
  - the shuffle (`Shuffled`, driven by a pick function);
  - the dealt board (`Dealt`);
  - the run-length rule (`NoLongRuns`).
- `Moves`: the click handler as a pure state machine `Step` over the board
  and the selection, with lemmas about moves and clears.
- `Game`: class `Puzzle`.
  - Its fields are the board, an `array2<Cell>` indexed `[row, column]`
    like the source's `board[r][c]`, and `selectedCol`.
  - Its methods are the source's loops and handlers, each proved against
    the functions above.
  - In proofs the board is viewed as a sequence of columns, each read from
    row 0 (top) to row `ROWS - 1` (floor).

`Math.random` is replaced by parameters:

- `pick(i)`, with `pick(i) <= i`, is the `j` of shuffle step `i`.
- `rolls(a)` is the pick function of attempt number `a` of the retry loop.
  The first attempt is number 1.

## Model

| member | source | states |
|---|---|---|
| Cells.TopRowFrom | script.js:85-89 | the scan from row `i` returns -1 exactly when rows `i..` are all empty; otherwise it returns the first occupied row at or below `i` |
| Cells.TopRow | script.js:85-90 | `findTopCatRow` is -1 exactly when the column is all empty; otherwise it is the smallest occupied row |
| Cells.LandingRow | script.js:92-97 | `findLandingRow` is in [-1, ROWS-1]. It is -1 exactly when row 0 holds a cat. Otherwise every row up to it is empty and the row below it (if any) holds a cat, so it is ROWS-1 for an empty column |
| Cells.SettledLanding | script.js:92-97 | on a column whose cats sit contiguously on the floor, the landing row is -1 exactly when the column is full, and every row below the landing row holds a cat |
| Cells.EmptyCells | script.js:110 | the column `checkWin` clears (and each of the two columns the deal leaves `null`) has the given length and only empty cells |
| Cells.CountUpdate | script.js:182-183 | writing one cell changes that column's count of a colour by exactly the difference between the old and new cell |
| Cells.TallyUpdate | script.js:182-183 | replacing one column changes the board's count of a colour by exactly the difference between the old and new column |
| Cells.EmptyIffNoCats | script.js:119-123 | every cell is empty exactly when every colour's count on the board is zero |
| Generator.Repeat | script.js:23 | `Array(n).fill(color)` has length `n` and holds `color` everywhere |
| Generator.RepeatCount | script.js:23 | `Array(n).fill(x)` holds `n` cats of colour `x` and none of any other colour |
| Generator.FillBag | script.js:23 | the `flatMap` over the palette yields `n` cells per colour |
| Generator.FillBagCount | script.js:23 | the filled bag holds each colour CATS_PER_COLUMN times as often as the palette does |
| Generator.FillBagIndex | script.js:23 | position `i` of the filled bag holds palette colour `i / CATS_PER_COLUMN` |
| Generator.Bag | script.js:23 | the bag has exactly as many cats as the first COLS-2 columns have cells, so `pop` never runs dry |
| Generator.BagIsFilled | script.js:23 | the bag is the `flatMap` of the palette |
| Generator.BagCounts | script.js:23 | the bag holds exactly CATS_PER_COLUMN cats of every colour |
| Generator.Swap | script.js:28 | the destructuring swap puts `s[j]` at `i` and `s[i]` at `j`, keeps the length and keeps the bag's cats (same multiset) |
| Generator.SwapKeepsOthers | script.js:28 | the swap moves no cat other than the two it trades |
| Generator.ShuffleFrom | script.js:26-29 | the swaps for steps `i` down to 1 keep the bag's length |
| Generator.Shuffled | script.js:26-29 | the whole shuffle keeps the bag's length |
| Generator.ShuffleFromPermutes | script.js:26-29 | the swaps for steps `i` down to 1 only reorder the bag (same multiset) |
| Generator.ShuffledPermutes | script.js:26-29 | the whole shuffle only reorders the bag (same multiset) |
| Generator.ShuffledBag | script.js:23-29 | the shuffled bag still has one cat per cell of the dealt columns |
| Generator.ShuffledBagCounts | script.js:23-29 | the shuffled bag still holds exactly CATS_PER_COLUMN cats of every colour |
| Generator.PoppedCells | script.js:34-36 | popping `n` cats from `bag[..hi]` fills row `r` with the cat at position `hi - 1 - r` |
| Generator.DealtColumn | script.js:31-37 | a dealt column `c < COLS-2` holds, in row `r`, the cat popped after `c*ROWS + r` earlier pops; the last two columns are empty |
| Generator.DealtUpTo | script.js:31-37 | the first `n` dealt columns are `DealtColumn(bag, 0..n-1)` |
| Generator.Dealt | script.js:31-37 | the dealt board is COLS columns of ROWS cells, column `c` being `DealtColumn(bag, c)` |
| Generator.DealtShape | script.js:31-37 | after the deal, columns 0..COLS-3 are full, the last two are empty, and every column is settled |
| Generator.DealtTally | script.js:31-37 | the dealt board holds exactly the cats of the bag, colour by colour |
| Generator.GeneratedBoard | script.js:23-37 | every generated board holds exactly CATS_PER_COLUMN cats of each colour |
| Generator.RunBelow | script.js:44-62 | the scan's `consecutiveCount` after reading row `k` is 0 exactly when the cell is empty |
| Generator.RunTriple | script.js:44-57 | the count passes 2 exactly where three equal cats start, so the scan rejects exactly the columns with such a run |
| Moves.CompleteIffOneColour | script.js:106-107 | `checkWin`'s test `firstCat && board.every(row => row[c] === firstCat)` holds exactly when the column is non-empty and all its cells hold cats of one colour |
| Moves.ClearUpTo | script.js:105-116 | on columns 0..n-1, `checkWin` empties every complete column cell by cell and leaves the others unchanged |
| Moves.ClearCompleted | script.js:104-116 | `checkWin` empties every column whose cells all hold the non-null cat of row 0, and leaves every other column unchanged |
| Moves.CanMoveIff | script.js:176-181 | on a settled target, the move rule holds exactly when the columns differ, the source has a cat, the target's row 0 is empty (`landingRow !== -1`), and the target is empty or the cat right below its landing row has the moving cat's colour |
| Moves.ApplyMove | script.js:182-183 | the move empties the source's top cell, writes that cat to the target's landing row, and changes no other cell |
| Moves.Step | script.js:159-190 | one click keeps the state well formed: the selection names a column of the board. Its behaviour is stated by the Step lemmas below, including the state after a fault |
| Moves.MovePreservesSettled | script.js:181-183 | a legal move keeps every column's cats contiguous on the floor |
| Moves.MoveConservesTally | script.js:182-183 | a move keeps the count of every colour |
| Moves.ClearRemovesCompleted | script.js:104-116 | after the clear, each colour's count plus the cats of that colour in the complete columns equals the count before |
| Moves.ClearPreservesSettled | script.js:110 | the clear keeps every column settled |
| Moves.StepSelection | script.js:164-188 | with nothing selected, a click selects the column exactly when it holds a cat. With a selection, the selection is empty afterwards unless the handler faults |
| Moves.StepFrame | script.js:164-189 | only a move changes the board: a first click, a click on the selected column, an illegal move and a fault leave every cell unchanged |
| Moves.StepMovesIff | script.js:176-185 | the second click moves exactly when the move rule holds. The board is then the move followed by the clear |
| Moves.StepFaultIff | script.js:170-177 | the handler throws exactly on a second click on another column while the selected column has no cat, and then the board and the selection are as they were |
| Moves.FaultIsStuck | script.js:170-189 | after a fault the selection still names the empty column: a later click on any other column faults again and changes nothing, and only a click on the selected column clears it |
| Moves.StepPreservesSettled | script.js:159-190 | every click keeps all columns settled |
| Moves.StepConservesCats | script.js:176-185 | after a move, each colour's count plus the cats of that colour in the cleared columns equals the count before the click |
| Moves.GameClearIffEmpty | script.js:104-123 | after a move, "Game Clear" is reported exactly when the board is empty |
| Moves.LiveStepNeverFaults | script.js:164-188 | from a selection that names a column with a cat, a click never faults, and the selection it leaves again names a column with a cat |
| Game.Attempt | script.js:21-37 | attempt number `a` deals a board of COLS columns |
| Game.AttemptBoard | script.js:21-37 | every attempt deals a settled board with CATS_PER_COLUMN cats of each colour, columns 0..COLS-3 full and the last two empty |
| Game.KeptBoardCorners | script.js:31-37 | every board the retry loop keeps has a full column 0 and an empty column 4 |
| Game.EmptyBoard | script.js:21 | a new ROWS × COLS board of empty cells |
| Game.Shuffle | script.js:26-29 | the in-place loop leaves the bag equal to `Shuffled` of the old bag and a permutation of it |
| Game.Puzzle.constructor | script.js:194 | page load yields an empty selection and a settled board. The board is that of some attempt `a` among the 100, every attempt before `a` had a run of three, and the board has no run of three unless `a` is the 100th |
| Game.Puzzle.InitGame | script.js:13-69 | the loop runs 1 to 100 attempts and keeps the board of the last one. `validBoard` holds exactly when that board has no run of three. It is false only after 100 attempts. Every earlier attempt dealt a board with such a run |
| Game.Puzzle.DealAttempt | script.js:21-64 | one pass of the loop leaves the board of that attempt, and `validBoard` holds exactly when it has no run of three |
| Game.Puzzle.NewCatBag | script.js:23-29 | the new bag array holds `ShuffledBag` of that attempt's picks |
| Game.Puzzle.Deal | script.js:31-37 | the nested pop loop turns the empty board into `Dealt` of the bag |
| Game.Puzzle.ValidateBoard | script.js:39-63 | the bottom-up scan returns true exactly when no column has three equal cats in a row |
| Game.Puzzle.FindTopCatRow | script.js:85-90 | the loop returns `TopRow` of the column |
| Game.Puzzle.FindLandingRow | script.js:92-97 | the method returns `LandingRow` of the column |
| Game.Puzzle.ColumnIsAll | script.js:107 | `board.every(row => row[c] === firstCat)` holds exactly when every row of column `c` holds `firstCat` |
| Game.Puzzle.CheckWin | script.js:104-117 | the board becomes `ClearCompleted` of the old board, and `cleared` tells whether some column was complete |
| Game.Puzzle.CheckGameClear | script.js:119-123 | the result is true exactly when every cell is empty |
| Game.Puzzle.Click | script.js:159-190 | the handler's new board, selection and outcome are those of `Step` on the old state, and a settled board stays settled |
| Game.Puzzle.SelectColumn | script.js:164-169 | the first click agrees with `Step` |
| Game.Puzzle.MoveSelected | script.js:170-189 | the second click agrees with `Step`, including the fault |
| Game.Puzzle.MoveCat | script.js:181-185 | the board becomes the move followed by the clear. The game-clear flag holds exactly when some column was cleared and the board is then empty |
| Game.Puzzle.Reshuffle | script.js:192 | the shuffle button with the selection reset leaves an empty selection and a settled board, kept as at page load: the first of the 100 attempts without a run of three, or the 100th. That selection names no empty column, so by Moves.LiveStepNeverFaults no later click faults |
| Game.SelectMovedCat | script.js:164-189 | on a freshly dealt board, clicks on columns 0, 4 and 4 leave column 4 selected |
| Game.SelectMovedCatClicks | script.js:159-190 | the three clicks on the puzzle itself leave column 4 selected |
| Game.ClickAfterReshuffle | script.js:170-177 | the shuffle button as wired, while column 4 is selected, followed by a click on column 0, faults |
| Game.ReshuffleWhileSelected | script.js:192 | from page load, the clicks, the shuffle button and one more click fault, whatever random sources page load and the shuffle draw from |

## Left out

- DOM and presentation are not modelled:
  - the `gameBoard`, `message` and `shuffleButton` lookups;
  - cell creation (script.js:71-80);
  - `renderBoard` (script.js:125-157);
  - `highlightCell` (script.js:99-102);
  - every `message.textContent` write.
  A call to `highlightCell` with row -1 finds no element and does nothing.
- Timing is not modelled. `checkWin` clears complete columns at once, with no `setTimeout` delay. `checkGameClear` runs once after the pass, when some column was cleared. In the source each cleared column's timer calls `checkGameClear` in turn, so only the last timer can see the board empty. Moves made during the delay are not modelled.
- `Math.random` and `Math.floor` are replaced by pick functions. The shuffle's `j` at step `i` is `pick(i)`, any value in [0, i].
- `console.warn` is not modelled; `InitGame` returns the `validBoard` flag instead.
- Event wiring and `parseInt(cell.dataset.col)` are not modelled. A click is given its column as a number below COLS.
- The selection reset `selectedCol = null` is done before the move rather than after it, in Game.Puzzle.MoveSelected. Nothing in between reads the selection, so the result is the same.
- The thrown `TypeError` is modelled as the outcome `Fault`. It leaves the board and the selection as they were, because the handler throws before changing either.
- The board is one `array2` rather than an array of row arrays. The source builds every row anew, so rows never alias, and nothing is lost.
- `firstCat && ...` in `checkWin` is modelled as "row 0 is not empty", because every colour name is a non-empty string.
- Game.Attempt: states only the board's size. What the board holds is stated by Game.AttemptBoard and by the Generator lemmas.
- Generator.FillBag: states only the bag's length. Its contents are stated by Generator.FillBagCount and Generator.FillBagIndex.
- Moves.Step: states only that the next state is well formed. Its behaviour is stated by the Step lemmas.

## Findings

| source | as written | input that shows it | evidently intended | confidence | as-written member | corrected member |
|---|---|---|---|---|---|---|
| script.js:192 | the shuffle button runs `initGame` alone and leaves `selectedCol` as it was | Load the page. Click column 0, then column 4 (a cat moves to the empty column 4), then column 4 again (column 4 is selected). Press shuffle, which leaves column 4 empty, then click column 0: `findTopCatRow(4)` is -1 and `board[-1][4]` throws a `TypeError`. The selection stays stuck on the empty column, so every later click on another column throws too (Moves.FaultIsStuck) | pressing shuffle also clears the selection | not executed | Game.ReshuffleWhileSelected | Game.Puzzle.Reshuffle |
