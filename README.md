# Nonogram rules engine

A model of the rules engine of a browser nonogram (picross) game, written
with the reatom state library. The model covers the following:

- **Clues.** A square solution grid of filled and empty cells gets a clue for
  every row and every column. A clue is the list of lengths of the maximal
  runs of filled cells, left to right or top to bottom.
- **Drawing a board.** One random draw per cell builds the solution. Every cell
  of the player's board starts covered and not marked wrong.
- **Clicks.** Clicking a covered cell with a choice (fill or mark empty) does
  the following:
  - uncovers the cell;
  - marks it wrong when the choice does not match the solution;
  - raises the shown counter, and the mistake counter on a wrong choice;
  - then runs *completion passes* until one uncovers nothing. A pass looks at
    the clicked cell's row and its column. A line whose filled cells are all
    uncovered has its remaining covered cells uncovered; those cells are all
    empty.
- **Status.** The game is in `start`, `playing`, `complete` or `game-over`.
  Reactions tie the status and the counters together:
  - the shown counter reaching the board's cell count completes the game;
  - a mistake count above the limit of 3 ends it;
  - entering `start` resets the clock and both counters;
  - entering `playing` draws a new board and starts the clock;
  - both endings stop the clock.

Files:

- `runs.dfy` (module `Runs`): run-length encoding of one line. `Rle` is
  defined cell by cell, left to right, the way the source's loop reads a
  line. It is paired with an independent cons-wise layout function,
  `Render`, and both round trips are proved.
- `board.dfy` (module `Board`): the solution, its random generation, and the
  clue loop. `FieldDescriptor` fills one clue array for the rows and one for
  the columns in a single row-major pass, as the source does. It is proved
  equal to `Rle` of every row and of every column.
- `lines.dfy` (module `Lines`): what one completion pass uncovers, stated on
  values (`Deduce`), with its properties.
- `timer.dfy` (module `Timing`): the clock. It is a counter driven by one-second
  intervals, and it keeps the handle of only the last interval it started.
- `game.dfy` (module `Nonogram`): class `Game`, holding the status, the cell
  counts, the solution, the per-cell covered and wrong flags (`array2<bool>`),
  the counters and the clock. Each atom write and its reaction is one
  method. The click (`Reveal`) and the completion pass (`CompleteField`) are
  proved against `Lines.Deduce`.

Behaviour of the source that the contracts state as written:

- Clicks are not gated on the status. The board stays on screen and
  clickable in every status, including a finished board while the start
  screen shows.
- Entering `start` does not clear the board. Entering `playing` does not reset
  the counters.
- The clock stops only the interval whose handle it still holds. Restarting
  during play leaves that interval running, and the next Play starts a second
  one (`ChangeStatus`, `Timer.Start`).
- The shown counter's reaction compares with the equality `=== size * size`.
  It completes the game even from `game-over` when a later pass reaches the
  count.

Reactions are modelled as running synchronously, right after the write that
fires them, in source order. In a click, the shown counter is written
(and reacts) before the mistake counter. Take a wrong choice that is also
the mistake past the limit, after which no cell is covered. If the clicked
cell was the last covered one, the game ends in `game-over`. If a
completion pass after the click uncovered the last cells, it ends in
`complete`. `Nonogram.ClickStatus` proves both directions of each case.

## Model

| member | source | states |
|---|---|---|
| Runs.RenderRle | src/model.ts:103-122 | The runs and gaps `Rle`/`Gaps` read off a line form a well-formed layout (runs ≥ 1, inner gaps ≥ 1, so every run is maximal) that lays the line out again: the clue is exactly the maximal runs of filled cells, left to right |
| Runs.RleRender | src/model.ts:103-122 | Conversely, reading the runs and gaps back from any well-formed layout gives exactly that layout: no two lines with different runs get the same clue |
| Runs.RlePositive | src/model.ts:105-119 | Every clue entry is at least 1 |
| Runs.SumRle | src/model.ts:105-119 | A clue's entries add up to the number of filled cells of its line |
| Runs.RleEmpty | src/model.ts:100-101 | A line has the empty clue exactly when none of its cells is filled |
| Runs.ScanStep | src/model.ts:105-119 | The loop's decision for one more cell (open a run when the clue is still empty or the previous cell of the line is empty, lengthen the last run otherwise, skip an empty cell) yields `Rle` of the line one cell longer; a non-empty clue implies a previous cell exists, so the out-of-range read at index -1 is never reached |
| Board.Feed | src/model.ts:105-119 | Feeding cell `i` of a line into its clue slot turns `Rle` of the first `i` cells into `Rle` of the first `i + 1`, leaving every other slot alone |
| Board.ScanRow | src/model.ts:104-121 | After row `r` of the pass, that row's clue is `Rle` of the row and every column's clue is `Rle` of its first `r + 1` cells |
| Board.Scan | src/model.ts:100-124 | The whole row-major pass yields one clue per row equal to `Rle` of the row and one per column equal to `Rle` of the column, top to bottom |
| Board.FieldDescriptor | src/model.ts:89-125 | No solution gives no row and no column clues; a size×size solution gives `size` row clues and `size` column clues, each the `Rle` of its line |
| Board.Generate | src/model.ts:131-139 | A drawn solution is size×size, and a cell is filled exactly when its draw exceeds 0.5 |
| Board.EveryFieldGenerated | src/model.ts:134-136 | Every size×size solution is the outcome of some draws |
| Lines.CountsMean | src/model.ts:206-231 | The revealed-filled count of a line never exceeds its filled count, equals it exactly when every filled cell is uncovered, and the filled count is non-zero exactly when a cell is filled |
| Lines.DoneMeans | src/model.ts:235-251 | The source's completion test on the two counts holds exactly when the line has a filled cell and all its filled cells are uncovered |
| Lines.DeducedAreEmpty | src/model.ts:235-262 | Every cell a completion pass uncovers is empty in the solution |
| Lines.DeducedWithinLines | src/model.ts:236-261 | A pass uncovers only covered cells, and only in the given row and column |
| Lines.DeducedOnBoard | src/model.ts:236-261 | A pass uncovers only cells on the board |
| Lines.EmptyLineNeverCompleted | src/model.ts:235-251 | A line without a filled cell is never completed |
| Lines.CompletedLineRevealed | src/model.ts:236-245 | A completed line has no covered cell left after the pass |
| Lines.DeduceIdempotent | src/model.ts:182-190 | A second pass on the board the first left behind uncovers nothing |
| Lines.CellsCount | src/model.ts:74-76 | A board of `n` rows and columns has `n * n` cells |
| Lines.FullBoard | src/model.ts:73-79 | A set of board cells has `n * n` cells exactly when it is the whole board |
| Timing.Timer.constructor | src/model.ts:21-24 | The clock starts at zero with no interval running |
| Timing.Timer.Running | src/model.ts:27-34 | No interval adds to the clock exactly when the kept one is stopped and none was lost |
| Timing.Timer.Start | src/model.ts:27-31 | A start runs one more interval and keeps its handle; a still-running previous interval loses its handle and keeps running |
| Timing.Timer.Stop | src/model.ts:32-34 | A stop clears only the interval whose handle is kept |
| Timing.Timer.Reset | src/model.ts:24-25 | A reset puts the clock to zero and leaves the intervals alone |
| Timing.Timer.Tick | src/model.ts:28-30 | Each second, every running interval adds one to the clock |
| Nonogram.Game.constructor | src/model.ts:39-50 | A new game is at `start`, five cells per side, with no board, zero counters and a stopped clock at zero |
| Nonogram.Game.SetFieldSize | src/model.ts:44 | The size for the next board is set; nothing else changes |
| Nonogram.Game.Finish | src/model.ts:64-69 | Writing an ending status stops the clock when the status changes; the counters' reactions and the ending arms of `ChangeStatus` all write the status this way |
| Nonogram.Game.SetShown | src/model.ts:73-79 | A change of the shown counter that lands on size² completes the game; otherwise the status is unchanged |
| Nonogram.Game.SetMistakes | src/model.ts:81-85 | A change of the mistake counter to above the limit ends the game; otherwise the status is unchanged |
| Nonogram.Game.CreateField | src/model.ts:131-166 | The new board is the drawn size×size solution with every cell covered and none wrong, and nothing is uncovered |
| Nonogram.Game.ChangeStatus | src/model.ts:52-71 | Writing the current status changes nothing. Entering `start` zeroes the clock and both counters but keeps the board and the running interval. Entering `playing` draws a new board and starts an interval; an interval still running loses its handle and keeps running. Entering an ending stops the clock. The class invariant holds after each |
| Nonogram.Game.CountLines | src/model.ts:206-231 | The counting loop yields, for the row and the column, the filled count and the uncovered-filled count |
| Nonogram.Game.RevealCell | src/model.ts:239-243 | A covered cell of a line is uncovered and counted, with the counter's reaction; an uncovered one is left alone |
| Nonogram.Game.RevealLine | src/model.ts:236-245 | The reveal loop over a line uncovers all its covered cells, raises the counter by their number, reports whether there were any, and the status is the one the counter's reaction leaves |
| Nonogram.Game.CompleteField | src/model.ts:197-267 | Without a board nothing happens and the result is false; otherwise the pass uncovers exactly `Deduce` of the board it started from, the result says whether it uncovered anything, the counter rises by as many, and the status follows the counter's reaction; the wrong marks lie outside what it may modify, so it never writes them |
| Nonogram.PassOutcome | src/model.ts:233-264 | A row loop run when the row is done, then a column loop run when the column was done before the pass, together uncover exactly the pass's deduction |
| Nonogram.Game.Cascade | src/model.ts:181-190 | The repeat loop uncovers `Deduce` of the board after the click, runs one or two passes, and ends on a board closed under a pass |
| Nonogram.CascadeStep | src/model.ts:182-190 | After at most one pass that changed the board, the next pass either changes nothing, leaving a board closed under a pass, or it is the first pass |
| Nonogram.Game.Uncover | src/model.ts:172-179 | The clicked cell is uncovered and marked wrong exactly when the choice differs from the solution; shown rises by one and reacts first, then mistakes rise by one on a wrong choice and react |
| Nonogram.Game.Click | src/model.ts:172-190 | A click on a covered cell leaves the state `Clicked` describes; only that cell's wrong mark changes; one or two passes run |
| Nonogram.Game.Reveal | src/model.ts:167-191 | A click on an uncovered cell changes nothing and runs no pass; a click on a covered cell leaves the state `Clicked` describes: the cell and the cascade's deduction uncovered, the board closed under a pass, shown up by the cells uncovered, mistakes up by one exactly on a wrong choice, and the status the two reactions leave in order |
| Nonogram.ClickKeepsCount | src/model.ts:172-190 | A click keeps the shown counter equal to the number of uncovered cells when they agreed before |
| Nonogram.ShownBound | src/model.ts:73-79 | While the counter agrees with the uncovered cells of a board, it is at most size² |
| Nonogram.ClickUncoversEmpty | src/model.ts:167-191 | Besides the clicked cell, a click uncovers only empty cells, in the clicked cell's row and column |
| Nonogram.ClickStatus | src/model.ts:73-85 | During play, with agreeing counters: the game stays in play exactly while cells remain covered and the mistakes are within the limit; uncovering the last cell completes it unless that click was also the mistake past the limit; otherwise a mistake past the limit ends it; it never returns to `start`. When a click that is the mistake past the limit leaves no cell covered, the game is over exactly when the clicked cell was the last covered one, and complete exactly when a completion pass uncovered the remaining cells |

## Left out

- The reatom framework (atoms, actions, `withReset`, `withAssign`, `ctx.spy`/`ctx.get`) is not part of this model. Atoms are fields of `Game`. The derived user board is the pair of flag arrays that `CreateField` allocates. The derived clue atom is `FieldDescriptor` applied to the solution and the size.
- Reaction scheduling: reatom runs `onChange` reactions on its own schedule. The model runs each reaction right after the write that fires it, in source order, as described above.
- The `await ctx.schedule(...)` around each completion pass is modelled as a synchronous call. Interleaving with other clicks is not modelled.
- The one-second `setInterval`/`clearInterval` pair is abstract. `Timer.Tick` stands for one second of wall-clock time, which the environment calls; the model has no real time.
- `Math.random()` is replaced by a `draws` parameter with one real per cell.
- `console.log` of the clues is not modelled.
- A board size that differs from the size of the current solution is not modelled. The size input is changeable at the start screen while the old board is still shown. `FieldDescriptor`, `CountLines`, `CompleteField` and `Reveal` require the solution to be size×size.
- Non-integer, negative or NaN sizes typed into the size input are out of scope: the size is a `nat`.
- The per-cell `id` string (`row-column`), the React view, mouse-button decoding and CSS classes are out of scope.
- Nonogram.Game.Valid does not include "shown equals the number of uncovered cells". The source does not keep it: clicks on the old board at the start screen count towards the next game, since Play does not reset the counter. `Reveal`, `Click` and `CompleteField` state instead that they raise the counter by exactly the cells they uncover, and `ClickKeepsCount` and `ShownBound` give the agreement and the size² bound while it holds.
