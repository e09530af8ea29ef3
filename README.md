# Minesweeper board engine, modelled in Dafny

This project models the board engine of a browser Minesweeper game (`main.js`):

- the grid a new game allocates;
- mine placement by rejection sampling;
- the neighbour counts;
- the left-click handler, with its two outcomes: a lost game that shows every bomb, or a recursive four-way flood fill followed by the win check;
- the right-click flag toggle and its counter;
- the MM:SS text of the timer display.

The global `board` and the globals `flagsPlaced`, `gameActive` and `firstClick` are the fields of a `Game` class (module `Engine`). The engine's functions are its methods, each with a `modifies` clause. They follow the source's loops and recursion one to one. The board is a `seq<seq<Cell>>` field. An in-place write `board[i][j].x = v` becomes a reassignment of that field through `Grid.Put`. Cells are plain values, and the source never shares a cell object between two positions, so nothing is lost by this.

Each method is proved against a specification stated on values:

- **Module `Neighbours`.** `BombsAround` follows the two inner loops of `calculateAdjacentBombs`. `NeighbourBombs` is the set of in-bounds bomb positions around a cell. The two are proved to agree.
- **Module `Mines`.** `DrawBombs` is what the placement loop computes from a sequence of draws. `Placed` says what that means for the set of bomb positions.
- **Module `Flood`.** `FloodFilled` relates the board before and after `floodFill(r, c)`:
  - only hidden non-bomb cells are revealed;
  - no 0-cell the fill revealed keeps a hidden safe orthogonal neighbour;
  - every cell the fill revealed is reached from (r, c) through 0-cells it revealed.

  Cells revealed before the fill are not constrained: a 0-cell revealed earlier may keep a hidden safe neighbour, for instance one that was flagged when that 0-cell was opened and has been unflagged since.

  `FloodFilledIsUnique` proves that these relations determine the resulting board.
- **Module `Engine`.** `Coherent` is the invariant every handler keeps:
  - the board is rectangular;
  - every number is right;
  - a revealed bomb means the game is over;
  - while the game runs, `flagsPlaced` is the number of flagged cells.
- **Module `Difficulty`.** The three presets.
- **Module `TimerDisplay`.** `pad`, and the minutes/seconds split of the timer text.

Points where `main.js` behaves in a way worth stating:

- The handlers index `board[row][col]` directly and have no error result. Their guard tests `gameActive` first, so on a finished game any coordinates are a no-op. On a running game an index outside the board would throw, so the model requires in-bounds coordinates only while the game is active.
- The only status is `gameActive`. A won game and a lost game differ only in what the board shows.
- The win rule is exactly the code's. The game is won when no cell is both hidden and a non-bomb. A flagged safe cell therefore does not block a win.
- Flags are not capped. `flagsPlaced` may exceed the number of bombs.

## Model

| member | source | states |
|---|---|---|
| Difficulty.Preset | main.js:2-6 | every preset is a square board with at least one bomb and at least one safe cell (0 < bombs < rows*cols) |
| Engine.Game.constructor | main.js:16-22 | the globals as declared: empty board, no flags, game inactive, no first click; the invariant `Consistent` holds |
| Engine.Game.Initialise | main.js:38-62 | a new game on the selected difficulty's preset: the board has the preset's size, every cell is hidden, the numbers are correct, no flag is placed, the game is active and no first click is recorded; the bomb set relates to the draws and the preset's bomb count as `Placed` says |
| Engine.Game.NewGame | main.js:41-61 | the same outcome for any board size and bomb count: the configured size, all cells hidden, correct numbers, no flags, an active game, no first click, and `Placed` for the draws |
| Engine.NewGameCounted | main.js:49-60 | counting the bombs of a freshly allocated board yields the invariant with zero flags: correct numbers, no flagged cell, no revealed bomb, the same bombs |
| Engine.Game.PlaceBombs | main.js:68-80 | the placement loop leaves exactly the board `DrawBombs` computes from the draws and the bomb count |
| Mines.DrawBombsPlaces | main.js:71-79 | placement only adds bombs, and only on drawn cells; it places exactly `numberOfBombs` bombs when the draws hit that many distinct bomb-free cells, and otherwise makes every drawn cell a bomb |
| Mines.ArmBombs | main.js:75-78 | a draw on a cell without a bomb adds exactly that position to the bomb set |
| Mines.DrawBombsOnlyArms | main.js:71-79 | placement keeps the board's shape and changes nothing except `isBomb` flags |
| Mines.PlacedArmed | main.js:75-78 | one successful draw followed by placing n - 1 more bombs meets the promise for n bombs |
| Mines.PlacedWasted | main.js:75 | a draw that hits a bomb changes nothing the promise depends on |
| Engine.Game.CalculateAdjacentBombs | main.js:82-103 | every non-bomb cell gains the number of bombs around it; bomb cells and all other fields are unchanged |
| Engine.Game.CountAround | main.js:90-100 | the 3x3 scan around (i, j) adds `BombsAround` to that cell's number and changes no other cell |
| Engine.Game.CountRow | main.js:91-99 | the dy loop adds the bombs of one row of the block to the cell's number and changes no other cell |
| Neighbours.RowCountIsRowBombs | main.js:91-99 | the dy loop's count equals the number of in-bounds bomb positions in that row of the block |
| Neighbours.RowBombsStep | main.js:95-97 | one more dy step adds the position it looks at exactly when that holds a bomb |
| Neighbours.BlockCountIsBlockBombs | main.js:90-100 | the dx loop's count equals the number of in-bounds bomb positions in the rows scanned so far |
| Neighbours.BombsAroundCountsNeighbours | main.js:90-100 | the loop-shaped count equals the size of the set of in-bounds bomb cells in the 3x3 neighbourhood |
| Neighbours.BombsAroundBound | main.js:88-100 | around a non-bomb cell at most 8 bombs are counted, because the cell itself never counts |
| Neighbours.CountsAtMostEight | main.js:86-101 | on a board with correct numbers, every non-bomb cell shows a number from 0 to 8 |
| Neighbours.SameLayoutKeepsCounts | main.js:86-101 | numbers stay correct when only what the player sees changes |
| Neighbours.ScanCell | main.js:86-88 | visiting cell (i, j) in row-major order advances the scanned prefix by one cell |
| Neighbours.ScanDone | main.js:86-87 | once the scan is complete, every cell is its counted version |
| Neighbours.ScannedBombs | main.js:88 | during the scan the bombs never change, so every number is counted against the bombs of the original board |
| Engine.Game.HandleCellClick | main.js:156-179 | an inactive game or a cell that is not hidden gives a no-op; otherwise `firstClick` is set. A bomb ends the game and reveals exactly the bomb cells. A safe cell is flood-filled, and the game stays active exactly when a hidden safe cell remains. The invariant holds, bombs and numbers never change, and revealed cells stay as they are |
| Engine.BombClickShown | main.js:165-172 | revealing the clicked bomb and then all bombs leaves a coherent, inactive game in which exactly the bomb cells changed |
| Engine.RevealsCoherent | main.js:174-176 | revealing only hidden safe cells keeps the invariant, the layout and the revealed cells, whether or not the game then ends |
| Engine.Game.RevealAllBombs | main.js:181-191 | every bomb cell becomes revealed, whatever its state was, and every other cell keeps its state |
| Engine.Game.FloodFill | main.js:193-216 | the board afterwards satisfies `FloodFilled` for the start cell |
| Engine.Game.FillFrom | main.js:211-215 | one recursive call on a neighbour only reveals cells, settles that neighbour, and extends the fill's ranked and closed state |
| Flood.FloodFilledNothing | main.js:195-201 | a fill out of bounds, or on a cell that is not hidden or is a bomb, leaves the board unchanged |
| Flood.RevealStart | main.js:204-209 | revealing the start cell either finishes the fill (a number > 0) or starts a fill from a 0-cell |
| Flood.FillStep | main.js:211-215 | after one recursive call the cells the fill revealed are still all ranked from the start cell, and every 0-cell it revealed other than the start is closed |
| Flood.FillDone | main.js:211-215 | after the four calls (up, down, left, right) the fill is complete: the start cell's four neighbours are settled, and so is every other 0-cell the fill revealed |
| Flood.OnlyRevealsShrinks | main.js:199-204 | revealing cells never adds a hidden safe cell; this is the fill's termination measure |
| Flood.OnlyRevealsTransitive | main.js:199-204 | two stretches of the fill, one after the other, again only reveal hidden safe cells |
| Flood.FloodFilledIsUnique | main.js:193-216 | two boards that both satisfy `FloodFilled` from the same board and cell are equal, so the fill's contract determines its result |
| Flood.ReachedRevealed | main.js:207-215 | every cell one fill reaches through 0-cells is revealed by any fill from the same cell |
| Flood.NextToSeed | main.js:211-215 | a hidden safe cell next to a 0-cell that a finished fill revealed is revealed |
| Engine.Game.CheckForWin | main.js:218-231 | the game ends exactly when no cell is both hidden and a non-bomb (flagged safe cells do not block the win); otherwise nothing changes |
| Engine.Game.HandleCellRightClick | main.js:233-245 | a no-op on an inactive game or a revealed cell; otherwise a flagged cell becomes hidden with the counter - 1, and a hidden cell becomes flagged with the counter + 1, with no cap. Nothing else changes, and the invariant holds |
| Engine.FlagToggled | main.js:236-242 | a hidden-to-flagged or flagged-to-hidden change, with the counter moved by one the same way, keeps the invariant, the layout and the revealed cells |
| Engine.FlagTwice | main.js:236-242 | writing a cell's state and then writing back its original state restores the board |
| Engine.Game.RightClickTwice | main.js:233-245 | two right clicks on a hidden or flagged cell of an active game give back both the board and `flagsPlaced` |
| TimerDisplay.Digits | main.js:279 | the decimal text of a number: all digits, no leading zero, one digit exactly below 10, at most two digits exactly below 100 |
| TimerDisplay.DigitsRoundTrip | main.js:279 | reading the decimal text of n back gives n |
| TimerDisplay.LeadingZero | main.js:279 | a leading '0' does not change the value a text reads as |
| TimerDisplay.Pad | main.js:278-280 | `pad` gives at least two digits that still read as the number; it starts with '0' exactly below 10, and has exactly two digits below 100 |
| TimerDisplay.Clock | main.js:273-274 | minutes * 60 + seconds is the counter, and seconds < 60 |
| TimerDisplay.TimerTextReadsBack | main.js:273-275 | the display is minutes, ':', then two digits of seconds below 60, and reading it back gives the counter |

## Left out

- Rendering and input wiring are not modelled (main.js:25-35, 105-154): `clearBoard`, `generateBoardCells`, `renderBoard`, the cached elements, the class and `textContent` updates and the event listeners. They only present the state.
- The timer is not modelled (main.js:20-21, 251-270): `startTimer`, `resetTimer`, `setInterval`/`clearInterval`. It is asynchronous and wall-clock driven. Only the integer MM:SS split and `pad` are modelled, in `TimerDisplay`. `HandleCellClick` sets `firstClick` but does not model starting or stopping the interval.
- `Math.random` becomes an input: `Initialise` and `PlaceBombs` take the sequence `picks` of positions the draws would yield.
- PlaceBombs: the source loops until all bombs are placed, drawing as often as it takes. The model stops when `picks` runs out. `Mines.DrawBombsPlaces` states the outcome in both cases, so the source's behaviour is the case where the draws hit enough distinct cells.
- `changeDifficulty` is not modelled (main.js:247-249). It only reads a DOM control into `difficultySelected`. `Initialise` takes the selected `Level` as a parameter instead of reading that global.
- The `bombs` array (main.js:19, 44) is not modelled. It is cleared but never read.
- The messages written to the page on a win or a loss (main.js:190, 229) are not modelled.
- Engine.Game.Initialise: the model assigns `gameActive`, `flagsPlaced` and `firstClick` after building the board, where the source assigns them before. Nothing in between reads them.
- Engine.Game.CalculateAdjacentBombs: the two innermost loops are written as the helper methods `CountAround` and `CountRow`. Their statements and their order are as in the source.
- Engine.Game.FloodFill: each of the four recursive calls goes through the helper `FillFrom`. It calls `FloodFill` exactly once and adds only ghost bookkeeping.
- Engine.Game.HandleCellClick and Engine.Game.HandleCellRightClick require in-bounds coordinates while the game is active. On a running game the source would throw on an index outside the board, and it is only ever called from the cells it generated. On a finished game the guard returns first, and the model accepts any coordinates there as the same no-op.
