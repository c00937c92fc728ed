# Connect Four game engine in Dafny

This project models the game engine of a browser Connect Four game
(`connect4.js`). Two players take turns dropping pieces into the columns of a
6-row by 7-column board. A piece falls to the lowest empty cell of its column.
The game ends when the player who just moved has four in a row (horizontal,
vertical or either diagonal), or as a tie when the board is full.

The model has three modules:

- `Board` (`board.dfy`) holds the board as a value: a sequence of rows
  `board[y][x]` where 0 is an empty cell and 1 or 2 is a player's piece, with
  row 0 the top row. It defines the empty board of `makeBoard`, the column scan
  of `findSpotForCol`, the four-cell lines and `_win` test of `checkForWin`,
  the top-row test of `checkForTie`, and the gravity invariant. It also holds
  the lemmas about these, such as "top row full iff board full" under gravity
  and "placing one player's piece never gives the other player a win".
- `Engine` (`engine.dfy`) is the game as a state machine on values. A `State`
  holds the board, `currPlayer` and the phase (`InProgress`, `Won(player)` or
  `Tied`). `Drop` is one click on a column and `Initial` is the state after
  page load or restart. `Inv` is the invariant of every reachable state, and
  it is proved to hold after any series of clicks.
- `Game` (`game.dfy`) is the class `Connect4`. It keeps the board in an
  `array2<int>` updated in place, with `currPlayer` and `phase` as fields. Its
  methods follow the source's loops: `MakeBoard` uses nested loops,
  `FindSpotForCol` a countdown loop with early return, and `CheckForWin`
  nested loops with early return. Each method is proved against the `Board`
  and `Engine` functions. `DropPiece` is proved to do exactly what
  `Engine.Drop` says, and `Restart` to produce `Engine.Initial()`.

How the model relates to the code:

- `findSpotForCol` checks whether a cell is empty by reading the page's table
  cell, not the `board` array. The model reads the board instead. The two
  always agree, because `handleClick` writes `board[y][x]` and adds the piece
  to the table in the same step. The scan starts at the literal row 5, which
  is `Height - 1`.
- On a full column, `findSpotForCol` falls off the end of its loop and returns
  `undefined`, so the `y === null` guard in `handleClick` never fires. The
  following `board[undefined][x] = currPlayer` then throws, so the click
  changes nothing. The model follows the documented intent ("null if
  filled", "ignore click"): a full column gives the explicit result
  `ColumnFull` and no state change.
- A column outside `0..6` cannot be produced by a cell click. If the row
  element itself is clicked, the column parses to `NaN`, the page lookup
  fails and the handler throws before changing anything. The model returns
  `InvalidColumn` with no state change.
- The source has no phase variable. `endGame` detaches the click handler and
  restart attaches a new one. The model records this as `phase`. `Won(p)` and
  `Tied` stand for "handler detached", and a click in those phases returns
  `GameOver` and changes nothing.
- `checkForTie` returns inside the first iteration of its loop, so it only
  tests row 0, the top row. The model keeps that test as written
  (`TopRowFull`). `Board.TopRowFullIffFull` proves that when no piece floats,
  the top row is full exactly when the whole board is. So the one-row test is
  correct for every reachable board and is not a defect.
- `checkForWin` compares cells with `currPlayer`. `handleClick` calls it
  before switching players, so it checks the player who just moved. The
  invariant also proves that the other player never has four in a row at
  that point.

## Model

| member | source | states |
|---|---|---|
| `Board.EmptyGrid` | connect4.js:26-34 | the board `makeBoard` builds has `Height` rows of `Width` cells, every one of them 0 |
| `Board.Place` | connect4.js:144 | writing a value into `board[y][x]` puts it in that cell and leaves every other cell unchanged |
| `Board.ScanColumn` | connect4.js:80-88 | scanning column x from row i towards row 0 yields the first empty row met, with every row scanned before it occupied; it yields none when rows 0..i are all occupied |
| `Board.FindSpot` | connect4.js:78-88 | the landing row in column x is the largest row whose cell is empty, with every row below it occupied; there is none exactly when every cell of the column is occupied |
| `Board.PlaceAtSpotKeepsGravity` | connect4.js:141-144 | writing a piece into the row `findSpotForCol` found keeps gravity: no occupied cell sits above an empty one |
| `Board.OccupiedBelow` | connect4.js:80-88 | on a board that obeys gravity, every cell below an occupied cell is occupied |
| `Board.TopRowFullIffFull` | connect4.js:172-177 | on a board that obeys gravity, with cells 0, 1 or 2, the one-row test "every value of row 0 is > 0" holds exactly when no cell of the board is empty |
| `Board.Line` | connect4.js:205-208 | each of the horiz, vert, diagDR and diagDL lines is four cells starting at the origin |
| `Board.HasWinIffWinFrom` | connect4.js:185-215 | a four-in-a-row (`HasWin`: an origin on the board and a direction among (0,+1), (+1,0), (+1,+1), (+1,-1) whose four cells are all on the board and hold the player) exists exactly when some origin passes the four `_win` tests of line 210 |
| `Board.WinInRowBeforeIff` | connect4.js:204-213 | the origins the inner loop has tried in row y hold a win exactly when one of the first x origins of that row does |
| `Board.WinInRowsBeforeIff` | connect4.js:203-214 | the origins the outer loop has tried hold a win exactly when one in rows 0..y-1 does |
| `Board.ScanFindsWin` | connect4.js:203-215 | trying every origin in the loops' row-by-row order finds a win exactly when the player has four in a row |
| `Board.EmptyGridHasNoWin` | connect4.js:185-215 | no player has four in a row on the empty board |
| `Board.PlaceGivesOtherNoWin` | connect4.js:144 | if writing p's piece gives player q != p four in a row, q already had it before |
| `Board.NewWinContainsPlacedCell` | connect4.js:149-152 | if p had no four in a row before its piece went into (y, x), every winning line of p afterwards runs through (y, x) |
| `Board.PlacePieces` | connect4.js:144 | writing v over an empty cell adds one piece to v's count and leaves every other player's count unchanged |
| `Board.EmptyGridPieces` | connect4.js:26-34 | the empty board holds no piece of either player |
| `Engine.Other` | connect4.js:159-166 | the switch turns player 1 into 2 and 2 into 1, and leaves any other value as it is |
| `Engine.Initial` | connect4.js:116-125 | after page load or restart every cell is 0, `currPlayer` is 1 and clicks are accepted |
| `Engine.InitialInv` | connect4.js:116-125 | the restart state satisfies the invariant of every reachable state |
| `Engine.EndTurn` | connect4.js:149-166 | the end of a turn leaves the board as the placement made it |
| `Engine.Drop` | connect4.js:129-167 | a click gives `GameOver` exactly when the game has ended, `InvalidColumn` exactly when the column is off the board, and `ColumnFull` exactly when the column has no empty cell. None of these changes the board, the player or the phase. Otherwise it gives `Placed(row, x)`, where row is the largest empty row of column x, `currPlayer` is written into that cell and no other cell changes |
| `Engine.DropOutcome` | connect4.js:149-166 | after a placement, the phase becomes `Won(mover)` exactly when the mover has four in a row, even if the board is also full. It becomes `Tied` exactly when the board is full and there is no win. The player switches only when the game goes on and otherwise stays the mover |
| `Engine.DropPlaced` | connect4.js:141-157 | a click that lands in row y writes the piece there, keeps gravity, and ends in the state `EndTurn` gives |
| `Engine.DropPreservesInv` | connect4.js:129-167 | every click keeps the invariant: cells hold 0, 1 or 2, gravity holds, turns are balanced, and the phase matches the board (running: nobody has won and the board is not full; `Won(p)`: p is the current player, p has four in a row and the other player has not; `Tied`: the board is full and nobody has won) |
| `Engine.PlayPreservesInv` | connect4.js:129-167 | any series of clicks keeps the invariant |
| `Engine.ReachableInv` | connect4.js:129-167 | every state reachable from the start satisfies the invariant and obeys gravity. While the game runs, player 1 is to move exactly when both players have the same number of pieces, and player 2 exactly when player 1 has one more |
| `Engine.EndedGameIsFrozen` | connect4.js:106-114 | after the game has ended, no series of clicks changes the state |
| `Game.Connect4.constructor` | connect4.js:8-12 | a new game has a fresh 6x7 board of zeros, player 1 to move and clicks accepted, and satisfies the invariant |
| `Game.Connect4.MakeBoard` | connect4.js:26-34 | after the nested loops, every cell of the board is 0 |
| `Game.Connect4.FindSpotForCol` | connect4.js:78-88 | the countdown loop returns the largest row whose cell in column x is 0, with every cell below it non-zero; it returns none exactly when every cell of the column is non-zero |
| `Game.Connect4.WinCells` | connect4.js:186-199 | `_win` holds exactly when every listed coordinate is on the board and holds `currPlayer` |
| `Game.Connect4.WinAt` | connect4.js:205-210 | the test at origin (y, x) holds exactly when one of its four lines is all `currPlayer`'s |
| `Game.Connect4.CheckForWin` | connect4.js:183-215 | the nested loops return true exactly when `currPlayer` has four in a row somewhere on the board |
| `Game.Connect4.CheckForTie` | connect4.js:172-177 | the test on row 0 holds exactly when every value of the top row is > 0. On a board with cells 0, 1 or 2 that obeys gravity, this holds exactly when the board is full |
| `Game.Connect4.DropPiece` | connect4.js:129-167 | a click on column x returns and leaves exactly the result and state `Engine.Drop` gives, and keeps the invariant |
| `Game.Connect4.PlacePiece` | connect4.js:141-147 | `board[y][x] = currPlayer` at the spot found, then the end of the turn, gives the state `Engine.Drop` gives, and keeps the invariant |
| `Game.Connect4.EndTurn` | connect4.js:149-166 | the win check, then the tie check, then the player switch give the state `Engine.EndTurn` gives |
| `Game.Connect4.Restart` | connect4.js:116-125 | from any state, the board becomes all 0, `currPlayer` becomes 1 and clicks are accepted again |

## Left out

- `makeHtmlBoard`, `placeInTable` and `clearBoard` (connect4.js:36-102) only build, fill and remove the HTML table. The model does not include this presentation code.
- The display side of `endGame` and of the restart handler: the message text, `innerText` updates, CSS class changes and wiring the click listener. The model keeps only the phase change that removing or re-attaching the listener stands for.
- The `document.getElementById` lookups (connect4.js:13-19, 83, 100) and the emptiness test by `childElementCount`. The model reads the board array instead.
- Parsing the column from the clicked element's id (`+evt.target.id`). The column is an integer argument, and an out-of-range value is rejected with no change.
- The thrown `TypeError` behind the full-column and invalid-column paths. The model reports these as results and does not model exceptions.
- Concurrency and event ordering. The page handles one click at a time.
- `Engine.EndTurn`: its contract only says the board is kept. Which phase and player it produces is stated by `Engine.DropOutcome`.
- `Board.Line`: its contract only says that each line has four cells and starts at the origin. The individual step vectors are in its body, and `Board.HasWinIffWinFrom` relies on them.
