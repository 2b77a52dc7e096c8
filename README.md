# Connect Four rules engine

A Dafny model of the rules inside the `Game` class of `connect4.js`, a
browser Connect Four for two players. The board is HEIGHT rows by WIDTH
columns (6 by 7 by default), row 0 at the top. A click on a column drops the
current player's piece into the lowest empty cell of that column. The game
then checks whether that player has four in a row (horizontally, vertically
or along either diagonal). If not, it checks whether the board is full, which
is a tie. Only when neither happened does the turn pass to the other player.

The model has four modules:

- `Board` (board.dfy): cells, the board read as rows, the gravity scan of
  `findSpotForCol`, the one-cell write of a move, the tie test, and the
  gravity invariant `Settled` (in every column the pieces form one block
  that reaches the bottom row).
- `WinCheck` (win.dfy): `_win`, the four runs of cells anchored at each
  cell, the anchored scan of `checkForWin`, and `FourInARow`, an independent
  definition of four in a row to check the scan against.
- `Turns` (turns.dfy): one click as a pure state transition `Move` on the
  board and current player, a whole game `PlayAll`, and the lemmas about
  them.
- `Connect4` (game.dfy): the `Game` class. It keeps the board in an
  `array2<Cell>` and the player to move in `currPlayer`. Its methods do what
  `makeBoard`, `findSpotForCol`, `checkForWin` and `handleClick` do, and each
  method's contract ties the array to the pure functions above.

Players are the ids 0 and 1, their positions in the players list
`[p1, p2]`. The source tells players apart by reference (`===`), so ids
capture all it relies on. A cell is `Option<PlayerId>`. `None` stands for
the `undefined` of an unfilled JavaScript array.

Where the program's evident intent and its code differ, the model follows
the code:

- There is no game-over gate. `endGame` evidently means to stop play by
  removing the click listener, but it removes it under the name
  `handleGameClick`, while the listener was registered as
  `gameClickHandler` (connect4.js:36-37, connect4.js:83). So clicks after a
  win or a tie are still handled. `Turns.PlayContinuesAfterWin` states this.
  `Move` returns the new status, but nothing blocks a further move.
- Board dimensions are not checked against a minimum of 4: any positive
  HEIGHT and WIDTH give a playable board. The defaults, 6 by 7, are those of
  the constructor, and `Connect4.StartGame` starts a game with them as the
  page does (connect4.js:196).

On a move that both wins and fills the board, the result is a win, because
the win check runs first.

## Model

| member | source | states |
|---|---|---|
| `Connect4.Game.constructor` | connect4.js:8-16 | a new game has the given dimensions (6 by 7 by default), an empty board and player 1 (`players[0]`) to move; the board obeys gravity |
| `Connect4.StartGame` | connect4.js:196 | a game started without dimensions is 6 by 7, empty, settled, with player 1 to move |
| `Connect4.Game.MakeBoard` | connect4.js:18-24 | the board has exactly HEIGHT rows of WIDTH cells, every one empty |
| `Board.EmptyGrid` | connect4.js:18-24 | the fresh board has HEIGHT rows, each of WIDTH cells, all empty, and is rectangular |
| `Board.EmptyGridIsInitial` | connect4.js:18-24 | a fresh board is rectangular, settled, has no occupied cell and is not full |
| `Board.ScanColumn` | connect4.js:61-66 | scanning rows n-1 down to 0 returns the first empty row met, with every row below it occupied; it returns None exactly when all n rows are occupied |
| `Board.SpotForCol` | connect4.js:60-67 | the result is the largest row whose cell in column x is empty; it is None exactly when the whole column is occupied |
| `Board.SpotForColIsLowestEmpty` | connect4.js:60-67 | conversely, a row that is empty with every row below it occupied is the answer |
| `Connect4.Game.FindSpotForCol` | connect4.js:60-67 | the bottom-up loop with early return answers exactly `SpotForCol` of the current board |
| `Board.Place` | connect4.js:97 | the write sets cell (y, x) to the player and leaves every other cell and the dimensions as they were |
| `Board.PlaceOccupies` | connect4.js:97 | writing an empty cell adds exactly that cell to the occupied ones, so the occupied count rises by one |
| `Board.SettledLanding` | connect4.js:60-67 | on a settled board the cells at and above the landing row are all empty |
| `Board.PlacePreservesSettled` | connect4.js:91-97 | dropping at the gravity spot keeps every column's pieces one block that reaches the bottom row |
| `Board.IsFull` | connect4.js:106 | the tie test: every cell of every row holds a piece (a predicate; its meaning in terms of columns is `FullIffEveryColumnFull`) |
| `Board.Settled` | connect4.js:60-67 | the gravity invariant: in every column an occupied cell has only occupied cells below it (a predicate; kept by `PlacePreservesSettled` and `MovePreservesSettled`) |
| `Board.FullIffEveryColumnFull` | connect4.js:106 | the tie test holds exactly when every column is full |
| `WinCheck.Run` | connect4.js:139-142 | the check list of a direction anchored at (y, x) has exactly four cells |
| `WinCheck.Win` | connect4.js:126-132 | `_win`: every cell of the list is on the board and holds the player's piece (a predicate; `WinIffLine` relates it to the reference line) |
| `WinCheck.AnchorWins` | connect4.js:145 | the test at one anchor: one of the four check lists passes `_win`, tried in the source's order (a predicate; `WinningDirection` picks the direction) |
| `WinCheck.HasWin` | connect4.js:135-149 | what `checkForWin` answers: some anchor on the board passes the test (a predicate; `HasWinIffFourInARow` gives its meaning) |
| `WinCheck.RunIsLine` | connect4.js:139-142 | cell k of each check list is k steps of (0,1), (1,0), (1,1) or (1,-1) away from the anchor |
| `WinCheck.WinningDirection` | connect4.js:145 | an anchor that wins has a direction whose check list passes `_win` |
| `WinCheck.WinIffLine` | connect4.js:126-142 | `_win` of a check list holds exactly when its four cells are all in bounds and all the player's |
| `WinCheck.HasWinIffFourInARow` | connect4.js:126-149 | the anchored scan finds a win exactly when some anchor and direction give four in-bounds cells of the player |
| `Connect4.Game.CheckForWin` | connect4.js:122-150 | the nested loops with early return answer true exactly when the current player has a winning anchor, and false (falsy) otherwise |
| `WinCheck.NoWinOnEmptyGrid` | connect4.js:122-150 | no player has won on a fresh board |
| `WinCheck.WinPersists` | connect4.js:122-150 | a winning run stays winning after a piece is dropped into any empty cell |
| `WinCheck.NewWinThroughMove` | connect4.js:97-101 | a win that a move creates has a winning run through the cell just written |
| `Turns.Other` | connect4.js:111 | the player to move next is never the one who just moved |
| `Turns.OtherAlternates` | connect4.js:111 | switching twice gives back the same player, and the two players are p and `Other(p)` |
| `Turns.Move` | connect4.js:91-111 | one click as a state transition; its own contract gives only that the board stays rectangular with the same dimensions, and its meaning is stated by `FullColumnIsIgnored`, `MovePlacesOnePiece` and `MoveStatus` |
| `Turns.MoveAtSpot` | connect4.js:97-111 | an unfolding lemma: `Move` at a known gravity spot, one equation per outcome (win, tie, turn passes), used by `Connect4.Game.EndTurn`; the semantic statement is `MoveStatus` |
| `Turns.FullColumnIsIgnored` | connect4.js:91-94 | a click is ignored exactly when its column is full, and then board and current player are unchanged |
| `Turns.MovePlacesOnePiece` | connect4.js:91-97 | a placed piece goes to the lowest empty row of the column, the cell gets the current player, no other cell changes, and the occupied count rises by one |
| `Turns.MoveStatus` | connect4.js:100-111 | Won exactly when the mover has a win (the mover is the winner and has four in a row); Tied exactly when there is no win and the board is full; InProgress otherwise; only InProgress passes the turn |
| `Turns.WinIsMadeByTheMove` | connect4.js:97-103 | from a position without a win for the mover, a winning move has a winning run through the piece just dropped |
| `Turns.MovePreservesSettled` | connect4.js:91-97 | every move keeps the gravity invariant |
| `Turns.PlayContinuesAfterWin` | connect4.js:80-103 | after a winning move the winner stays current, a later click on a column with room still places a piece, and the win is still there |
| `Turns.PlayAll` | connect4.js:86-111 | a sequence of clicks applied one after another; the board stays rectangular with the same dimensions (its properties are `PlayAllMonotone` and `GamesStaySettled`) |
| `Turns.MoveKeepsPieces` | connect4.js:97 | one click never removes or replaces a piece |
| `Turns.PlayAllMonotone` | connect4.js:86-111 | over any sequence of clicks every occupied cell keeps its piece and the board stays settled |
| `Turns.GamesStaySettled` | connect4.js:86-111 | every game started on a fresh board stays settled whatever columns are clicked |
| `Connect4.Game.PlacePiece` | connect4.js:97 | writing the current player at the gravity spot changes exactly that cell and keeps the board settled |
| `Connect4.Game.SwitchPlayer` | connect4.js:111 | the other player is to move and the board is unchanged |
| `Connect4.Game.EndTurn` | connect4.js:100-111 | after the write, the status and the player to move are what `Move` says |
| `Connect4.Game.HandleClick` | connect4.js:86-111 | the new board, the new current player and the result are exactly those of `Move` on the old board and player, and the board stays settled |

## Left out

- Rendering: `makeHtmlBoard`, `placeInTable`, the `alert` in `endGame`, the
  CSS class toggling after the turn switch, and the start-game listener
  (connect4.js:27-58, connect4.js:69-84, connect4.js:112-120,
  connect4.js:163-197). They only draw the game.
- Players' `color` and `name` (connect4.js:155-160): display data only,
  replaced by ids.
- The reset button's `location.reload`: browser I/O.
- Reading the column from the clicked element's id (connect4.js:88). Columns
  outside `0 <= x < WIDTH` (including `NaN` from a click elsewhere) are not
  validated by the source. The model makes the range a precondition of
  `FindSpotForCol` and `HandleClick` instead of modelling JavaScript's
  out-of-range array reads.
- Boards with zero rows or zero columns: the source accepts them
  (`makeBoard` then builds an empty board, and every click is ignored or
  writes outside it), but the model excludes them by the precondition
  `0 < height && 0 < width` of `Connect4.Game.constructor` rather than
  modelling them.
- Removing the click listener in `endGame` (connect4.js:83): it removes a
  listener that was never added, so it has no effect on the game.
