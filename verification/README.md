# Hash game engine, modelled in Dafny

This project models the game engine of the hash game: a 3x3 tic-tac-toe
played by one human (X) against a rule-based computer (O). The engine is the
Angular service `HashGameService`. It owns the board (`EMPTY = 0`, `X = 1`,
`O = 2`), the move counter `numMovements`, the player to move, the outcome
`won` (either `false` or the three coordinates of the winning line) and the
three screen flags `showStart`, `showBoard` and `showFinal`.

The model is functional. The service's fields are an immutable `Game` record,
and each operation is a pure function from one state to the next:

- `wrappers.dfy` (`Wrappers`): the `Option` type. `None` stands for the
  source's `false` from `endGame` and for the `[]` from `getMovement`.
- `grid.dfy` (`Grid`): cells, coordinates, the 3x3 board, the eight lines,
  the count of filled cells, and the list of EMPTY cells in row-major order.
- `win_check.dfy` (`WinCheck`): `endGame`, including its tie-break. When
  several lines are full, the line checked last is reported.
- `cpu.dfy` (`Cpu`): the search in `getMovement`, with its write-and-undo on
  the shared board. Also the random index of the random pick and the computer's
  choice: win, else block, else random.
- `hash_game.dfy` (`HashGame`): the state and the service's operations
  (`initialize`, `initializeBoard`, `startGame`, `peformMove`,
  `cpuMovement`, `showX`, `showO`, `displayWinner`, `newGame`). Also the
  invariant `Valid`, which every state a game reaches satisfies.
- `sessions.dfy` (`Sessions`): sequences of clicks, and the invariants kept
  across a whole game.
- `scenarios.dfy` (`Scenarios`): concrete games. The computer takes a win
  over a block. A human row win stops the computer. The first move gets
  exactly one reply.

The getters `showStart`, `showBoard`, `showFinal` and `player` are the
fields of `Game`. `Math.random()` is a parameter `rand` with
`0.0 <= rand < 1.0`, and the computer's index is
`(rand * (n - 1)).Floor`, as in the source's `Math.floor`.

When several lines complete at once, the code reports the line it checks
last: anti-diagonal, then main diagonal, then column, then row. It is not
row-first; `WinCheck.EndGame` and `WinCheck.LaterLineWins` state this.

## Model

| member | source | states |
|---|---|---|
| `Grid.Other` | src/app/hash-game/shared/hash-game.service.ts:116 | The turn passes to O after X and to X after anything else. The result is never EMPTY and differs from any mark it is given. |
| `Grid.Place` | src/app/hash-game/shared/hash-game.service.ts:112 | Writing a mark sets that cell and leaves every other cell as it was. |
| `Grid.PlaceFilled` | src/app/hash-game/shared/hash-game.service.ts:112-113 | Writing a mark on an EMPTY cell adds exactly one filled cell, which is why the counter can be incremented. |
| `Grid.EmptyCells` | src/app/hash-game/shared/hash-game.service.ts:193-200 | The list of candidate cells holds only EMPTY cells and is as long as the number of EMPTY cells. |
| `Grid.EmptyCellsSpec` | src/app/hash-game/shared/hash-game.service.ts:194-199 | A cell is in the candidate list exactly when it is EMPTY, and the list is in strictly increasing row-major order. |
| `Grid.PlaceRestore` | src/app/hash-game/shared/hash-game.service.ts:225-229 | Writing a mark on an EMPTY cell and then EMPTY again restores the board exactly. |
| `WinCheck.EndGame` | src/app/hash-game/shared/hash-game.service.ts:143-175 | `false` exactly when none of the row, the column and the two diagonals is full of the player. Otherwise the result is one of those four lines, it is full, it is a board line, and no line checked after it is full. |
| `WinCheck.FullLineThroughCellDetected` | src/app/hash-game/shared/hash-game.service.ts:147-172 | Any full line through the played cell is detected, because every line through a cell is among the four checked. |
| `WinCheck.QuietMoveKeepsNoLine` | src/app/hash-game/shared/hash-game.service.ts:114-115 | If `endGame` reports nothing after a move, no line on the board is full of the mover, and no move completes a line of the other mark. |
| `WinCheck.LaterLineWins` | src/app/hash-game/shared/hash-game.service.ts:145-174 | On a board where a move completes both the top row and the main diagonal, the main diagonal is reported. |
| `Cpu.ScanFrom` | src/app/hash-game/shared/hash-game.service.ts:220-231 | The scan returns the first cell, from a row-major position on, where placing the mark wins. When found, the board keeps that mark. When nothing is found, the board is exactly as before and no later cell wins. |
| `Cpu.GetMovement` | src/app/hash-game/shared/hash-game.service.ts:218-233 | `[]` exactly when no EMPTY cell wins for the mark, and then the board is unchanged. Otherwise the first winning cell in row-major order is returned, it now holds the mark, and only it has changed. |
| `Cpu.RandomIndex` | src/app/hash-game/shared/hash-game.service.ts:201 | The random index lies in `0 .. max(0, n-2)`, inside the list. |
| `Cpu.RandomIndexReaches` | src/app/hash-game/shared/hash-game.service.ts:201 | Every index in `0 .. max(0, n-2)` is produced by some random number, so the range above is exact. |
| `Cpu.LastEmptyCellNeverPicked` | src/app/hash-game/shared/hash-game.service.ts:201-202 | The last EMPTY cell in row-major order is picked exactly when it is the only one. |
| `Cpu.RandomMove` | src/app/hash-game/shared/hash-game.service.ts:191-203 | The random branch plays an EMPTY cell found at an index up to `max(0, n-2)` of the row-major candidate list. |
| `Cpu.CpuMove` | src/app/hash-game/shared/hash-game.service.ts:182-203 | The computer plays an EMPTY cell. The searches change no cell other than the one chosen. |
| `Cpu.CpuMovePriority` | src/app/hash-game/shared/hash-game.service.ts:182-203 | The computer takes the first cell where O wins, else the first cell where X would win, else a random cell from the restricted range. |
| `HashGame.InitializeBoard` | src/app/hash-game/shared/hash-game.service.ts:45-50 | Every cell is EMPTY and no cell is filled. |
| `HashGame.Initialize` | src/app/hash-game/shared/hash-game.service.ts:29-37 | The board is empty, the counter is 0, X is to play, nothing is won, and only the start screen shows. The state satisfies the invariant `Valid`. |
| `HashGame.StartGame` | src/app/hash-game/shared/hash-game.service.ts:93-96 | Only the start and board flags change: the start screen goes away and the board shows. The invariant `Valid` is kept. |
| `HashGame.NewGame` | src/app/hash-game/shared/hash-game.service.ts:289-294 | From any state: an empty board, counter 0, X to play, nothing won, only the board showing. The state satisfies `Valid`. |
| `HashGame.Mark` | src/app/hash-game/shared/hash-game.service.ts:112-116 | The mover's mark is on the cell and no other cell changes. The counter goes up by one, and on an EMPTY cell so does the number of filled cells. The turn passes, the flags stay, and a reported line is a board line full of the mover. |
| `HashGame.MarkKeepsNoLine` | src/app/hash-game/shared/hash-game.service.ts:114-115 | If no win is reported, a mark leaves no line full of any mark that had none. |
| `HashGame.MarkOverwrites` | src/app/hash-game/shared/hash-game.service.ts:205-208 | Writing the computer's mark hides the X a blocking search left on that cell. The result equals marking the original board. |
| `HashGame.CpuMovement` | src/app/hash-game/shared/hash-game.service.ts:182-210 | The computer marks the cell its choice gives. That cell was EMPTY, and the rest of the move is the same counted, checked and turn-passing step as the human's. |
| `HashGame.Reply` | src/app/hash-game/shared/hash-game.service.ts:118-120 | After a winning or board-filling human move nothing happens. Otherwise the computer marks an EMPTY cell. The counter stays equal to the number of marks. |
| `HashGame.Settle` | src/app/hash-game/shared/hash-game.service.ts:122-131 | Board, counter and outcome stay. The final screen shows exactly when it already did, a line is won, or the board is full. The player becomes EMPTY (the source's 0) exactly on a draw. |
| `HashGame.AcceptedMoveConsistent` | src/app/hash-game/shared/hash-game.service.ts:112-131 | An accepted move keeps the counter equal to the number of marks at every stage, so the computer always has an EMPTY cell. |
| `HashGame.PerformMove` | src/app/hash-game/shared/hash-game.service.ts:105-132 | After every move the counter equals the number of filled cells, and an open game has a mark to play. |
| `HashGame.RejectedMoveChangesNothing` | src/app/hash-game/shared/hash-game.service.ts:106-110 | A move on a filled cell, or after a win, leaves the whole state unchanged: board, counter, player and flags. |
| `HashGame.PerformMoveKeepsValid` | src/app/hash-game/shared/hash-game.service.ts:105-132 | Every move keeps the invariant `Valid`. The counter matches the marks. X is to play while the game is open and nobody after a draw. No full line goes unrecorded, a recorded line is full of one mark, and a finished game shows the final screen. |
| `HashGame.ReplyKeepsMarks` | src/app/hash-game/shared/hash-game.service.ts:118-120 | The computer's reply writes only on an EMPTY cell, so every mark already on the board keeps its cell. |
| `HashGame.PerformMoveKeepsMarks` | src/app/hash-game/shared/hash-game.service.ts:107-112 | No cell is ever overwritten: every mark present before a move is still there after it. |
| `HashGame.HumanWinEndsGame` | src/app/hash-game/shared/hash-game.service.ts:114-125 | A winning human move places only the human's mark and records the line. The computer does not move, and the final screen shows. |
| `HashGame.FullBoardIsDraw` | src/app/hash-game/shared/hash-game.service.ts:127-131 | A ninth mark that wins nothing fills the board. No line is recorded, the player becomes 0, and the final screen shows. |
| `HashGame.ComputerReplies` | src/app/hash-game/shared/hash-game.service.ts:116-120 | Otherwise the computer marks a different EMPTY cell with the other mark. Exactly two marks are added, and the turn returns to the human while the game stays open. |
| `HashGame.ShowX` | src/app/hash-game/shared/hash-game.service.ts:243-245 | True exactly when the cell holds X. |
| `HashGame.ShowO` | src/app/hash-game/shared/hash-game.service.ts:255-257 | True exactly when the cell holds O. |
| `HashGame.ShowOneMark` | src/app/hash-game/shared/hash-game.service.ts:243-257 | A cell never shows both marks, and shows neither exactly when it is EMPTY. |
| `HashGame.DisplayWinner` | src/app/hash-game/shared/hash-game.service.ts:267-282 | True exactly when a line is won and the position is one of its three coordinates. Any numbers may be asked. |
| `HashGame.WinnerCellsHoldOneMark` | src/app/hash-game/shared/hash-game.service.ts:267-282 | Under `Valid` the highlighted positions are on the board and all hold the winner's mark. |
| `Sessions.Run` | src/app/hash-game/shared/hash-game.service.ts:105-132 | After any sequence of clicks the counter equals the number of filled cells. |
| `Sessions.RunKeepsValid` | src/app/hash-game/shared/hash-game.service.ts:105-132 | A session started in a state satisfying `Valid` keeps satisfying it after every click. |
| `Sessions.RunKeepsMarks` | src/app/hash-game/shared/hash-game.service.ts:107-110 | A mark stays on its cell for the rest of the session. |
| `Sessions.WonGameIsFrozen` | src/app/hash-game/shared/hash-game.service.ts:106-110 | Once a line is won, no sequence of clicks changes the state. |
| `Sessions.DrawnGameIsFrozen` | src/app/hash-game/shared/hash-game.service.ts:106-110 | Once all nine cells are marked, no sequence of clicks changes the state: every clicked cell is taken. |
| `Sessions.FreshSessionsStayValid` | src/app/hash-game/shared/hash-game.service.ts:289-294 | Games begun from the start screen or with `newGame` keep the invariant `Valid` whatever the human clicks. |
| `Scenarios.ComputerWinsBeforeBlocking` | src/app/hash-game/shared/hash-game.service.ts:182-189 | With X on two top cells and O on two middle cells, the computer completes its own row at (1, 2) rather than block, whatever the random number. |
| `Scenarios.HumanCompletesTopRow` | src/app/hash-game/shared/hash-game.service.ts:114-125 | On the same board, X's move on (0, 2) records the top row and shows the final screen. It adds only that mark. |
| `Scenarios.FirstMoveGetsOneReply` | src/app/hash-game/shared/hash-game.service.ts:112-120 | The first move of a fresh game gets exactly one computer reply. That leaves two marks, no win, X to play and no final screen. |

## Left out

- `src/app/hash-game/hash-game.component.ts` and `src/app/app.module.ts` are
  not part of this model. They only pass calls through to the service or wire
  up Angular.
- `Math.random()` is not modelled as a generator. Its value is the parameter
  `rand`, and Dafny's reals are exact, not IEEE doubles.
- The `player` getter returns a number. The model keeps a `Cell`, where
  `Empty` stands for the 0 written on a draw.
- Coordinates: `peformMove`, `showX` and `showO` index the board without a
  guard. The model requires `0 <= x, y < 3` where the source would fail or
  read `undefined`. `displayWinner` takes any numbers, as in the source.
- `HashGame.PerformMove`: requires `Consistent` (counter equal to the number
  of marks, and a mark to play while open). Outside such states the random
  branch can index an empty list, which the source does not handle.
  `initialize` and `newGame` establish `Consistent`, and every move keeps it.
- `Cpu.CpuMovePriority`: in the random branch the contract gives only the range of
  the index, `0 .. max(0, n-2)`. The exact index is `Cpu.RandomIndex`.
