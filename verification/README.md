# Tic-tac-toe engine, modelled in Dafny

This project models the engine of a console tic-tac-toe game for a square board of any
size and two or more players. The model covers these parts:

- the cells and the board, with the filled-cell counter, the row-major list of empty cells and the reset;
- the default winning rule: a move wins when it completes its row, its column or a diagonal it lies on;
- the round state: players in turn order, the current player, the status, the winner and the move history;
- the game service, which starts a round, applies a move, updates the status, plays a turn and resets a round;
- the computer player's rule cascade: win, else block, else the centre, else a corner, else any cell;
- the human player's move check;
- the setup checks on the board size, the player names and the symbols.

The model has two layers:

- `Grids` is the value view of a board. A `Grid` is a square `seq<seq<Option<char>>>`; `None` is an empty cell.
- `Cells.Cell`, `Boards.Board` and `GameStates.GameState` are classes whose fields change in place, as in the
  program. `Board.Grid()` reads the cell objects back as a `Grid`.
  - Each stateful method states its new state through that view, e.g. `Grid() == Place(old(Grid()), row, col, s)`.
  - The value lemmas then carry the properties: membership and order of the empty-cell list, the counter
    identity, and locality of the win check.

The board's `filledCells` counter is exact (`Consistent()`) after construction and after a reset. A move keeps it
exact only when its target cell was empty, because the board does not check this itself.
The human move check and the computer player both pick empty cells only.

The computer player finds winning and blocking cells the way the program does. It writes a symbol into each empty
cell in turn, asks the win detector, and empties the cell again. `Probe` proves that each probe leaves the
board as it found it and answers the question `WinsAt` asks about the grid. `FindWinningMove` and `FindBlockingMove`
prove that their loops compute `FirstThreat` over the row-major empty-cell list. `FirstWinIsRowMajorFirst` and
`BlockFindsThreat` then state what that choice means on the board.

The model follows the code in three places where a reader might expect otherwise:

- `GameService.ResetGame` clears the board, the status and the winner. It keeps the move history and
  whose turn it is.
- The opponent list used by the blocking rule is always empty, so the blocking step never fires.
  `FindBlockingMove` is still proved for any opponent list.
- `Board.MakeMove` counts a move even on a filled cell.

## Model

| member | source | states |
|---|---|---|
| Cells.Cell.constructor | tic-tac-toe/model/Cell.java:11-16 | a new cell keeps its (row, col), is in the Empty state and holds no symbol |
| Cells.Cell.SetSymbol | tic-tac-toe/model/Cell.java:34-37 | the cell becomes Filled with exactly the given symbol, whatever it held before |
| Cells.Cell.IsEmpty | tic-tac-toe/model/Cell.java:39-41 | true iff the state is Empty; for a cell whose state and symbol agree, iff it holds no symbol |
| Cells.Cell.Reset | tic-tac-toe/model/Cell.java:43-46 | the cell is Empty again and holds no symbol |
| Boards.Board.Grid | tic-tac-toe/model/Board.java:7-8 | the value view is a size×size grid whose (i, j) entry is the symbol of cells[i][j] |
| Boards.Board.constructor | tic-tac-toe/model/Board.java:11-16 | a new board is size×size, every cell is a fresh, empty cell that knows its own position, the footprint of cell objects is fresh, so the board owns its cells; the counter is 0 and exact |
| Boards.Board.NewCells | tic-tac-toe/model/Board.java:18-24 | initialisation puts at each (i, j) a freshly allocated empty cell whose position is (i, j), and the returned set of cells is freshly allocated too |
| Boards.Board.IsValidPosition | tic-tac-toe/model/Board.java:37-39 | true iff (row, col) is within the grid; a valid position holds a cell that carries that position |
| Boards.Board.GetCell | tic-tac-toe/model/Board.java:30-35 | no cell (null) exactly when (row, col) is off the board; otherwise the cell stored there, carrying that position |
| Boards.Board.IsCellEmpty | tic-tac-toe/model/Board.java:41-44 | true iff (row, col) is on the board and that cell holds no symbol |
| Boards.Board.MakeMove | tic-tac-toe/model/Board.java:46-50 | exactly the target cell now holds the mover's symbol; the counter grows by one; an exact counter stays exact when the target was empty |
| Boards.Board.IsFull | tic-tac-toe/model/Board.java:52-54 | with an exact counter, the board is full iff it has no empty cell |
| Boards.Board.GetEmptyCells | tic-tac-toe/model/Board.java:56-66 | the nested scan returns EmptyCells of the grid, the row-major list of empty positions |
| Boards.Board.Reset | tic-tac-toe/model/Board.java:68-75 | every cell is empty, the counter is 0 and exact |
| Grids.Place | tic-tac-toe/model/Board.java:46-50 | writing a move changes exactly the target entry to the mover's symbol |
| Grids.EmptyCellsHas | tic-tac-toe/model/Board.java:56-66 | a position is listed iff it is on the board and its cell is empty |
| Grids.EmptyCellsMembership | tic-tac-toe/model/Board.java:56-66 | the same, for all positions at once |
| Grids.EmptyCellsRowMajor | tic-tac-toe/model/Board.java:56-66 | the list is strictly increasing in row-major order, so no position appears twice |
| Grids.EmptyCellsCount | tic-tac-toe/model/Board.java:52-66 | empty cells listed plus filled cells counted add up to size² |
| Grids.FullIffNoEmptyCell | tic-tac-toe/model/Board.java:52-54 | size² filled cells iff the empty-cell list is empty |
| Grids.CountFilledPlace | tic-tac-toe/model/Board.java:46-50 | a move adds one filled cell when its target was empty and none otherwise |
| Grids.EmptyGrid | tic-tac-toe/model/Board.java:68-75 | the cleared grid is size×size with every entry empty |
| Grids.EmptyGridCounts | tic-tac-toe/model/Board.java:68-75 | a cleared board has no filled cell and size² empty cells |
| DefaultWinningStrategy.CheckRow | tic-tac-toe/strategy/DefaultWinningStrategy.java:23-32 | the row fails exactly when one of its cells is empty or holds another symbol |
| DefaultWinningStrategy.CheckColumn | tic-tac-toe/strategy/DefaultWinningStrategy.java:34-43 | the column fails exactly when one of its cells is empty or holds another symbol |
| DefaultWinningStrategy.CheckMainDiagonal | tic-tac-toe/strategy/DefaultWinningStrategy.java:65-74 | the main diagonal fails exactly when some (i, i) is empty or holds another symbol |
| DefaultWinningStrategy.CheckAntiDiagonal | tic-tac-toe/strategy/DefaultWinningStrategy.java:76-85 | the anti-diagonal fails exactly when some (i, size-1-i) is empty or holds another symbol |
| DefaultWinningStrategy.CheckDiagonals | tic-tac-toe/strategy/DefaultWinningStrategy.java:45-63 | a diagonal counts only when the move lies on it and it is complete: true needs a complete main diagonal through the move (row == col) or a complete anti-diagonal through it (row + col == size-1), and each of those gives true |
| DefaultWinningStrategy.CheckWinner | tic-tac-toe/strategy/DefaultWinningStrategy.java:10-85 | no last move never wins; a full row, column, main diagonal (when row == col) or anti-diagonal (when row + col == size-1) of the mover's symbol through the move wins; no win means none of the four checks holds; a win is always a complete line |
| DefaultWinningStrategy.CheckWinnerIsLocal | tic-tac-toe/strategy/DefaultWinningStrategy.java:10-63 | if the mover had no complete line before, the local check after the move agrees with a scan of the whole grid |
| DefaultWinningStrategy.BrokenLinesDoNotWin | tic-tac-toe/strategy/DefaultWinningStrategy.java:23-85 | a gap in the row, the column and each diagonal through the move means no win |
| GameStates.NextIndex | tic-tac-toe/model/GameState.java:47-50 | the next index stays in range and wraps from the last player to the first |
| GameStates.FullRotationReturns | tic-tac-toe/model/GameState.java:47-50 | as many switches as there are players bring the turn back to the same player |
| GameStates.GameState.constructor | tic-tac-toe/model/GameState.java:17-25 | a round starts in progress with the first player, an empty history and no winner |
| GameStates.GameState.SetStatus | tic-tac-toe/model/GameState.java:39-41 | the status becomes the given one |
| GameStates.GameState.SwitchPlayer | tic-tac-toe/model/GameState.java:47-50 | the index advances cyclically and the current player is the one at the new index |
| GameStates.GameState.SetWinner | tic-tac-toe/model/GameState.java:56-58 | the winner becomes the given one |
| GameStates.GameState.AddMove | tic-tac-toe/model/GameState.java:64-66 | the history grows by exactly this move at the end |
| GameStates.GameState.IsGameOver | tic-tac-toe/model/GameState.java:68-70 | over iff won or drawn |
| GameStates.GameState.GetMoveCount | tic-tac-toe/model/GameState.java:72-74 | the number of recorded moves |
| Players.Player.Equals | tic-tac-toe/model/Player.java:40-46 | equal iff the other object is a player with the same symbol; name and kind are ignored |
| Players.Player.HashCode | tic-tac-toe/model/Player.java:48-51 | the hash is the symbol's code |
| Players.EqualsIsEquivalence | tic-tac-toe/model/Player.java:40-51 | equals is reflexive, symmetric and transitive, and equal players hash alike |
| GameService.ValidatePlayers | tic-tac-toe/service/GameService.java:51-65 | accepted iff at least two players with pairwise distinct symbols; fewer than two is reported first; a duplicate report names the first repeated symbol |
| GameService.InitializeGame | tic-tac-toe/service/GameService.java:20-23 | a new round exists iff the players are valid; it starts in progress with the first player, no moves and no winner |
| GameService.ExecuteMove | tic-tac-toe/service/GameService.java:25-28 | the move is on the board and appended once to the history |
| GameService.CheckGameStatus | tic-tac-toe/service/GameService.java:30-37 | a win makes the current player the winner; otherwise a full board is a draw; otherwise nothing changes |
| GameService.PlayTurn | tic-tac-toe/service/GameService.java:39-49 | the current player's symbol goes on the chosen cell and into the history; the status follows the win rule, then the full-board rule; the turn passes on only while the round is in progress |
| GameService.ResetGame | tic-tac-toe/service/GameService.java:67-71 | the board is cleared with an exact counter, the status is in progress and the winner cleared; the history and the turn are kept |
| ValidationService.ValidateBoardSize | tic-tac-toe/service/ValidationService.java:7-14 | sizes 3 to 10 pass; below 3 and above 10 are reported as such |
| ValidationService.TrimStart | tic-tac-toe/service/ValidationService.java:17 | the result is a suffix of the string; every character cut off is at most a space, and the result starts above a space unless empty |
| ValidationService.TrimEnd | tic-tac-toe/service/ValidationService.java:17 | the result is a prefix of the string; every character cut off is at most a space, and the result ends above a space unless empty |
| ValidationService.Trim | tic-tac-toe/service/ValidationService.java:17 | the result is a slice s[a..b] with every character before a and from b on at most a space; it is empty iff every character is at most a space; otherwise it starts and ends above a space |
| ValidationService.TrimBothEnds | tic-tac-toe/service/ValidationService.java:17 | cutting a blank prefix and then a blank suffix leaves such a slice, with the edge and emptiness facts above |
| ValidationService.Utf16Length | tic-tac-toe/service/ValidationService.java:20 | the name's length in UTF-16 units lies between its number of characters and twice that, and equals it iff no character lies outside the Basic Multilingual Plane |
| ValidationService.ValidatePlayerName | tic-tac-toe/service/ValidationService.java:16-23 | a missing or blank name is reported as empty; otherwise more than 20 UTF-16 units is too long; otherwise it passes |
| ValidationService.IsWhitespace | tic-tac-toe/service/ValidationService.java:26 | space, tab, newline and carriage return are whitespace; the non-breaking spaces U+00A0, U+2007 and U+202F are not; ASCII whitespace is at most a space; no allowed punctuation mark is whitespace |
| ValidationService.IsLetterOrDigit | tic-tac-toe/service/ValidationService.java:29 | the digits count; a letter or digit is above a space, is not whitespace and is not one of the allowed punctuation marks |
| ValidationService.ValidateSymbol | tic-tac-toe/service/ValidationService.java:25-32 | whitespace is reported first; otherwise a letter, a digit or one of !@#$%^&* passes and anything else is rejected |
| HumanPlayerStrategy.ValidateMove | tic-tac-toe/strategy/HumanPlayerStrategy.java:45-58 | off the board is reported as out of bounds; on the board and filled as occupied; passes iff on the board and empty |
| HumanPlayerStrategy.AcceptMove | tic-tac-toe/strategy/HumanPlayerStrategy.java:29-32 | an accepted position becomes this player's move on that empty cell; a rejected one returns the check's error |
| AIPlayerStrategy.FirstThreatIsFirst | tic-tac-toe/strategy/AIPlayerStrategy.java:59-88 | the search finds nothing iff no candidate is a threat; what it finds is a threat with none before it |
| AIPlayerStrategy.AnyWinsAtPrefix | tic-tac-toe/strategy/AIPlayerStrategy.java:77-85 | the inner loop over opponents: after opponent m, "some opponent so far wins here" grows by exactly opponent m |
| AIPlayerStrategy.FirstWinIsRowMajorFirst | tic-tac-toe/strategy/AIPlayerStrategy.java:59-71 | the winning search returns an empty cell where the player wins, with no winning empty cell before it in row-major order; when it returns nothing, no empty cell wins |
| AIPlayerStrategy.BlockFindsThreat | tic-tac-toe/strategy/AIPlayerStrategy.java:73-88 | given opponents, the blocking search finds a cell iff some empty cell lets an opponent win, and the cell found is one |
| AIPlayerStrategy.Probe | tic-tac-toe/strategy/AIPlayerStrategy.java:62-64 | writing a symbol, checking and resetting leaves the board unchanged and answers whether that move would win |
| AIPlayerStrategy.FindWinningMove | tic-tac-toe/strategy/AIPlayerStrategy.java:59-71 | the loop returns the first empty cell, in row-major order, where the player wins; the board is unchanged |
| AIPlayerStrategy.FindBlockingMove | tic-tac-toe/strategy/AIPlayerStrategy.java:73-88 | the nested loops return the first empty cell where some opponent wins; with no opponents, nothing; the board is unchanged |
| AIPlayerStrategy.GetOpponents | tic-tac-toe/strategy/AIPlayerStrategy.java:90-92 | the opponent list is empty |
| AIPlayerStrategy.GetCenterCell | tic-tac-toe/strategy/AIPlayerStrategy.java:94-101 | a centre exists iff the size is odd; it is on the board and on both diagonals |
| AIPlayerStrategy.Corners | tic-tac-toe/strategy/AIPlayerStrategy.java:105 | four positions, each on the first or last row and on the first or last column, and every such corner is among them; on a board of size at least 1 all are on the board |
| AIPlayerStrategy.GetRandomCorner | tic-tac-toe/strategy/AIPlayerStrategy.java:103-119 | nothing iff all four corners are taken; otherwise one of the free corners |
| AIPlayerStrategy.GetRandomEmptyCell | tic-tac-toe/strategy/AIPlayerStrategy.java:121-127 | nothing iff no cell is empty; otherwise one of the empty cells |
| AIPlayerStrategy.BestMoveIsFreeCell | tic-tac-toe/strategy/AIPlayerStrategy.java:35-57 | every cell the cascade may choose is empty, and it has a choice whenever a cell is empty |
| AIPlayerStrategy.FindBestMove | tic-tac-toe/strategy/AIPlayerStrategy.java:35-57 | the result follows the cascade (win, block, centre, corner, any) and exists iff a cell is empty; the board is unchanged |
| AIPlayerStrategy.MakeMove | tic-tac-toe/strategy/AIPlayerStrategy.java:19-33 | the computer's move carries its own symbol and targets an empty cell chosen by the cascade |

## Left out

- Console input and output are not modelled: the board display, the printed messages, the AI's half-second pause and the Scanner loop in the human strategy. The controller and the player factory are not modelled either.
- HumanPlayerStrategy.AcceptMove: models one attempt of the input loop; the retry after a rejected or unreadable input is I/O.
- The `PlayerStrategy` interface is not modelled. `GameService.PlayTurn` takes the cell the current player's strategy chose as a parameter. `AIPlayerStrategy.MakeMove` and `HumanPlayerStrategy.AcceptMove` are the two strategies.
- `GameService` always uses the default winning rule; the `WinningStrategy` interface is not modelled.
- `java.util.Random` is replaced by a nondeterministic choice among the candidates.
- Null arguments (a null player list, a null move, a null board) are not modelled. The name check takes an `Option` for the null name.
- A `Move` holds the mover's symbol and the target position. The program holds the Player object and the Cell object.
- `getEmptyCells` returns positions, not Cell references.
- ValidationService.IsLetterOrDigit: only ASCII letters and digits count. Java's `Character.isLetterOrDigit` also accepts other Unicode letters and digits.
- A Java `char` is a UTF-16 unit; here a symbol is a Dafny `char`, a Unicode scalar value. A name's length is still counted in UTF-16 units, as `String.length` does.
- AIPlayerStrategy.MakeMove: requires an empty cell on the board. On a full board the program dereferences a null cell.
- Boards.Board.constructor: requires a size of at least 0. The program throws NegativeArraySizeException on a negative size.
- GameStates.GameState.constructor: requires at least one player. The program throws IndexOutOfBoundsException when it reads the first player of an empty list.
- AIPlayerStrategy.FindBestMove: requires a size of at least 1, because the corner step needs it. On a size-0 board the program's corner step dereferences a null cell.
- AIPlayerStrategy.GetRandomCorner: requires a size of at least 1. On a size-0 board the program dereferences a null cell.
- `toString` of Cell and Player, and the getters, are not modelled.
