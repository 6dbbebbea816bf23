# Connect Four game engine, in Dafny

This project models the game-state engine of a browser Connect Four game: the
`Game` class of `connect4.js`, with all page rendering taken out. A game has a
`height × width` board (7 wide and 6 high by default). Each cell is empty or
holds one of two players. The game also tracks whose turn it is and whether
the match is over.

A click on a column does the following:

- It is ignored once the match is over, or when the column is full.
- Otherwise the current player's piece drops to the lowest empty row of that
  column.
- The whole board is then scanned for four in a row for that player:
  horizontal, vertical, down-right or down-left.
- A win ends the match. So does a full board, which is a tie.
- Otherwise the turn passes to the other player.

A restart empties the board and gives the first move back to the first
player.

Layout:

- `player.dfy` (module `Players`): the `Player` class. A player is an
  identity token, compared by reference as in the source.
- `board.dfy` (module `Boards`): the board as a sequence of rows, and gravity.
  `LowestOpenRow` is where a dropped piece lands, `Place` writes one cell, and
  `IsFull` is the tie test. It also has piece counts and `Settled` (no piece
  floats).
- `win.dfy` (module `WinDetection`): the four direction vectors, the run of
  four cells from an origin, the per-run test `AllOwned`, and `HasWin` (some
  winning run exists).
- `rules.dfy` (module `Rules`): the game as a value, `GameState`. `Step` is
  the rule for a click and `Restarted` is the rule for a restart. The lemmas
  here state what a click does and prove an `Invariant` that every reachable
  state keeps:
  - the board is well formed and settled;
  - the piece counts match whose turn it is;
  - nobody has four in a row while the match runs.
- `game.dfy` (module `Connect4`): the `Game` class with its fields and the
  source's methods, each written as the source writes it. Each method is
  proved against the functions above; for example, `HandleClick` ends in
  exactly the state `Rules.Step` gives. `StartMatch` is what the start button
  does to the engine.
- `scenarios.dfy` (module `Scenarios`): two endings on the 7 by 6 board, each
  from a position that satisfies `Rules.Invariant`. In one, a drop completes
  four along the bottom row and wins. In the other, 21 pieces of the first
  player and 20 of the second leave one cell open. The second player's drop
  fills it with no four in a row, so the match ends in a tie.

## Model

| member | source | states |
|---|---|---|
| `Players.Player.constructor` | connect4.js:159-163 | a player carries the colour it was made with; two players made separately are different objects |
| `Boards.EmptyRow` | connect4.js:15 | a new row has `width` cells, all empty |
| `Boards.EmptyBoard` | connect4.js:31-35 | the rows built for a board give a `height × width` board whose every cell is empty |
| `Boards.LowestOpenFrom` | connect4.js:66-73 | scanning a column from the bottom returns None exactly when every scanned cell is occupied; otherwise it returns an empty row with every row below it occupied |
| `Boards.Place` | connect4.js:98 | writing the current player into a cell keeps the board's shape; that cell now holds the player and every other cell is unchanged |
| `Boards.PlaceCount` | connect4.js:98 | dropping a piece into an empty cell adds one to the mover's piece count and leaves the other player's count unchanged |
| `Boards.EmptyBoardCount` | connect4.js:11-16 | a fresh board holds no piece of either player |
| `Boards.FullIffNoOpenRow` | connect4.js:105 | the tie test (every cell of every row occupied) holds exactly when no column has an open row |
| `Boards.PlaceKeepsSettled` | connect4.js:95-98 | a piece placed at the lowest open row keeps every occupied cell resting on an occupied cell |
| `WinDetection.Run` | connect4.js:126-149 | the run from an origin in a direction is the four cells origin + k·direction, for k = 0..3 |
| `WinDetection.AllOwnedIff` | connect4.js:114-122 | the per-run test holds exactly when every cell of the run is inside the board and holds the player |
| `WinDetection.NoRunFromFour` | connect4.js:126-151 | the four runs built at each origin (horizontal, vertical, down-right, down-left) are exactly the runs over the four directions |
| `WinDetection.WinFromOrigin` | connect4.js:151-153 | a winning run from an in-bounds origin means the player has four in a row |
| `WinDetection.NoWinFromAnyOrigin` | connect4.js:124-156 | if no origin of the board starts a winning run, the player does not have four in a row |
| `WinDetection.RunWins` | connect4.js:114-153 | four in-bounds cells in one direction, all held by the player, make a win |
| `WinDetection.BrokenRunLoses` | connect4.js:114-122 | a run with one cell off the board, empty or held by someone else is not a win |
| `WinDetection.PairBreaksRun` | connect4.js:114-122 | a run whose cells are not all the same is not a win for anybody |
| `WinDetection.PlaceGivesOthersNoWin` | connect4.js:98-101 | a drop by one player never creates four in a row for another player, so checking only the mover misses no win |
| `WinDetection.WinKeptByMorePieces` | connect4.js:98 | a win stays a win on any board that keeps every piece in place and adds more, since a drop only fills an empty cell |
| `WinDetection.NewWinRunsThroughLastMove` | connect4.js:98-101 | a win that appears after a drop lies on a run through the dropped piece |
| `Rules.StepKeepsValid` | connect4.js:90-111 | a click keeps the board `height × width` and the current player one of the two players; the players and dimensions never change |
| `Rules.StepIgnoredIffInvalid` | connect4.js:91-96 | a click leaves board, turn and game-over flag unchanged exactly when the game is over or the column is full |
| `Rules.StepDropsOnePiece` | connect4.js:95-98 | an accepted click changes exactly one cell: the lowest empty cell of the column (all cells below it occupied) goes from empty to the current player |
| `Rules.StepOutcome` | connect4.js:100-110 | after an accepted click the game is over exactly when the mover has four in a row or the board is full; a winner or tying player keeps the turn, and otherwise the turn passes to the other player |
| `Rules.StepAlternates` | connect4.js:109-110 | with two distinct players, a click that does not end the game gives the turn to the other player, and the next hand-off gives it back |
| `Rules.StepKeepsPieces` | connect4.js:95-98 | a piece once on the board stays there with the same owner |
| `Rules.StepKeepsInvariant` | connect4.js:90-111 | every click keeps the invariant: well-formed and settled board, piece counts matching the turn (the first player is one piece ahead exactly when it is the second player's turn in a running game), and no four in a row while the game runs |
| `Rules.RestartedStartsMatch` | connect4.js:11-29 | a restart gives an all-empty board of the same size, the first player to move and the game running, with players and dimensions unchanged, and the result satisfies the invariant |
| `Connect4.Game.constructor` | connect4.js:2-9 | a new game has the given dimensions (7 by 6 by default), players `[player1, player2]`, `player1` to move, no rows yet and the game not over |
| `Connect4.Game.MakeBoard` | connect4.js:31-35 | `height` empty rows of `width` cells are appended to the board; turn and flag are untouched |
| `Connect4.Game.Restart` | connect4.js:11-29 | the new state is `Rules.Restarted` of the old one |
| `Connect4.Game.FindSpotForCol` | connect4.js:66-73 | returns the largest row whose cell in column `x` is empty (every row below it occupied), or None exactly when the whole column is occupied |
| `Connect4.Game.EndGame` | connect4.js:85-88 | sets the game-over flag and changes nothing else |
| `Connect4.Game.HandleClick` | connect4.js:90-111 | the new state is `Rules.Step` of the old state and the clicked column, and it is well formed |
| `Connect4.Game.CheckForWin` | connect4.js:113-156 | returns true exactly when the current player has four in a row in some direction from some cell of the board |
| `Connect4.StartMatch` | connect4.js:168-178 | two new players with the chosen colours, a 7 by 6 all-empty board, the first player to move, the game running, and the invariant established |
| `Scenarios.ThreeAlongBottomInvariant` | connect4.js:90-111 | the position with three pieces of each player along the two bottom rows and the first player to move satisfies the invariant: counts 3 and 3, nothing floating, no four in a row |
| `Scenarios.RedWinsAlongBottomRow` | connect4.js:90-111 | on a 7 by 6 board, the fourth drop along the bottom row wins: the game is over, the winner keeps the turn, and the invariant still holds |
| `Scenarios.TieBoardBalanced` | connect4.js:90-111 | the full tie board holds 21 pieces of each player, as 42 alternating drops leave it |
| `Scenarios.TieBoardHasNoWin` | connect4.js:113-156 | that full 7 by 6 board has no four in a row for anybody |
| `Scenarios.OneCellLeftInvariant` | connect4.js:90-111 | the tie board with the top of column 6 open has 21 pieces of the first player and 20 of the second, the second to move, and satisfies the invariant; the second player's piece in the open cell gives the tie board |
| `Scenarios.LastDropTies` | connect4.js:101-107 | from that position, the drop into column 6 fills the board without a win: the game ends as a tie, the player who made the drop keeps the turn, and the invariant holds before and after |

## Left out

- Page rendering: building the HTML table, placing the piece element, clearing
  the cells on restart, and the `alert` in `endGame` (connect4.js:37-64,
  75-83, 21-25, 86). The messages passed to `endGame` are dropped with it.
- Reading the column from the click event (connect4.js:93). The column is a
  parameter with `x < width` as a precondition. The source does not check the
  bound: a click whose target id is not a column number produces `NaN`, which
  makes JavaScript write a property named `NaN` onto a row array. The
  handler then throws when it looks up the cell `y-NaN` on the page, before
  the win check and the turn change. No indexed read and no `every` sees that
  property, so the engine state the game reads does not change, and the
  precondition loses nothing.
- The page's event wiring and the global `game` variable (connect4.js:165-200).
  `StartMatch` models the only part that matters to the engine: two new
  players, a new game and `makeBoard`. The restart button only calls
  `Restart`.
- In-place update of the row arrays: the board is a sequence value that each
  method reassigns. No two rows are ever shared in the source, so no aliasing
  is lost.
- `Game.Valid` does not require the two players to be distinct, because the
  constructor does not require it either. The alternation and piece-count
  facts (`Rules.StepAlternates`, `Rules.Invariant`) assume distinct players.
  `StartMatch` always provides them, since it creates two fresh objects.
- `Scenarios.LastDropTies` starts from the full board minus one cell. That
  position satisfies `Rules.Invariant`: 21 against 20 pieces with the second
  player to move, nothing floating, no four in a row. The 41 drops that lead
  to it are not replayed, so no particular order of moves is shown to reach
  it.
