/** The rules of a match as a function on game states: what a click on a
    column does, and what a restart does. The `Game` class is proved to follow
    them. */
module Rules {
  import opened Players
  import opened Boards
  import opened WinDetection

  datatype GameState = GameState(
    width: nat,
    height: nat,
    board: Board,
    players: seq<Player>,
    currPlayer: Player,
    gameOver: bool)

  /** Two players, the one to move is one of them, and the board has the
      game's dimensions. */
  predicate Valid(s: GameState)
  {
    |s.players| == 2 && s.currPlayer in s.players && Shaped(s.board, s.height, s.width)
  }

  /** The player whose turn follows `p`'s. */
  function Other(players: seq<Player>, p: Player): Player
    requires |players| == 2
  {
    if p == players[0] then players[1] else players[0]
  }

  /** A click on column `x`: ignored once the game is over or when the column
      is full; otherwise the current player's piece drops to the lowest open
      row, and the game ends if that wins or fills the board, or else the turn
      passes to the other player. */
  ghost function Step(s: GameState, x: nat): GameState
    requires Valid(s) && x < s.width
  {
    if s.gameOver then s
    else match LowestOpenRow(s.board, x)
      case None => s
      case Some(y) =>
        var board := Place(s.board, y, x, s.currPlayer);
        if HasWin(board, s.height, s.width, s.currPlayer) then s.(board := board, gameOver := true)
        else if IsFull(board) then s.(board := board, gameOver := true)
        else s.(board := board, currPlayer := Other(s.players, s.currPlayer))
  }

  /** A restart: an empty board of the same size, the first player to move,
      the game running again. */
  function Restarted(s: GameState): GameState
    requires |s.players| == 2
  {
    s.(board := EmptyBoard(s.height, s.width), currPlayer := s.players[0], gameOver := false)
  }

  /** While the game runs the first player has made as many moves as the
      second exactly when it is the first player's turn; once the game is over
      `currPlayer` is the player who made the last move. */
  predicate Balanced(s: GameState)
    requires |s.players| == 2
  {
    var first := Count(s.board, s.players[0]);
    var second := Count(s.board, s.players[1]);
    if s.gameOver == (s.currPlayer == s.players[0]) then first == second + 1 else first == second
  }

  /** Nobody has four in a row while the game is still running. */
  ghost predicate NoWinWhileRunning(s: GameState)
  {
    !s.gameOver ==> forall p :: p in s.players ==> !HasWin(s.board, s.height, s.width, p)
  }

  /** What holds of every state a match reaches. */
  ghost predicate Invariant(s: GameState)
  {
    Valid(s) && s.players[0] != s.players[1] &&
    Settled(s.board) && Balanced(s) && NoWinWhileRunning(s)
  }

  /** A click keeps the state well formed. */
  lemma StepKeepsValid(s: GameState, x: nat)
    requires Valid(s) && x < s.width
    ensures Valid(Step(s, x))
    ensures Step(s, x).players == s.players && Step(s, x).width == s.width && Step(s, x).height == s.height
  {
    if !s.gameOver && LowestOpenRow(s.board, x).Some? {
      var y := LowestOpenRow(s.board, x).value;
      var board := Place(s.board, y, x, s.currPlayer);
      assert Shaped(board, s.height, s.width);
    }
  }

  /** A click changes nothing exactly when the game is over or the column is
      full. */
  lemma StepIgnoredIffInvalid(s: GameState, x: nat)
    requires Valid(s) && x < s.width
    ensures Step(s, x) == s <==> s.gameOver || ColumnFull(s.board, x)
  {
    if !s.gameOver && !ColumnFull(s.board, x) {
      var y := LowestOpenRow(s.board, x).value;
      assert At(Step(s, x).board, y, x) != At(s.board, y, x);
    }
  }

  /** A click that is not ignored changes exactly one cell: the lowest empty
      cell of column `x`, which now holds the player who clicked. */
  lemma StepDropsOnePiece(s: GameState, x: nat)
    requires Valid(s) && x < s.width
    requires !s.gameOver && !ColumnFull(s.board, x)
    ensures LowestOpenRow(s.board, x).Some?
    ensures var y := LowestOpenRow(s.board, x).value;
      && y < s.height
      && s.board[y][x] == None
      && (forall y' :: y < y' < s.height ==> s.board[y'][x] != None)
      && Shaped(Step(s, x).board, s.height, s.width)
      && Step(s, x).board[y][x] == Some(s.currPlayer)
      && forall i, j :: 0 <= i < s.height && 0 <= j < s.width && (i, j) != (y, x) ==>
           Step(s, x).board[i][j] == s.board[i][j]
  {
    var y := LowestOpenRow(s.board, x).value;
    StepKeepsValid(s, x);
    assert At(s.board, y, x) == None;
    forall y' | y < y' < s.height
      ensures s.board[y'][x] != None
    {
      assert At(s.board, y', x).Some?;
    }
    assert At(Step(s, x).board, y, x) == Some(s.currPlayer);
    forall i, j | 0 <= i < s.height && 0 <= j < s.width && (i, j) != (y, x)
      ensures Step(s, x).board[i][j] == s.board[i][j]
    {
      assert At(Step(s, x).board, i, j) == At(s.board, i, j);
    }
  }

  /** After a click that is not ignored, the game is over exactly when the
      player who clicked has four in a row or the board is full; the player
      who ended the game keeps the turn, and otherwise the turn passes to the
      other player. */
  lemma StepOutcome(s: GameState, x: nat)
    requires Valid(s) && x < s.width
    requires !s.gameOver && !ColumnFull(s.board, x)
    ensures var r := Step(s, x);
      && (r.gameOver <==> HasWin(r.board, s.height, s.width, s.currPlayer) || IsFull(r.board))
      && (r.gameOver ==> r.currPlayer == s.currPlayer)
      && (!r.gameOver ==> r.currPlayer == Other(s.players, s.currPlayer))
  {
  }

  /** With two distinct players, a click that neither wins nor fills the board
      hands the turn to the other player, and the next such hand-off gives it
      back: turns strictly alternate. */
  lemma StepAlternates(s: GameState, x: nat)
    requires Valid(s) && s.players[0] != s.players[1] && x < s.width
    requires !s.gameOver && !ColumnFull(s.board, x) && !Step(s, x).gameOver
    ensures Step(s, x).currPlayer != s.currPlayer && Step(s, x).currPlayer in s.players
    ensures Other(s.players, Step(s, x).currPlayer) == s.currPlayer
  {
  }

  /** A piece once dropped stays where it is until a restart. */
  lemma StepKeepsPieces(s: GameState, x: nat)
    requires Valid(s) && x < s.width
    ensures forall i, j :: At(s.board, i, j).Some? ==> At(Step(s, x).board, i, j) == At(s.board, i, j)
  {
  }

  /** Every state a match reaches satisfies `Invariant`: a click keeps it. */
  lemma StepKeepsInvariant(s: GameState, x: nat)
    requires Invariant(s) && x < s.width
    ensures Invariant(Step(s, x))
  {
    StepKeepsValid(s, x);
    if !s.gameOver && LowestOpenRow(s.board, x).Some? {
      var y := LowestOpenRow(s.board, x).value;
      var r := Step(s, x);
      PlaceKeepsSettled(s.board, x, s.currPlayer);
      assert s.board[y][x] == None by { assert At(s.board, y, x) == None; }
      PlaceCount(s.board, y, x, s.currPlayer, s.players[0]);
      PlaceCount(s.board, y, x, s.currPlayer, s.players[1]);
      if !r.gameOver {
        forall p | p in s.players
          ensures !HasWin(r.board, s.height, s.width, p)
        {
          if p != s.currPlayer && HasWin(r.board, s.height, s.width, p) {
            PlaceGivesOthersNoWin(s.board, s.height, s.width, y, x, s.currPlayer, p);
          }
        }
      }
    }
  }

  /** A restart gives an empty board of the same size with the first player
      to move, and every state it gives satisfies `Invariant`. */
  lemma RestartedStartsMatch(s: GameState)
    requires |s.players| == 2 && s.players[0] != s.players[1]
    ensures var r := Restarted(s);
      && r.width == s.width && r.height == s.height && r.players == s.players
      && Shaped(r.board, s.height, s.width)
      && (forall i, j :: At(r.board, i, j) == None)
      && r.currPlayer == s.players[0] && !r.gameOver
      && Invariant(r)
  {
    var r := Restarted(s);
    EmptyBoardCount(s.height, s.width, s.players[0]);
    EmptyBoardCount(s.height, s.width, s.players[1]);
    forall p | p in s.players
      ensures !HasWin(r.board, s.height, s.width, p)
    {
      if HasWin(r.board, s.height, s.width, p) {
        var y, x, d :| 0 <= y < s.height && 0 <= x < s.width && d in Directions &&
          AllOwned(r.board, s.height, s.width, p, Run(y, x, d));
        BrokenRunLoses(r.board, s.height, s.width, p, y, x, d, 0);
      }
    }
  }
}
