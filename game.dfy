/** The game object: its board, its two players, whose turn it is and whether
    the match is over, with the operations the page calls on it. */
module Connect4 {
  import opened Players
  import opened Boards
  import opened WinDetection
  import Rules

  class Game {
    const width: nat
    const height: nat
    const players: seq<Player>
    var board: Board
    var currPlayer: Player
    var gameOver: bool

    /** The state of the game as a value, for the rules to speak about. */
    function Snapshot(): Rules.GameState
      reads this
    {
      Rules.GameState(width, height, board, players, currPlayer, gameOver)
    }

    predicate Valid()
      reads this
    {
      Rules.Valid(Snapshot())
    }

    /** A new game on a `width` by `height` board whose rows are not built yet;
        `player1` moves first. */
    constructor(player1: Player, player2: Player, width: nat := 7, height: nat := 6)
      ensures this.width == width && this.height == height
      ensures players == [player1, player2] && currPlayer == player1
      ensures board == [] && !gameOver
    {
      this.width := width;
      this.height := height;
      currPlayer := player1;
      players := [player1, player2];
      board := [];
      gameOver := false;
    }

    /** Appends `height` empty rows of `width` cells to the board. */
    method MakeBoard()
      modifies this
      ensures board == old(board) + EmptyBoard(height, width)
      ensures currPlayer == old(currPlayer) && gameOver == old(gameOver)
    {
      var y := 0;
      while y < height
        invariant 0 <= y <= height
        invariant board == old(board) + EmptyBoard(y, width)
        invariant currPlayer == old(currPlayer) && gameOver == old(gameOver)
      {
        assert EmptyBoard(y + 1, width) == EmptyBoard(y, width) + [EmptyRow(width)];
        board := board + [EmptyRow(width)];
        y := y + 1;
      }
    }

    /** Empties the board and gives the first move to the first player. */
    method Restart()
      requires |players| == 2
      modifies this
      ensures Snapshot() == Rules.Restarted(old(Snapshot()))
    {
      board := [];
      var y := 0;
      while y < height
        invariant 0 <= y <= height
        invariant board == EmptyBoard(y, width)
      {
        assert EmptyBoard(y + 1, width) == EmptyBoard(y, width) + [EmptyRow(width)];
        board := board + [EmptyRow(width)];
        y := y + 1;
      }
      currPlayer := players[0];
      gameOver := false;
    }

    /** The row a piece dropped into column `x` would come to rest in: the
        lowest empty row of that column, or None when the column is full. */
    method FindSpotForCol(x: nat) returns (spot: Option<nat>)
      requires Valid() && x < width
      ensures spot == LowestOpenRow(board, x)
      ensures spot.None? <==> forall y :: 0 <= y < height ==> board[y][x].Some?
      ensures spot.Some? ==> spot.value < height && board[spot.value][x].None?
      ensures spot.Some? ==> forall y :: spot.value < y < height ==> board[y][x].Some?
    {
      var y: int := height - 1;
      while y >= 0
        invariant -1 <= y < height
        invariant forall y' :: y < y' < height ==> board[y'][x].Some?
      {
        if board[y][x].None? {
          assert At(board, y, x).None?;
          return Some(y);
        }
        y := y - 1;
      }
      return None;
    }

    /** Ends the match. */
    method EndGame()
      modifies this
      ensures gameOver
      ensures board == old(board) && currPlayer == old(currPlayer)
    {
      gameOver := true;
    }

    /** A click on column `x`. */
    method HandleClick(x: nat)
      requires Valid() && x < width
      modifies this
      ensures Snapshot() == Rules.Step(old(Snapshot()), x)
      ensures Valid()
    {
      Rules.StepKeepsValid(Snapshot(), x);
      if gameOver {
        return;
      }
      var y := FindSpotForCol(x);
      if y.None? {
        return;
      }
      board := board[y.value := board[y.value][x := Some(currPlayer)]];
      assert Valid() by {
        assert Shaped(board, height, width);
      }
      var won := CheckForWin();
      if won {
        EndGame();
        return;
      }
      if IsFull(board) {
        EndGame();
        return;
      }
      currPlayer := if currPlayer == players[0] then players[1] else players[0];
    }

    /** Does the current player have four in a row? Every cell is tried as the
        first of a horizontal, a vertical, a down-right and a down-left run. */
    method CheckForWin() returns (won: bool)
      requires Valid()
      ensures won <==> HasWin(board, height, width, currPlayer)
    {
      var y := 0;
      while y < height
        invariant 0 <= y <= height
        invariant forall y', x' :: 0 <= y' < y && 0 <= x' < width ==>
          NoRunFrom(board, height, width, currPlayer, y', x')
      {
        var x := 0;
        while x < width
          invariant 0 <= x <= width
          invariant forall x' :: 0 <= x' < x ==> NoRunFrom(board, height, width, currPlayer, y, x')
        {
          var horiz := Run(y, x, (0, 1));
          var vert := Run(y, x, (1, 0));
          var diagDR := Run(y, x, (1, 1));
          var diagDL := Run(y, x, (1, -1));
          if AllOwned(board, height, width, currPlayer, horiz)
            || AllOwned(board, height, width, currPlayer, vert)
            || AllOwned(board, height, width, currPlayer, diagDR)
            || AllOwned(board, height, width, currPlayer, diagDL)
          {
            NoRunFromFour(board, height, width, currPlayer, y, x);
            WinFromOrigin(board, height, width, currPlayer, y, x);
            return true;
          }
          NoRunFromFour(board, height, width, currPlayer, y, x);
          x := x + 1;
        }
        y := y + 1;
      }
      NoWinFromAnyOrigin(board, height, width, currPlayer);
      return false;
    }
  }

  /** What the start button and the colour form do to the engine: two new
      players from the chosen colours, a new game on the default 7 by 6 board,
      and its rows built. */
  method StartMatch(color1: string, color2: string) returns (game: Game)
    ensures fresh(game)
    ensures game.width == 7 && game.height == 6 && |game.players| == 2
    ensures game.players[0].color == color1 && game.players[1].color == color2
    ensures game.board == EmptyBoard(6, 7) && game.currPlayer == game.players[0] && !game.gameOver
    ensures Rules.Invariant(game.Snapshot())
  {
    var player1 := new Player(color1);
    var player2 := new Player(color2);
    game := new Game(player1, player2);
    game.MakeBoard();
    Rules.RestartedStartsMatch(game.Snapshot());
  }
}
