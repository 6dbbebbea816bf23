/** Two positions on the default 7 by 6 board and the drop that ends each
    match: one won along the bottom row, one where the last empty cell is
    filled without four in a row. Both positions satisfy `Rules.Invariant`,
    the property every state of a match keeps. */
module Scenarios {
  import opened Players
  import opened Boards
  import opened WinDetection
  import opened Rules

  /** The count of `p` on a six-row board is the sum of its rows' counts. */
  lemma CountSixRows(board: Board, p: Player)
    requires |board| == 6
    ensures Count(board, p) == RowCount(board[0], p) + RowCount(board[1], p) + RowCount(board[2], p)
      + RowCount(board[3], p) + RowCount(board[4], p) + RowCount(board[5], p)
  {
    assert board[0..] == board;
    assert board[6..] == [];
    CountFromRow(board, 0, p);
    CountFromRow(board, 1, p);
    CountFromRow(board, 2, p);
    CountFromRow(board, 3, p);
    CountFromRow(board, 4, p);
    CountFromRow(board, 5, p);
  }

  /** The first player has dropped into columns 0, 1 and 2 and the second
      player has answered on top of each of them. */
  function ThreeAlongBottom(red: Player, yellow: Player): GameState
  {
    var e := EmptyRow(7);
    GameState(7, 6,
      [e, e, e, e,
       [Some(yellow), Some(yellow), Some(yellow), None, None, None, None],
       [Some(red), Some(red), Some(red), None, None, None, None]],
      [red, yellow], red, false)
  }

  /** Three pieces in the first three columns of a row, the rest empty. */
  lemma ThreeThenEmptyCount(row: seq<Cell>, q: Player, p: Player)
    requires row == [Some(q), Some(q), Some(q), None, None, None, None]
    ensures RowCount(row, p) == if q == p then 3 else 0
  {
    assert row == row[..3] + row[3..];
    RowCountAppend(row[..3], row[3..], p);
    RowCountUniform(row[..3], Some(q), p);
    RowCountUniform(row[3..], None, p);
  }

  /** Before the winning drop the top four rows are empty, and so are
      columns 3 to 6 of the bottom two rows; positions off the board read as
      empty too. */
  lemma ThreeAlongBottomEmpty(red: Player, yellow: Player, y: int, x: int)
    requires y < 4 || y >= 6 || x < 0 || x >= 3
    ensures At(ThreeAlongBottom(red, yellow).board, y, x) == None
  {
  }

  /** The run of four from (`y`, `x`) in direction `d` before the winning drop
      is no win for anybody. */
  lemma ThreeAlongBottomNoRun(red: Player, yellow: Player, p: Player, y: int, x: int, d: Pos)
    requires 0 <= y < 6 && 0 <= x < 7 && d in Directions
    ensures !AllOwned(ThreeAlongBottom(red, yellow).board, 6, 7, p, Run(y, x, d))
  {
    var b := ThreeAlongBottom(red, yellow).board;
    var k := if d != (0, 1) then (if y <= 3 then 0 else 3)
             else if y < 4 then 0
             else if x + 3 >= 7 then 3
             else 3 - x;
    ThreeAlongBottomEmpty(red, yellow, y + k * d.0, x + k * d.1);
    BrokenRunLoses(b, 6, 7, p, y, x, d, k);
  }

  /** Nobody has four in a row before the winning drop. */
  lemma ThreeAlongBottomNoWin(red: Player, yellow: Player, p: Player)
    ensures !HasWin(ThreeAlongBottom(red, yellow).board, 6, 7, p)
  {
    var b := ThreeAlongBottom(red, yellow).board;
    forall y, x | 0 <= y < 6 && 0 <= x < 7
      ensures NoRunFrom(b, 6, 7, p, y, x)
    {
      forall d | d in Directions
        ensures !AllOwned(b, 6, 7, p, Run(y, x, d))
      {
        ThreeAlongBottomNoRun(red, yellow, p, y, x, d);
      }
    }
    NoWinFromAnyOrigin(b, 6, 7, p);
  }

  /** Three pieces each before the winning drop. */
  lemma ThreeAlongBottomCount(red: Player, yellow: Player, p: Player)
    requires red != yellow
    requires p == red || p == yellow
    ensures Count(ThreeAlongBottom(red, yellow).board, p) == 3
  {
    var b := ThreeAlongBottom(red, yellow).board;
    CountSixRows(b, p);
    EmptyRowCount(7, p);
    ThreeThenEmptyCount(b[4], yellow, p);
    ThreeThenEmptyCount(b[5], red, p);
  }

  /** The position before the winning drop is one a match reaches: three
      pieces each with the first player to move, every piece resting on
      another or on the bottom, and nobody with four in a row. */
  lemma ThreeAlongBottomInvariant(red: Player, yellow: Player)
    requires red != yellow
    ensures Count(ThreeAlongBottom(red, yellow).board, red) == 3
    ensures Count(ThreeAlongBottom(red, yellow).board, yellow) == 3
    ensures Invariant(ThreeAlongBottom(red, yellow))
  {
    ThreeAlongBottomCount(red, yellow, red);
    ThreeAlongBottomCount(red, yellow, yellow);
    ThreeAlongBottomNoWin(red, yellow, red);
    ThreeAlongBottomNoWin(red, yellow, yellow);
  }

  /** The first player's drop into column 3 completes four along the bottom
      row: the match is won, and the winner keeps the turn. */
  lemma RedWinsAlongBottomRow(red: Player, yellow: Player)
    ensures Valid(ThreeAlongBottom(red, yellow))
    ensures var r := Step(ThreeAlongBottom(red, yellow), 3);
      && r.board[5][3] == Some(red)
      && HasWin(r.board, 6, 7, red)
      && r.gameOver && r.currPlayer == red
      && (red != yellow ==> Invariant(r))
  {
    var s := ThreeAlongBottom(red, yellow);
    assert Valid(s);
    assert LowestOpenRow(s.board, 3) == Some(5);
    var board := Place(s.board, 5, 3, red);
    RunWins(board, 6, 7, red, 5, 0, (0, 1));
    if red != yellow {
      ThreeAlongBottomInvariant(red, yellow);
      StepKeepsInvariant(s, 3);
    }
  }

  /** A full board without four in a row: each row is one player's but for
      column 3, which holds the other player's piece, and the rows alternate
      between the players. The first player holds row 1's, row 3's and row 5's
      outer cells. */
  function TieColor(red: Player, yellow: Player, y: int, x: int): Player
  {
    if (y % 2 == 0) == (x == 3) then red else yellow
  }

  function TieRow(red: Player, yellow: Player, y: int): seq<Cell>
  {
    seq(7, x => Some(TieColor(red, yellow, y, x)))
  }

  function TieBoard(red: Player, yellow: Player): Board
  {
    seq(6, y => TieRow(red, yellow, y))
  }

  lemma TieAt(red: Player, yellow: Player, y: int, x: int)
    requires 0 <= y < 6 && 0 <= x < 7
    ensures At(TieBoard(red, yellow), y, x) == Some(TieColor(red, yellow, y, x))
  {
  }

  /** Cells in adjacent rows, neither of them in column 3, differ. */
  lemma TieNeighboursDiffer(red: Player, yellow: Player, y: int, x: int, x': int)
    requires red != yellow
    requires x != 3 && x' != 3
    ensures TieColor(red, yellow, y, x) != TieColor(red, yellow, y + 1, x')
  {
  }

  /** Each row has one piece of one player and six of the other. */
  lemma TieRowCount(red: Player, yellow: Player, y: int, p: Player)
    ensures RowCount(TieRow(red, yellow, y), p)
         == Indicator(TieColor(red, yellow, y, 3) == p) + 6 * Indicator(TieColor(red, yellow, y, 0) == p)
  {
    var r := TieRow(red, yellow, y);
    assert r == r[..3] + (r[3..4] + r[4..]);
    RowCountAppend(r[..3], r[3..4] + r[4..], p);
    RowCountAppend(r[3..4], r[4..], p);
    RowCountUniform(r[..3], Some(TieColor(red, yellow, y, 0)), p);
    RowCountUniform(r[3..4], Some(TieColor(red, yellow, y, 3)), p);
    RowCountUniform(r[4..], Some(TieColor(red, yellow, y, 0)), p);
  }

  /** Both players hold 21 pieces of the full board, as after 42 alternating
      drops. */
  lemma TieBoardBalanced(red: Player, yellow: Player)
    requires red != yellow
    ensures Count(TieBoard(red, yellow), red) == 21
    ensures Count(TieBoard(red, yellow), yellow) == 21
  {
    var b := TieBoard(red, yellow);
    forall p | p == red || p == yellow
      ensures Count(b, p) == 21
    {
      CountSixRows(b, p);
      TieRowCount(red, yellow, 0, p);
      TieRowCount(red, yellow, 1, p);
      TieRowCount(red, yellow, 2, p);
      TieRowCount(red, yellow, 3, p);
      TieRowCount(red, yellow, 4, p);
      TieRowCount(red, yellow, 5, p);
    }
  }

  lemma TieNoHorizontal(red: Player, yellow: Player, p: Player, y: int, x: int)
    requires red != yellow
    requires 0 <= y < 6 && 0 <= x < 7
    ensures !AllOwned(TieBoard(red, yellow), 6, 7, p, Run(y, x, (0, 1)))
  {
    var b := TieBoard(red, yellow);
    if x + 3 >= 7 {
      BrokenRunLoses(b, 6, 7, p, y, x, (0, 1), 3);
    } else {
      var other := if x == 3 then 4 else x;
      TieAt(red, yellow, y, 3);
      TieAt(red, yellow, y, other);
      PairBreaksRun(b, 6, 7, p, y, x, (0, 1), 3 - x, other - x);
    }
  }

  lemma TieNoVertical(red: Player, yellow: Player, p: Player, y: int, x: int)
    requires red != yellow
    requires 0 <= y < 6 && 0 <= x < 7
    ensures !AllOwned(TieBoard(red, yellow), 6, 7, p, Run(y, x, (1, 0)))
  {
    var b := TieBoard(red, yellow);
    if y + 3 >= 6 {
      BrokenRunLoses(b, 6, 7, p, y, x, (1, 0), 3);
    } else {
      TieAt(red, yellow, y, x);
      TieAt(red, yellow, y + 1, x);
      PairBreaksRun(b, 6, 7, p, y, x, (1, 0), 0, 1);
    }
  }

  lemma TieNoDiagonal(red: Player, yellow: Player, p: Player, y: int, x: int, d: Pos)
    requires red != yellow
    requires 0 <= y < 6 && 0 <= x < 7
    requires d == (1, 1) || d == (1, -1)
    ensures !AllOwned(TieBoard(red, yellow), 6, 7, p, Run(y, x, d))
  {
    var b := TieBoard(red, yellow);
    if y + 3 >= 6 || !(0 <= x + 3 * d.1 < 7) {
      BrokenRunLoses(b, 6, 7, p, y, x, d, 3);
    } else {
      var k := if x == 3 || x + d.1 == 3 then 2 else 0;
      TieAt(red, yellow, y + k, x + k * d.1);
      TieAt(red, yellow, y + k + 1, x + (k + 1) * d.1);
      TieNeighboursDiffer(red, yellow, y + k, x + k * d.1, x + (k + 1) * d.1);
      PairBreaksRun(b, 6, 7, p, y, x, d, k, k + 1);
    }
  }

  /** Nobody has four in a row on the full board. */
  lemma TieBoardHasNoWin(red: Player, yellow: Player, p: Player)
    requires red != yellow
    ensures Shaped(TieBoard(red, yellow), 6, 7) && IsFull(TieBoard(red, yellow))
    ensures !HasWin(TieBoard(red, yellow), 6, 7, p)
  {
    var b := TieBoard(red, yellow);
    forall y, x | 0 <= y < 6 && 0 <= x < 7
      ensures NoRunFrom(b, 6, 7, p, y, x)
    {
      NoRunFromFour(b, 6, 7, p, y, x);
      TieNoHorizontal(red, yellow, p, y, x);
      TieNoVertical(red, yellow, p, y, x);
      TieNoDiagonal(red, yellow, p, y, x, (1, 1));
      TieNoDiagonal(red, yellow, p, y, x, (1, -1));
    }
    NoWinFromAnyOrigin(b, 6, 7, p);
  }

  /** The full board but for the top cell of column 6, which the second
      player's 42nd drop fills. */
  function OneCellLeft(red: Player, yellow: Player): GameState
  {
    var full := TieBoard(red, yellow);
    GameState(7, 6, full[0 := full[0][6 := None]], [red, yellow], yellow, false)
  }

  /** The position before the last drop is one a match reaches: 21 pieces of
      the first player and 20 of the second with the second to move, nothing
      floating, and nobody with four in a row. */
  lemma OneCellLeftInvariant(red: Player, yellow: Player)
    requires red != yellow
    ensures Place(OneCellLeft(red, yellow).board, 0, 6, yellow) == TieBoard(red, yellow)
    ensures Count(OneCellLeft(red, yellow).board, red) == 21
    ensures Count(OneCellLeft(red, yellow).board, yellow) == 20
    ensures Invariant(OneCellLeft(red, yellow))
  {
    var s := OneCellLeft(red, yellow);
    var full := TieBoard(red, yellow);
    assert full[0][6] == Some(yellow);
    assert full[0][6 := None][6 := Some(yellow)] == full[0];
    assert Place(s.board, 0, 6, yellow) == full;
    TieBoardBalanced(red, yellow);
    PlaceCount(s.board, 0, 6, yellow, red);
    PlaceCount(s.board, 0, 6, yellow, yellow);
    forall y, x | 0 <= y && y + 1 < |s.board| && At(s.board, y, x).Some?
      ensures At(s.board, y + 1, x).Some?
    {
      assert s.board[y + 1] == TieRow(red, yellow, y + 1);
    }
    forall p | p in s.players
      ensures !HasWin(s.board, 6, 7, p)
    {
      TieBoardHasNoWin(red, yellow, p);
      if HasWin(s.board, 6, 7, p) {
        WinKeptByMorePieces(s.board, full, 6, 7, p);
      }
    }
  }

  /** The last drop fills the board without four in a row: the match ends in
      a tie, and the player who made it keeps the turn. */
  lemma LastDropTies(red: Player, yellow: Player)
    requires red != yellow
    ensures Invariant(OneCellLeft(red, yellow))
    ensures var r := Step(OneCellLeft(red, yellow), 6);
      && r.board == TieBoard(red, yellow)
      && IsFull(r.board)
      && !HasWin(r.board, 6, 7, red) && !HasWin(r.board, 6, 7, yellow)
      && r.gameOver && r.currPlayer == yellow
      && Invariant(r)
  {
    var s := OneCellLeft(red, yellow);
    OneCellLeftInvariant(red, yellow);
    assert LowestOpenRow(s.board, 6) == Some(0);
    TieBoardHasNoWin(red, yellow, red);
    TieBoardHasNoWin(red, yellow, yellow);
    StepKeepsInvariant(s, 6);
  }
}
