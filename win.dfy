/** Four-in-a-row detection: from every cell of the board, in each of four
    directions, are the four cells starting there on the board and all held by
    the player? */
module WinDetection {
  import opened Players
  import opened Boards

  type Pos = (int, int)

  /** Row and column steps of the four directions tried from every cell:
      horizontal, vertical, down-right and down-left. */
  const Directions: seq<Pos> := [(0, 1), (1, 0), (1, 1), (1, -1)]

  /** The four cells from (`y`, `x`) in direction `d`. */
  function Run(y: int, x: int, d: Pos): (cells: seq<Pos>)
    ensures |cells| == 4
    ensures forall k :: 0 <= k < 4 ==> cells[k] == (y + k * d.0, x + k * d.1)
  {
    [(y, x), (y + d.0, x + d.1), (y + 2 * d.0, x + 2 * d.1), (y + 3 * d.0, x + 3 * d.1)]
  }

  predicate InBounds(height: nat, width: nat, c: Pos)
  {
    0 <= c.0 < height && 0 <= c.1 < width
  }

  /** Every cell of `cells`, taken in order, is on the board and holds `p`. */
  predicate AllOwned(board: Board, height: nat, width: nat, p: Player, cells: seq<Pos>)
  {
    cells == [] ||
    (InBounds(height, width, cells[0]) && At(board, cells[0].0, cells[0].1) == Some(p)
     && AllOwned(board, height, width, p, cells[1..]))
  }

  /** `AllOwned` holds exactly when each cell of the list is on the board and
      holds `p`. */
  lemma {:induction false} AllOwnedIff(board: Board, height: nat, width: nat, p: Player, cells: seq<Pos>)
    ensures AllOwned(board, height, width, p, cells) <==>
      forall c :: c in cells ==> InBounds(height, width, c) && At(board, c.0, c.1) == Some(p)
  {
    if cells != [] {
      AllOwnedIff(board, height, width, p, cells[1..]);
      assert forall c :: c in cells <==> c == cells[0] || c in cells[1..];
    }
  }

  /** `p` has four in a row somewhere on the board. */
  ghost predicate HasWin(board: Board, height: nat, width: nat, p: Player)
  {
    exists y, x, d :: 0 <= y < height && 0 <= x < width && d in Directions &&
      AllOwned(board, height, width, p, Run(y, x, d))
  }

  /** No run starting at (`y`, `x`) is a win for `p`. */
  ghost predicate NoRunFrom(board: Board, height: nat, width: nat, p: Player, y: int, x: int)
  {
    forall d :: d in Directions ==> !AllOwned(board, height, width, p, Run(y, x, d))
  }

  /** The four runs tried from (`y`, `x`) are all the runs from there. */
  lemma NoRunFromFour(board: Board, height: nat, width: nat, p: Player, y: int, x: int)
    ensures NoRunFrom(board, height, width, p, y, x) <==>
      !AllOwned(board, height, width, p, Run(y, x, (0, 1)))
      && !AllOwned(board, height, width, p, Run(y, x, (1, 0)))
      && !AllOwned(board, height, width, p, Run(y, x, (1, 1)))
      && !AllOwned(board, height, width, p, Run(y, x, (1, -1)))
  {
    assert forall d :: d in Directions <==> d == (0, 1) || d == (1, 0) || d == (1, 1) || d == (1, -1);
  }

  /** A winning run from a cell of the board is a win. */
  lemma WinFromOrigin(board: Board, height: nat, width: nat, p: Player, y: int, x: int)
    requires 0 <= y < height && 0 <= x < width
    requires !NoRunFrom(board, height, width, p, y, x)
    ensures HasWin(board, height, width, p)
  {
  }

  /** Without a winning run from any cell of the board there is no win. */
  lemma NoWinFromAnyOrigin(board: Board, height: nat, width: nat, p: Player)
    requires forall y, x :: 0 <= y < height && 0 <= x < width ==> NoRunFrom(board, height, width, p, y, x)
    ensures !HasWin(board, height, width, p)
  {
    forall y, x, d | 0 <= y < height && 0 <= x < width && d in Directions
      ensures !AllOwned(board, height, width, p, Run(y, x, d))
    {
      assert NoRunFrom(board, height, width, p, y, x);
    }
  }

  /** A run on the board all of whose cells hold `p` is a win for `p`. */
  lemma RunWins(board: Board, height: nat, width: nat, p: Player, y: int, x: int, d: Pos)
    requires d in Directions
    requires forall k :: 0 <= k < 4 ==>
      InBounds(height, width, (y + k * d.0, x + k * d.1)) && At(board, y + k * d.0, x + k * d.1) == Some(p)
    ensures HasWin(board, height, width, p)
  {
    var cells := Run(y, x, d);
    forall c | c in cells
      ensures InBounds(height, width, c) && At(board, c.0, c.1) == Some(p)
    {
      var k :| 0 <= k < 4 && cells[k] == c;
    }
    AllOwnedIff(board, height, width, p, cells);
    assert InBounds(height, width, (y + 0 * d.0, x + 0 * d.1));
  }

  /** A run in which some cell is empty or holds anybody but `p` is not a win
      for `p`: three of `p`'s pieces and one of the opponent's do not win. */
  lemma BrokenRunLoses(board: Board, height: nat, width: nat, p: Player, y: int, x: int, d: Pos, k: nat)
    requires k < 4
    requires At(board, y + k * d.0, x + k * d.1) != Some(p)
    ensures !AllOwned(board, height, width, p, Run(y, x, d))
  {
    assert Run(y, x, d)[k] in Run(y, x, d);
    AllOwnedIff(board, height, width, p, Run(y, x, d));
  }

  /** A run two of whose cells differ is not a win for anybody. */
  lemma PairBreaksRun(board: Board, height: nat, width: nat, p: Player, y: int, x: int, d: Pos, i: nat, j: nat)
    requires i < 4 && j < 4
    requires At(board, y + i * d.0, x + i * d.1) != At(board, y + j * d.0, x + j * d.1)
    ensures !AllOwned(board, height, width, p, Run(y, x, d))
  {
    var cells := Run(y, x, d);
    assert cells[i] in cells && cells[j] in cells;
    AllOwnedIff(board, height, width, p, cells);
  }

  /** Dropping `p`'s piece cannot give anybody else a win. */
  lemma PlaceGivesOthersNoWin(board: Board, height: nat, width: nat, y: nat, x: nat, p: Player, q: Player)
    requires y < |board| && x < |board[y]|
    requires q != p
    requires HasWin(Place(board, y, x, p), height, width, q)
    ensures HasWin(board, height, width, q)
  {
    var after := Place(board, y, x, p);
    var y0, x0, d :| 0 <= y0 < height && 0 <= x0 < width && d in Directions &&
      AllOwned(after, height, width, q, Run(y0, x0, d));
    AllOwnedIff(after, height, width, q, Run(y0, x0, d));
    AllOwnedIff(board, height, width, q, Run(y0, x0, d));
    forall c | c in Run(y0, x0, d)
      ensures InBounds(height, width, c) && At(board, c.0, c.1) == Some(q)
    {
      assert At(after, c.0, c.1) == Some(q);
    }
    assert AllOwned(board, height, width, q, Run(y0, x0, d));
  }

  /** More pieces never take a win away: a win on `smaller` is a win on every
      board that keeps each of its pieces where it is. */
  lemma WinKeptByMorePieces(smaller: Board, larger: Board, height: nat, width: nat, p: Player)
    requires forall y, x :: At(smaller, y, x).Some? ==> At(larger, y, x) == At(smaller, y, x)
    requires HasWin(smaller, height, width, p)
    ensures HasWin(larger, height, width, p)
  {
    var y0, x0, d :| 0 <= y0 < height && 0 <= x0 < width && d in Directions &&
      AllOwned(smaller, height, width, p, Run(y0, x0, d));
    AllOwnedIff(smaller, height, width, p, Run(y0, x0, d));
    AllOwnedIff(larger, height, width, p, Run(y0, x0, d));
    forall c | c in Run(y0, x0, d)
      ensures InBounds(height, width, c) && At(larger, c.0, c.1) == Some(p)
    {
      assert At(smaller, c.0, c.1) == Some(p);
    }
    assert AllOwned(larger, height, width, p, Run(y0, x0, d));
  }

  /** A win that appears when `p` drops a piece runs through that piece, so
      checking the runs through the last move finds the same wins as checking
      the whole board. */
  lemma NewWinRunsThroughLastMove(board: Board, height: nat, width: nat, y: nat, x: nat, p: Player)
    requires y < |board| && x < |board[y]|
    requires !HasWin(board, height, width, p)
    requires HasWin(Place(board, y, x, p), height, width, p)
    ensures exists y0, x0, d ::
              0 <= y0 < height && 0 <= x0 < width && d in Directions &&
              AllOwned(Place(board, y, x, p), height, width, p, Run(y0, x0, d)) && (y, x) in Run(y0, x0, d)
  {
    var after := Place(board, y, x, p);
    var y0, x0, d :| 0 <= y0 < height && 0 <= x0 < width && d in Directions &&
      AllOwned(after, height, width, p, Run(y0, x0, d));
    if (y, x) !in Run(y0, x0, d) {
      AllOwnedIff(after, height, width, p, Run(y0, x0, d));
      AllOwnedIff(board, height, width, p, Run(y0, x0, d));
      forall c | c in Run(y0, x0, d)
        ensures InBounds(height, width, c) && At(board, c.0, c.1) == Some(p)
      {
        assert At(after, c.0, c.1) == Some(p);
      }
      assert false;
    }
  }
}
