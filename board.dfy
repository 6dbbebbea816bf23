/** The board: `height` rows of `width` cells. Row 0 is the top row and row
    `height - 1` the bottom one; a cell is empty or holds the player whose
    piece sits there. */
module Boards {
  import opened Players

  datatype Option<T> = None | Some(value: T)

  type Cell = Option<Player>
  type Board = seq<seq<Cell>>

  /** The board has `height` rows of `width` cells each. */
  predicate Shaped(board: Board, height: nat, width: nat)
  {
    |board| == height && forall y :: 0 <= y < |board| ==> |board[y]| == width
  }

  /** The cell at row `y`, column `x`; a position off the board reads as empty. */
  function At(board: Board, y: int, x: int): Cell
  {
    if 0 <= y < |board| && 0 <= x < |board[y]| then board[y][x] else None
  }

  /** A row of `width` empty cells. */
  function EmptyRow(width: nat): (row: seq<Cell>)
    ensures |row| == width
    ensures forall x :: 0 <= x < width ==> row[x] == None
  {
    seq(width, _ => None)
  }

  /** The first `height` rows of a fresh board. */
  function EmptyBoard(height: nat, width: nat): (board: Board)
    ensures Shaped(board, height, width)
    ensures forall y, x :: At(board, y, x) == None
  {
    seq(height, _ => EmptyRow(width))
  }

  /** Every cell of column `x` is occupied. */
  predicate ColumnFull(board: Board, x: int)
  {
    forall y :: 0 <= y < |board| ==> At(board, y, x).Some?
  }

  /** Every cell of every row is occupied: the tie test. */
  predicate IsFull(board: Board)
  {
    forall y, x :: 0 <= y < |board| && 0 <= x < |board[y]| ==> board[y][x].Some?
  }

  /** Scan of column `x` from row `n - 1` upwards: the first empty row met, if any. */
  function LowestOpenFrom(board: Board, x: int, n: nat): (spot: Option<nat>)
    requires n <= |board|
    ensures spot.None? <==> forall y :: 0 <= y < n ==> At(board, y, x).Some?
    ensures spot.Some? ==> spot.value < n && At(board, spot.value, x).None?
    ensures spot.Some? ==> forall y :: spot.value < y < n ==> At(board, y, x).Some?
    decreases n
  {
    if n == 0 then None
    else if At(board, n - 1, x).None? then Some(n - 1)
    else LowestOpenFrom(board, x, n - 1)
  }

  /** Where a piece dropped into column `x` comes to rest: the lowest empty row
      of that column, or None when the column is full. */
  function LowestOpenRow(board: Board, x: int): Option<nat>
  {
    LowestOpenFrom(board, x, |board|)
  }

  /** The board with `p`'s piece written into row `y`, column `x`. */
  function Place(board: Board, y: nat, x: nat, p: Player): (r: Board)
    requires y < |board| && x < |board[y]|
    ensures |r| == |board| && forall i :: 0 <= i < |r| ==> |r[i]| == |board[i]|
    ensures forall i, j :: At(r, i, j) == if i == y && j == x then Some(p) else At(board, i, j)
  {
    board[y := board[y][x := Some(p)]]
  }

  /** No piece floats: every occupied cell above the bottom row rests on an
      occupied cell. */
  ghost predicate Settled(board: Board)
  {
    forall y, x :: 0 <= y && y + 1 < |board| && At(board, y, x).Some? ==> At(board, y + 1, x).Some?
  }

  /** How many cells of `row` hold `p`. */
  function RowCount(row: seq<Cell>, p: Player): nat
  {
    if row == [] then 0
    else (if row[0] == Some(p) then 1 else 0) + RowCount(row[1..], p)
  }

  /** How many pieces `p` has on the board. */
  function Count(board: Board, p: Player): nat
  {
    if board == [] then 0 else RowCount(board[0], p) + Count(board[1..], p)
  }

  function Indicator(b: bool): nat
  {
    if b then 1 else 0
  }

  /** Overwriting one cell of a row changes the count of `p` by what the cell
      held before and what it holds after. */
  lemma {:induction false} RowCountUpdate(row: seq<Cell>, x: nat, v: Cell, p: Player)
    requires x < |row|
    ensures RowCount(row[x := v], p) + Indicator(row[x] == Some(p))
         == RowCount(row, p) + Indicator(v == Some(p))
  {
    if x == 0 {
      assert row[x := v][1..] == row[1..];
    } else {
      assert row[x := v][1..] == row[1..][x - 1 := v];
      RowCountUpdate(row[1..], x - 1, v, p);
    }
  }

  /** Replacing one row changes the count of `p` by the difference of the two
      rows' counts. */
  lemma {:induction false} CountUpdate(board: Board, y: nat, row: seq<Cell>, p: Player)
    requires y < |board|
    ensures Count(board[y := row], p) + RowCount(board[y], p) == Count(board, p) + RowCount(row, p)
  {
    if y == 0 {
      assert board[y := row][1..] == board[1..];
    } else {
      assert board[y := row][1..] == board[1..][y - 1 := row];
      CountUpdate(board[1..], y - 1, row, p);
    }
  }

  /** Dropping `p` into an empty cell adds one piece to `p`'s count and leaves
      every other player's count as it was. */
  lemma PlaceCount(board: Board, y: nat, x: nat, p: Player, q: Player)
    requires y < |board| && x < |board[y]|
    requires board[y][x] == None
    ensures Count(Place(board, y, x, p), q) == Count(board, q) + Indicator(p == q)
  {
    RowCountUpdate(board[y], x, Some(p), q);
    CountUpdate(board, y, board[y][x := Some(p)], q);
  }

  /** A row of empty cells holds no piece of anybody. */
  lemma {:induction false} EmptyRowCount(width: nat, p: Player)
    ensures RowCount(EmptyRow(width), p) == 0
  {
    if width > 0 {
      assert EmptyRow(width)[1..] == EmptyRow(width - 1);
      EmptyRowCount(width - 1, p);
    }
  }

  /** A fresh board holds no piece of anybody. */
  lemma {:induction false} EmptyBoardCount(height: nat, width: nat, p: Player)
    ensures Count(EmptyBoard(height, width), p) == 0
  {
    if height > 0 {
      assert EmptyBoard(height, width)[1..] == EmptyBoard(height - 1, width);
      EmptyRowCount(width, p);
      EmptyBoardCount(height - 1, width, p);
    }
  }

  /** Counting a row split in two adds up the counts of the two parts. */
  lemma {:induction false} RowCountAppend(a: seq<Cell>, b: seq<Cell>, p: Player)
    ensures RowCount(a + b, p) == RowCount(a, p) + RowCount(b, p)
  {
    if a != [] {
      assert (a + b)[1..] == a[1..] + b;
      RowCountAppend(a[1..], b, p);
    } else {
      assert a + b == b;
    }
  }

  /** A row whose cells all hold the same thing counts every cell for that
      player and none for anybody else. */
  lemma {:induction false} RowCountUniform(row: seq<Cell>, c: Cell, p: Player)
    requires forall i :: 0 <= i < |row| ==> row[i] == c
    ensures RowCount(row, p) == if c == Some(p) then |row| else 0
  {
    if row != [] {
      RowCountUniform(row[1..], c, p);
    }
  }

  /** The count on the rows from `y` down is row `y`'s count plus the count on
      the rows below it. */
  lemma CountFromRow(board: Board, y: nat, p: Player)
    requires y < |board|
    ensures Count(board[y..], p) == RowCount(board[y], p) + Count(board[y + 1..], p)
  {
    assert board[y..][1..] == board[y + 1..];
  }

  /** The tie test and the drop test agree: the board is full exactly when
      every column is full, so that no drop anywhere finds a row. */
  lemma FullIffNoOpenRow(board: Board, height: nat, width: nat)
    requires Shaped(board, height, width)
    ensures IsFull(board) <==> forall x :: 0 <= x < width ==> LowestOpenRow(board, x).None?
  {
    if !IsFull(board) {
      var y, x :| 0 <= y < |board| && 0 <= x < |board[y]| && board[y][x].None?;
      assert At(board, y, x).None?;
      assert LowestOpenRow(board, x).Some?;
    } else {
      forall x | 0 <= x < width
        ensures LowestOpenRow(board, x).None?
      {
        forall y | 0 <= y < |board|
          ensures At(board, y, x).Some?
        {
          assert board[y][x].Some?;
        }
      }
    }
  }

  /** Dropping a piece where gravity puts it keeps the board settled. */
  lemma PlaceKeepsSettled(board: Board, x: nat, p: Player)
    requires Settled(board)
    requires LowestOpenRow(board, x).Some?
    requires x < |board[LowestOpenRow(board, x).value]|
    ensures Settled(Place(board, LowestOpenRow(board, x).value, x, p))
  {
  }
}
