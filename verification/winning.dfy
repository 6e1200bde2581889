/**
 * The default winning rule: a move wins when it completes its row, its column,
 * or a full diagonal it lies on, all holding the mover's symbol.
 */
module DefaultWinningStrategy {
  import opened Wrappers
  import opened Grids

  /** Row `row` is complete for `s`: it fails exactly when some cell of the row is empty or holds another symbol. */
  function CheckRow(g: Grid, row: int, s: char): (r: bool)
    requires IsSquare(g) && 0 <= row < |g|
    ensures !r <==> exists col :: 0 <= col < |g| && (g[row][col].None? || g[row][col].value != s)
  {
    forall col :: 0 <= col < |g| ==> g[row][col] == Some(s)
  }

  /** Column `col` is complete for `s`: it fails exactly when some cell of the column is empty or holds another symbol. */
  function CheckColumn(g: Grid, col: int, s: char): (r: bool)
    requires IsSquare(g) && 0 <= col < |g|
    ensures !r <==> exists row :: 0 <= row < |g| && (g[row][col].None? || g[row][col].value != s)
  {
    forall row :: 0 <= row < |g| ==> g[row][col] == Some(s)
  }

  /** The main diagonal is complete for `s`: it fails exactly when some (i, i) is empty or holds another symbol. */
  function CheckMainDiagonal(g: Grid, s: char): (r: bool)
    requires IsSquare(g)
    ensures !r <==> exists i :: 0 <= i < |g| && (g[i][i].None? || g[i][i].value != s)
  {
    forall i :: 0 <= i < |g| ==> g[i][i] == Some(s)
  }

  /** The anti-diagonal is complete for `s`: it fails exactly when some (i, size-1-i) is empty or holds another symbol. */
  function CheckAntiDiagonal(g: Grid, s: char): (r: bool)
    requires IsSquare(g)
    ensures !r <==> exists i :: 0 <= i < |g| && (g[i][|g| - 1 - i].None? || g[i][|g| - 1 - i].value != s)
  {
    forall i :: 0 <= i < |g| ==> g[i][|g| - 1 - i] == Some(s)
  }

  /**
   * The diagonals through (row, col): the main one only when row == col, the anti one only
   * when row + col == size - 1. A cell on neither diagonal never wins this way.
   */
  function CheckDiagonals(g: Grid, row: int, col: int, s: char): (r: bool)
    requires IsSquare(g)
    ensures r ==> row == col || row + col == |g| - 1
    ensures row == col && CheckMainDiagonal(g, s) ==> r
    ensures row + col == |g| - 1 && CheckAntiDiagonal(g, s) ==> r
    ensures r ==> CheckMainDiagonal(g, s) || CheckAntiDiagonal(g, s)
    ensures r && row != col ==> CheckAntiDiagonal(g, s)
    ensures r && row + col != |g| - 1 ==> CheckMainDiagonal(g, s)
  {
    (row == col && CheckMainDiagonal(g, s)) || (row + col == |g| - 1 && CheckAntiDiagonal(g, s))
  }

  /** Does the last move complete a line through its own cell? No move: no winner. */
  function CheckWinner(g: Grid, lastMove: Option<Move>): (r: bool)
    requires IsSquare(g)
    requires lastMove.Some? ==> InBounds(g, lastMove.value.row, lastMove.value.col)
    ensures lastMove.None? ==> !r
    ensures r ==> HasLine(g, lastMove.value.symbol)
    ensures lastMove.Some? && CheckRow(g, lastMove.value.row, lastMove.value.symbol) ==> r
    ensures lastMove.Some? && CheckColumn(g, lastMove.value.col, lastMove.value.symbol) ==> r
    ensures lastMove.Some? && lastMove.value.row == lastMove.value.col && CheckMainDiagonal(g, lastMove.value.symbol) ==> r
    ensures (lastMove.Some? && lastMove.value.row + lastMove.value.col == |g| - 1
             && CheckAntiDiagonal(g, lastMove.value.symbol)) ==> r
    ensures lastMove.Some? && !r ==>
      && !CheckRow(g, lastMove.value.row, lastMove.value.symbol)
      && !CheckColumn(g, lastMove.value.col, lastMove.value.symbol)
      && !CheckDiagonals(g, lastMove.value.row, lastMove.value.col, lastMove.value.symbol)
  {
    match lastMove
    case None => false
    case Some(m) =>
      CheckRow(g, m.row, m.symbol) || CheckColumn(g, m.col, m.symbol) || CheckDiagonals(g, m.row, m.col, m.symbol)
  }

  /** Somewhere on the grid a whole row, column or diagonal holds `s` (a global scan, for reference). */
  predicate HasLine(g: Grid, s: char)
    requires IsSquare(g)
  {
    || (exists row :: 0 <= row < |g| && CheckRow(g, row, s))
    || (exists col :: 0 <= col < |g| && CheckColumn(g, col, s))
    || (|g| > 0 && CheckMainDiagonal(g, s))
    || (|g| > 0 && CheckAntiDiagonal(g, s))
  }

  /**
   * Scanning only the lines through the last move is enough: if `s` had no complete
   * line before the move at (row, col), it has one afterwards exactly when CheckWinner says so.
   */
  lemma CheckWinnerIsLocal(g: Grid, row: int, col: int, s: char)
    requires IsSquare(g) && InBounds(g, row, col)
    requires !HasLine(g, s)
    ensures CheckWinner(Place(g, row, col, s), Some(Move(s, row, col))) <==> HasLine(Place(g, row, col, s), s)
  {
    var g' := Place(g, row, col, s);
    var n := |g|;
    if HasLine(g', s) {
      if r :| 0 <= r < n && CheckRow(g', r, s) {
        assert r == row by {
          if r != row {
            forall c | 0 <= c < n ensures g[r][c] == Some(s) { assert g'[r][c] == g[r][c]; }
            assert CheckRow(g, r, s);
          }
        }
      } else if c :| 0 <= c < n && CheckColumn(g', c, s) {
        if c != col {
          ColumnUntouched(g, row, col, s, c);
          assert false;
        }
      } else if n > 0 && CheckMainDiagonal(g', s) {
        assert row == col;
      } else {
        if row + col != n - 1 {
          AntiDiagonalUntouched(g, row, col, s);
          assert false;
        }
      }
    }
  }

  lemma ColumnUntouched(g: Grid, row: int, col: int, s: char, c: int)
    requires IsSquare(g) && InBounds(g, row, col) && 0 <= c < |g| && c != col
    requires CheckColumn(Place(g, row, col, s), c, s)
    ensures CheckColumn(g, c, s)
  {
    forall r | 0 <= r < |g| ensures g[r][c] == Some(s) {
      assert Place(g, row, col, s)[r][c] == g[r][c];
    }
  }

  lemma AntiDiagonalUntouched(g: Grid, row: int, col: int, s: char)
    requires IsSquare(g) && InBounds(g, row, col) && row + col != |g| - 1
    requires CheckAntiDiagonal(Place(g, row, col, s), s)
    ensures CheckAntiDiagonal(g, s)
  {
    var n := |g|;
    forall i | 0 <= i < n ensures g[i][n - 1 - i] == Some(s) {
      assert Place(g, row, col, s)[i][n - 1 - i] == g[i][n - 1 - i];
    }
  }

  /** A line through (row, col) that has a cell not holding `s` (empty or another symbol) cannot make the move win. */
  lemma BrokenLinesDoNotWin(g: Grid, m: Move, rowGap: int, colGap: int, mainGap: int, antiGap: int)
    requires IsSquare(g) && InBounds(g, m.row, m.col)
    requires 0 <= rowGap < |g| && g[m.row][rowGap] != Some(m.symbol)
    requires 0 <= colGap < |g| && g[colGap][m.col] != Some(m.symbol)
    requires m.row == m.col ==> 0 <= mainGap < |g| && g[mainGap][mainGap] != Some(m.symbol)
    requires m.row + m.col == |g| - 1 ==> 0 <= antiGap < |g| && g[antiGap][|g| - 1 - antiGap] != Some(m.symbol)
    ensures !CheckWinner(g, Some(m))
  {
  }
}
