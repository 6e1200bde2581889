/** The human player's move check: a typed position must be on the board, then empty. */
module HumanPlayerStrategy {
  import opened Wrappers
  import opened Grids
  import opened Players
  import opened Boards

  datatype MoveError = OutOfBounds(row: int, col: int) | Occupied(row: int, col: int)

  /** Bounds first, then occupancy: an off-board position is never reported as occupied. */
  function ValidateMove(board: Board, row: int, col: int): (r: Outcome<MoveError>)
    requires board.Valid()
    reads board, board.cells, board.Repr
    ensures r == Fail(OutOfBounds(row, col)) <==> !InBounds(board.Grid(), row, col)
    ensures r == Fail(Occupied(row, col)) <==> InBounds(board.Grid(), row, col) && board.Grid()[row][col] != None
    ensures r.Pass? <==> InBounds(board.Grid(), row, col) && board.Grid()[row][col] == None
  {
    if !board.IsValidPosition(row, col) then Fail(OutOfBounds(row, col))
    else if !board.IsCellEmpty(row, col) then Fail(Occupied(row, col))
    else Pass
  }

  /** One input attempt: an accepted position becomes this player's move on that empty cell. */
  function AcceptMove(player: Player, board: Board, row: int, col: int): (r: Result<Move, MoveError>)
    requires board.Valid()
    reads board, board.cells, board.Repr
    ensures r.Success? <==> InBounds(board.Grid(), row, col) && board.Grid()[row][col] == None
    ensures r.Success? ==> r.value == Move(player.symbol, row, col)
    ensures r.Failure? ==> Fail(r.error) == ValidateMove(board, row, col)
  {
    match ValidateMove(board, row, col)
    case Fail(e) => Failure(e)
    case Pass =>
      var cell := board.GetCell(row, col);
      Success(Move(player.symbol, cell.value.row, cell.value.col))
  }
}
