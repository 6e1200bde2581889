/** Game orchestration: starting a round, applying a move, updating the status, playing a turn, resetting. */
module GameService {
  import opened Wrappers
  import opened Grids
  import opened Players
  import opened Boards
  import opened GameStates
  import DefaultWinningStrategy

  datatype GameError = InsufficientPlayers | DuplicateSymbol(symbol: char)

  /** No two players share a symbol (equivalently, no two players are `equals`). */
  predicate DistinctSymbols(players: seq<Player>) {
    forall i, j :: 0 <= i < j < |players| ==> players[i].symbol != players[j].symbol
  }

  /**
   * At least two players, then a scan that remembers the symbols seen so far and
   * reports the first player whose symbol was already taken.
   */
  method ValidatePlayers(players: seq<Player>) returns (r: Outcome<GameError>)
    ensures r.Pass? <==> |players| >= 2 && DistinctSymbols(players)
    ensures r == Fail(InsufficientPlayers) <==> |players| < 2
    ensures r.Fail? && r.error.DuplicateSymbol? ==>
      exists j :: 0 < j < |players| && players[j].symbol == r.error.symbol
        && DistinctSymbols(players[..j])
        && exists i :: 0 <= i < j && players[i].symbol == players[j].symbol
  {
    if |players| < 2 {
      return Fail(InsufficientPlayers);
    }
    var symbols: set<char> := {};
    for k := 0 to |players|
      invariant symbols == set i | 0 <= i < k :: players[i].symbol
      invariant DistinctSymbols(players[..k])
    {
      if players[k].symbol in symbols {
        assert players[..k + 1][..k] == players[..k];
        return Fail(DuplicateSymbol(players[k].symbol));
      }
      symbols := symbols + {players[k].symbol};
    }
    assert players[..|players|] == players;
    return Pass;
  }

  /** A round is created only for at least two players with pairwise distinct symbols. */
  method InitializeGame(board: Board, players: seq<Player>) returns (r: Result<GameState, GameError>)
    requires board.Valid()
    ensures r.Success? <==> |players| >= 2 && DistinctSymbols(players)
    ensures r.Failure? ==> (r.error == InsufficientPlayers <==> |players| < 2)
    ensures r.Success? ==>
      && fresh(r.value) && r.value.Valid()
      && r.value.board == board && r.value.players == players
      && r.value.status == InProgress && r.value.currentPlayerIndex == 0
      && r.value.moveHistory == [] && r.value.winner == None
  {
    var check := ValidatePlayers(players);
    if check.Fail? {
      return Failure(check.error);
    }
    var state := new GameState(board, players);
    return Success(state);
  }

  /** Writes the move on the board and records it once in the history. */
  method ExecuteMove(gs: GameState, move: Move)
    requires gs.Valid() && gs.board.IsValidPosition(move.row, move.col)
    modifies gs`moveHistory, gs.board`filledCells, gs.board.cells[move.row, move.col]
    ensures gs.Valid()
    ensures gs.board.Grid() == Place(old(gs.board.Grid()), move.row, move.col, move.symbol)
    ensures gs.board.filledCells == old(gs.board.filledCells) + 1
    ensures gs.moveHistory == old(gs.moveHistory) + [move]
    ensures old(gs.board.Consistent() && gs.board.Grid()[move.row][move.col] == None) ==> gs.board.Consistent()
  {
    gs.board.MakeMove(move);
    gs.AddMove(move);
  }

  /** A win makes the current player the winner; otherwise a full board is a draw; otherwise nothing changes. */
  method CheckGameStatus(gs: GameState, lastMove: Move)
    requires gs.Valid() && gs.board.IsValidPosition(lastMove.row, lastMove.col)
    modifies gs`status, gs`winner
    ensures gs.Valid() && gs.board.Grid() == old(gs.board.Grid()) && gs.board.IsFull() == old(gs.board.IsFull())
    ensures var won := DefaultWinningStrategy.CheckWinner(old(gs.board.Grid()), Some(lastMove));
      && (won ==> gs.status == Won && gs.winner == Some(gs.currentPlayer))
      && (!won && old(gs.board.IsFull()) ==> gs.status == Draw && gs.winner == old(gs.winner))
      && (!won && !old(gs.board.IsFull()) ==> gs.status == old(gs.status) && gs.winner == old(gs.winner))
  {
    var won := DefaultWinningStrategy.CheckWinner(gs.board.Grid(), Some(lastMove));
    var full := gs.board.IsFull();
    if won {
      gs.SetStatus(Won);
      gs.SetWinner(Some(gs.currentPlayer));
    } else if full {
      gs.SetStatus(Draw);
    }
  }

  /**
   * One turn: the current player's strategy has chosen `chosen`; the move is applied,
   * the status updated, and the turn passes on only if the round is still in progress.
   */
  method PlayTurn(gs: GameState, chosen: Pos)
    requires gs.Valid() && gs.board.IsValidPosition(chosen.row, chosen.col)
    modifies gs`moveHistory, gs`status, gs`winner, gs`currentPlayerIndex, gs`currentPlayer
    modifies gs.board`filledCells, gs.board.cells[chosen.row, chosen.col]
    ensures gs.Valid()
    ensures gs.board.Grid() == Place(old(gs.board.Grid()), chosen.row, chosen.col, old(gs.currentPlayer).symbol)
    ensures gs.board.filledCells == old(gs.board.filledCells) + 1
    ensures gs.moveHistory == old(gs.moveHistory) + [Move(old(gs.currentPlayer).symbol, chosen.row, chosen.col)]
    ensures old(gs.board.Consistent() && gs.board.Grid()[chosen.row][chosen.col] == None) ==> gs.board.Consistent()
    ensures var won := DefaultWinningStrategy.CheckWinner(gs.board.Grid(), Some(gs.moveHistory[|gs.moveHistory| - 1]));
      && (won ==> gs.status == Won && gs.winner == Some(old(gs.currentPlayer)) && gs.currentPlayer == old(gs.currentPlayer))
      && (!won && gs.board.IsFull() ==> gs.status == Draw && gs.winner == old(gs.winner))
      && (!won && !gs.board.IsFull() ==> gs.status == old(gs.status) && gs.winner == old(gs.winner))
    ensures gs.status == InProgress ==> gs.currentPlayerIndex == NextIndex(old(gs.currentPlayerIndex), |gs.players|)
    ensures gs.status != InProgress ==>
      gs.currentPlayerIndex == old(gs.currentPlayerIndex) && gs.currentPlayer == old(gs.currentPlayer)
  {
    var move := Move(gs.currentPlayer.symbol, chosen.row, chosen.col);
    ExecuteMove(gs, move);
    CheckGameStatus(gs, move);
    if !gs.IsGameOver() {
      gs.SwitchPlayer();
    }
  }

  /**
   * Starts a new round on the same players: the board is emptied, the status is back
   * in progress and the winner cleared; the move history and whose turn it is are kept.
   */
  method ResetGame(gs: GameState)
    requires gs.Valid()
    modifies gs`status, gs`winner, gs.board`filledCells, gs.board.Repr
    ensures gs.Valid()
    ensures gs.board.Grid() == EmptyGrid(gs.board.size) && gs.board.filledCells == 0 && gs.board.Consistent()
    ensures gs.status == InProgress && gs.winner == None
    ensures gs.moveHistory == old(gs.moveHistory)
    ensures gs.currentPlayerIndex == old(gs.currentPlayerIndex) && gs.currentPlayer == old(gs.currentPlayer)
  {
    gs.board.Reset();
    gs.SetStatus(InProgress);
    gs.SetWinner(None);
  }
}
