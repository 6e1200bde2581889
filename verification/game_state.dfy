/** The state of one round: board, players in turn order, whose turn it is, status, winner, history. */
module GameStates {
  import opened Wrappers
  import opened Grids
  import opened Players
  import opened Boards

  datatype GameStatus = InProgress | Won | Draw

  /** The index of the next player in turn order, wrapping after the last. */
  function NextIndex(i: int, n: int): (r: int)
    requires 0 <= i < n
    ensures 0 <= r < n
    ensures r == if i == n - 1 then 0 else i + 1
  {
    (i + 1) % n
  }

  /** The index reached from `i` after `k` turn switches. */
  function Rotate(i: int, n: int, k: nat): (r: int)
    requires 0 <= i < n
    ensures 0 <= r < n
  {
    if k == 0 then i else NextIndex(Rotate(i, n, k - 1), n)
  }

  lemma {:induction false} RotateWithinRound(i: int, n: int, k: nat)
    requires 0 <= i < n && k <= n
    ensures Rotate(i, n, k) == if i + k < n then i + k else i + k - n
  {
    if k > 0 {
      RotateWithinRound(i, n, k - 1);
    }
  }

  /** After as many switches as there are players, the turn is back with the same player. */
  lemma FullRotationReturns(i: int, n: int)
    requires 0 <= i < n
    ensures Rotate(i, n, n) == i
  {
    RotateWithinRound(i, n, n);
  }

  class GameState {
    const board: Board
    const players: seq<Player>
    var status: GameStatus
    var currentPlayer: Player
    var winner: Option<Player>
    var moveHistory: seq<Move>
    var currentPlayerIndex: int

    /** The board is valid and the current player is the one at the current index. */
    ghost predicate Valid()
      reads this, board, board.cells, board.Repr
    {
      && board.Valid()
      && 0 <= currentPlayerIndex < |players|
      && currentPlayer == players[currentPlayerIndex]
    }

    /** A round starts in progress with the first player, no moves and no winner; the list is copied. */
    constructor (board: Board, players: seq<Player>)
      requires board.Valid() && |players| > 0
      ensures this.board == board && this.players == players
      ensures status == InProgress && currentPlayerIndex == 0 && currentPlayer == players[0]
      ensures moveHistory == [] && winner == None
      ensures Valid()
    {
      this.board := board;
      this.players := players;
      status := InProgress;
      currentPlayerIndex := 0;
      currentPlayer := players[0];
      moveHistory := [];
      winner := None;
    }

    method SetStatus(s: GameStatus)
      modifies this`status
      ensures status == s
    {
      status := s;
    }

    method SetWinner(w: Option<Player>)
      modifies this`winner
      ensures winner == w
    {
      winner := w;
    }

    /** Passes the turn to the next player in list order, wrapping around. */
    method SwitchPlayer()
      requires Valid()
      modifies this`currentPlayerIndex, this`currentPlayer
      ensures Valid()
      ensures currentPlayerIndex == NextIndex(old(currentPlayerIndex), |players|)
    {
      currentPlayerIndex := (currentPlayerIndex + 1) % |players|;
      currentPlayer := players[currentPlayerIndex];
    }

    /** Appends one move to the history. */
    method AddMove(move: Move)
      modifies this`moveHistory
      ensures moveHistory == old(moveHistory) + [move]
    {
      moveHistory := moveHistory + [move];
    }

    /** The round is over once it is won or drawn. */
    function IsGameOver(): (r: bool)
      reads this
      ensures r <==> status == Won || status == Draw
    {
      status != InProgress
    }

    /** The number of moves recorded. */
    function GetMoveCount(): (r: nat)
      reads this
      ensures r == |moveHistory|
    {
      |moveHistory|
    }
  }
}
