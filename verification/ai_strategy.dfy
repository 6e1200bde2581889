/**
 * The computer player's rule cascade: win now, else block, else the free centre,
 * else a free corner, else any free cell. Winning and blocking cells are found by
 * writing a symbol into each empty cell in turn, asking the win detector, and
 * emptying the cell again.
 */
module AIPlayerStrategy {
  import opened Wrappers
  import opened Grids
  import opened Players
  import opened Cells
  import opened Boards
  import DefaultWinningStrategy

  // ---------------------------------------------------------------------
  // Specification of the search

  /** Writing `s` into the free cell p would make that move a winning one. */
  predicate WinsAt(g: Grid, p: Pos, s: char)
    requires IsSquare(g)
  {
    && InBounds(g, p.row, p.col)
    && DefaultWinningStrategy.CheckWinner(Place(g, p.row, p.col, s), Some(Move(s, p.row, p.col)))
  }

  /** Some player of `players` would win by taking p. */
  predicate AnyWinsAt(g: Grid, p: Pos, players: seq<Player>)
    requires IsSquare(g)
  {
    exists k :: 0 <= k < |players| && WinsAt(g, p, players[k].symbol)
  }

  /** The first candidate at which one of `players` would win, in candidate order. */
  function FirstThreat(g: Grid, candidates: seq<Pos>, players: seq<Player>): Option<Pos>
    requires IsSquare(g)
  {
    if candidates == [] then None
    else if AnyWinsAt(g, candidates[0], players) then Some(candidates[0])
    else FirstThreat(g, candidates[1..], players)
  }

  /**
   * FirstThreat finds nothing exactly when no candidate is a threat; what it finds is a
   * threatening candidate with no threatening candidate before it.
   */
  lemma {:induction false} FirstThreatIsFirst(g: Grid, candidates: seq<Pos>, players: seq<Player>)
    requires IsSquare(g)
    ensures var r := FirstThreat(g, candidates, players);
      && (r.None? <==> forall k :: 0 <= k < |candidates| ==> !AnyWinsAt(g, candidates[k], players))
      && (r.Some? ==>
            exists k :: 0 <= k < |candidates| && candidates[k] == r.value && AnyWinsAt(g, r.value, players)
              && forall k' :: 0 <= k' < k ==> !AnyWinsAt(g, candidates[k'], players))
  {
    if candidates != [] && !AnyWinsAt(g, candidates[0], players) {
      var rest := candidates[1..];
      FirstThreatIsFirst(g, rest, players);
      assert forall k :: 1 <= k < |candidates| ==> candidates[k] == rest[k - 1];
      var r := FirstThreat(g, rest, players);
      if r.Some? {
        var k :| 0 <= k < |rest| && rest[k] == r.value && AnyWinsAt(g, r.value, players)
          && forall k' :: 0 <= k' < k ==> !AnyWinsAt(g, rest[k'], players);
        assert candidates[k + 1] == r.value;
      }
    }
  }

  /** With a single player, "some player wins at p" is "that player wins at p". */
  lemma AnyWinsAtSingle(g: Grid, p: Pos, player: Player)
    requires IsSquare(g)
    ensures AnyWinsAt(g, p, [player]) <==> WinsAt(g, p, player.symbol)
  {
    if WinsAt(g, p, player.symbol) {
      assert [player][0] == player;
    }
  }

  /** Some player among the first m + 1 wins at p iff one among the first m does or player m does. */
  lemma AnyWinsAtPrefix(g: Grid, p: Pos, players: seq<Player>, m: int)
    requires IsSquare(g) && 0 <= m < |players|
    ensures AnyWinsAt(g, p, players[..m + 1]) <==> AnyWinsAt(g, p, players[..m]) || WinsAt(g, p, players[m].symbol)
    ensures WinsAt(g, p, players[m].symbol) ==> AnyWinsAt(g, p, players)
  {
    var pre, ext := players[..m], players[..m + 1];
    if AnyWinsAt(g, p, ext) {
      var k :| 0 <= k < |ext| && WinsAt(g, p, ext[k].symbol);
      if k < m {
        assert pre[k] == ext[k];
      }
    }
    if AnyWinsAt(g, p, pre) {
      var k :| 0 <= k < |pre| && WinsAt(g, p, pre[k].symbol);
      assert ext[k] == pre[k];
    }
    if WinsAt(g, p, players[m].symbol) {
      assert ext[m] == players[m];
    }
  }

  /** In a strictly row-major sequence, index order is position order. */
  lemma RowMajorIndexOrder(s: seq<Pos>, a: int, b: int)
    requires forall i, j :: 0 <= i < j < |s| ==> Before(s[i], s[j])
    requires 0 <= a < |s| && 0 <= b < |s| && Before(s[a], s[b])
    ensures a < b
  {
  }

  /**
   * Searching the empty cells in the order getEmptyCells lists them finds the
   * row-major first empty cell where `s` wins; no empty cell before it wins, and
   * when nothing is found no empty cell wins at all.
   */
  lemma FirstWinIsRowMajorFirst(g: Grid, player: Player)
    requires IsSquare(g)
    ensures var r := FirstThreat(g, EmptyCells(g), [player]);
      && (r.Some? ==>
            && EmptyAt(g, r.value.row, r.value.col)
            && WinsAt(g, r.value, player.symbol)
            && forall e: Pos :: EmptyAt(g, e.row, e.col) && Before(e, r.value) ==> !WinsAt(g, e, player.symbol))
      && (r.None? ==>
            forall e: Pos :: EmptyAt(g, e.row, e.col) ==> !WinsAt(g, e, player.symbol))
  {
    var empties := EmptyCells(g);
    var r := FirstThreat(g, empties, [player]);
    FirstThreatIsFirst(g, empties, [player]);
    EmptyCellsMembership(g);
    EmptyCellsRowMajor(g);
    if r.Some? {
      var k :| 0 <= k < |empties| && empties[k] == r.value && AnyWinsAt(g, r.value, [player])
        && forall k' :: 0 <= k' < k ==> !AnyWinsAt(g, empties[k'], [player]);
      AnyWinsAtSingle(g, r.value, player);
      forall e: Pos | EmptyAt(g, e.row, e.col) && Before(e, r.value)
        ensures !WinsAt(g, e, player.symbol)
      {
        var k' :| 0 <= k' < |empties| && empties[k'] == e;
        RowMajorIndexOrder(empties, k', k);
        AnyWinsAtSingle(g, e, player);
      }
    } else {
      forall e: Pos | EmptyAt(g, e.row, e.col)
        ensures !WinsAt(g, e, player.symbol)
      {
        var k' :| 0 <= k' < |empties| && empties[k'] == e;
        AnyWinsAtSingle(g, e, player);
      }
    }
  }

  /**
   * Given a list of opponents, the blocking search finds a cell exactly when some
   * empty cell would let one of them win, and the cell it finds is such a cell.
   */
  lemma BlockFindsThreat(g: Grid, opponents: seq<Player>)
    requires IsSquare(g)
    ensures var r := FirstThreat(g, EmptyCells(g), opponents);
      && (r.Some? <==> exists e: Pos :: EmptyAt(g, e.row, e.col) && AnyWinsAt(g, e, opponents))
      && (r.Some? ==> EmptyAt(g, r.value.row, r.value.col) && AnyWinsAt(g, r.value, opponents))
  {
    var empties := EmptyCells(g);
    var r := FirstThreat(g, empties, opponents);
    FirstThreatIsFirst(g, empties, opponents);
    if r.Some? {
      EmptyCellsHas(g, r.value);
    } else {
      forall e: Pos | EmptyAt(g, e.row, e.col)
        ensures !AnyWinsAt(g, e, opponents)
      {
        EmptyCellsHas(g, e);
        var k :| 0 <= k < |empties| && empties[k] == e;
      }
    }
  }

  /** The four extreme corners, in the order the program lists them; every corner is among them. */
  function Corners(n: int): (r: seq<Pos>)
    ensures |r| == 4
    ensures n >= 1 ==> forall k :: 0 <= k < |r| ==> 0 <= r[k].row < n && 0 <= r[k].col < n
    ensures forall p :: p in r ==> (p.row == 0 || p.row == n - 1) && (p.col == 0 || p.col == n - 1)
    ensures forall p: Pos :: (p.row == 0 || p.row == n - 1) && (p.col == 0 || p.col == n - 1) ==> p in r
  {
    [Pos(0, 0), Pos(0, n - 1), Pos(n - 1, 0), Pos(n - 1, n - 1)]
  }

  /** The corners of the grid that are still free. */
  ghost function FreeCorners(g: Grid): (r: set<Pos>)
    requires IsSquare(g)
  {
    set c | c in Corners(|g|) && EmptyAt(g, c.row, c.col)
  }

  /** The centre exists only on odd sizes, and lies on both diagonals. */
  function GetCenterCell(size: int): (r: Option<Pos>)
    requires size >= 0
    ensures r.Some? <==> size % 2 == 1
    ensures r.Some? ==>
      && 0 <= r.value.row < size && r.value.row == r.value.col
      && r.value.row + r.value.col == size - 1
  {
    if size % 2 == 1 then Some(Pos(size / 2, size / 2)) else None
  }

  /** The opponents the blocking rule considers: none, as the program has it. */
  function GetOpponents(current: Player, board: Board): (r: seq<Player>)
    ensures |r| == 0
  {
    []
  }

  /**
   * The cells the cascade may return: the first winning cell; else the first blocking
   * cell; else the centre if it is free; else any free corner; else any free cell.
   */
  ghost function BestMoveChoices(g: Grid, player: Player, opponents: seq<Player>): set<Pos>
    requires IsSquare(g) && |g| >= 1
  {
    var empties := EmptyCells(g);
    var win := FirstThreat(g, empties, [player]);
    var block := FirstThreat(g, empties, opponents);
    var centre := GetCenterCell(|g|);
    if win.Some? then {win.value}
    else if block.Some? then {block.value}
    else if centre.Some? && g[centre.value.row][centre.value.col] == None then {centre.value}
    else if FreeCorners(g) != {} then FreeCorners(g)
    else set p | p in empties
  }

  /** Every cell the cascade may return is a free cell, and it returns one whenever a cell is free. */
  lemma BestMoveIsFreeCell(g: Grid, player: Player, opponents: seq<Player>)
    requires IsSquare(g) && |g| >= 1
    ensures forall p :: p in BestMoveChoices(g, player, opponents) ==> EmptyAt(g, p.row, p.col)
    ensures BestMoveChoices(g, player, opponents) != {} <==> EmptyCells(g) != []
  {
    var empties := EmptyCells(g);
    EmptyCellsMembership(g);
    var win := FirstThreat(g, empties, [player]);
    var block := FirstThreat(g, empties, opponents);
    FirstThreatIsFirst(g, empties, [player]);
    FirstThreatIsFirst(g, empties, opponents);
    var centre := GetCenterCell(|g|);
    var corners := FreeCorners(g);
    var choices := BestMoveChoices(g, player, opponents);
    if win.Some? {
      assert win.value in empties;
    } else if block.Some? {
      assert block.value in empties;
    } else if centre.Some? && g[centre.value.row][centre.value.col] == None {
      assert choices == {centre.value};
      assert centre.value in empties;
    } else if corners != {} {
      var c :| c in corners;
      assert c in empties;
    } else {
      assert choices == set p | p in empties;
      if empties != [] {
        assert empties[0] in choices;
      }
    }
  }

  // ---------------------------------------------------------------------
  // The search on the board itself

  /**
   * Writes `s` into the empty cell p, asks the win detector, and empties the cell
   * again: the board ends as it began, and the answer is WinsAt.
   */
  method Probe(board: Board, p: Pos, s: char) returns (wins: bool)
    requires board.Valid() && board.IsValidPosition(p.row, p.col)
    requires board.Grid()[p.row][p.col] == None
    modifies board.cells[p.row, p.col]
    ensures board.Valid() && board.Grid() == old(board.Grid())
    ensures wins == WinsAt(old(board.Grid()), p, s)
  {
    ghost var g := board.Grid();
    var cell := board.cells[p.row, p.col];
    cell.SetSymbol(s);
    GridExtensionality(board.Grid(), Place(g, p.row, p.col, s));
    assert board.Grid() == Place(g, p.row, p.col, s);
    wins := DefaultWinningStrategy.CheckWinner(board.Grid(), Some(Move(s, p.row, p.col)));
    assert wins == WinsAt(g, p, s);
    cell.Reset();
    GridExtensionality(board.Grid(), g);
  }

  /** The first empty cell, in row-major order, where the player would win at once. */
  method FindWinningMove(player: Player, board: Board) returns (r: Option<Pos>)
    requires board.Valid()
    modifies board.Repr
    ensures board.Valid() && board.Grid() == old(board.Grid())
    ensures r == FirstThreat(old(board.Grid()), EmptyCells(old(board.Grid())), [player])
  {
    ghost var g := board.Grid();
    var empties := board.GetEmptyCells();
    for k := 0 to |empties|
      invariant board.Valid() && board.Grid() == g
      invariant FirstThreat(g, empties, [player]) == FirstThreat(g, empties[k..], [player])
    {
      var p := empties[k];
      EmptyCellsHas(g, p);
      assert board.cells[p.row, p.col] in board.Repr;
      var wins := Probe(board, p, player.symbol);
      AnyWinsAtSingle(g, p, player);
      if wins {
        assert empties[k..][0] == p;
        return Some(p);
      }
      assert empties[k..][1..] == empties[k + 1..];
    }
    return None;
  }

  /** The first empty cell, in row-major order, where some opponent would win next. */
  method FindBlockingMove(player: Player, board: Board, opponents: seq<Player>) returns (r: Option<Pos>)
    requires board.Valid()
    modifies board.Repr
    ensures board.Valid() && board.Grid() == old(board.Grid())
    ensures r == FirstThreat(old(board.Grid()), EmptyCells(old(board.Grid())), opponents)
    ensures opponents == [] ==> r == None
  {
    ghost var g := board.Grid();
    var empties := board.GetEmptyCells();
    for k := 0 to |empties|
      invariant board.Valid() && board.Grid() == g
      invariant FirstThreat(g, empties, opponents) == FirstThreat(g, empties[k..], opponents)
    {
      var p := empties[k];
      EmptyCellsHas(g, p);
      assert board.cells[p.row, p.col] in board.Repr;
      for m := 0 to |opponents|
        invariant board.Valid() && board.Grid() == g
        invariant !AnyWinsAt(g, p, opponents[..m])
      {
        var wins := Probe(board, p, opponents[m].symbol);
        AnyWinsAtPrefix(g, p, opponents, m);
        if wins {
          assert empties[k..][0] == p;
          return Some(p);
        }
      }
      assert opponents[..|opponents|] == opponents;
      assert empties[k..][1..] == empties[k + 1..];
    }
    return None;
  }

  /** Some empty corner, chosen freely among the empty ones; None when all four are taken. */
  method GetRandomCorner(board: Board) returns (r: Option<Pos>)
    requires board.Valid() && board.size >= 1
    ensures board.Valid() && board.Grid() == old(board.Grid())
    ensures r.None? <==> FreeCorners(board.Grid()) == {}
    ensures r.Some? ==> r.value in FreeCorners(board.Grid())
  {
    ghost var g := board.Grid();
    var corners := Corners(board.size);
    var emptyCorners := [];
    for k := 0 to |corners|
      invariant forall p :: p in emptyCorners <==> p in corners[..k] && EmptyAt(g, p.row, p.col)
    {
      var p := corners[k];
      var cell := board.GetCell(p.row, p.col);
      assert cell.value.IsEmpty() <==> EmptyAt(g, p.row, p.col);
      if cell.value.IsEmpty() {
        emptyCorners := emptyCorners + [p];
      }
      assert corners[..k + 1] == corners[..k] + [p];
    }
    assert corners[..|corners|] == corners;
    if emptyCorners != [] {
      var i :| 0 <= i < |emptyCorners|;
      assert emptyCorners[i] in emptyCorners;
      assert emptyCorners[i] in FreeCorners(g);
      return Some(emptyCorners[i]);
    }
    return None;
  }

  /** Some empty cell, chosen freely; None when the board has none. */
  method GetRandomEmptyCell(board: Board) returns (r: Option<Pos>)
    requires board.Valid()
    ensures board.Valid() && board.Grid() == old(board.Grid())
    ensures r.None? <==> EmptyCells(board.Grid()) == []
    ensures r.Some? ==> r.value in EmptyCells(board.Grid())
  {
    var empties := board.GetEmptyCells();
    if empties != [] {
      var i :| 0 <= i < |empties|;
      return Some(empties[i]);
    }
    return None;
  }

  /** The rule cascade; it leaves the board as it found it. */
  method FindBestMove(player: Player, board: Board) returns (r: Option<Pos>)
    requires board.Valid() && board.size >= 1
    modifies board.Repr
    ensures board.Valid() && board.Grid() == old(board.Grid())
    ensures r.Some? <==> EmptyCells(old(board.Grid())) != []
    ensures r.Some? ==> r.value in BestMoveChoices(old(board.Grid()), player, GetOpponents(player, board))
  {
    ghost var g := board.Grid();
    BestMoveIsFreeCell(g, player, GetOpponents(player, board));
    r := FindWinningMove(player, board);
    if r.Some? {
      return;
    }
    r := FindBlockingMove(player, board, GetOpponents(player, board));
    if r.Some? {
      return;
    }
    var centre := GetCenterCell(board.size);
    if centre.Some? {
      var cell := board.GetCell(centre.value.row, centre.value.col);
      if cell.value.IsEmpty() {
        return centre;
      }
    }
    r := GetRandomCorner(board);
    if r.Some? {
      return;
    }
    r := GetRandomEmptyCell(board);
  }

  /** The computer's move: its own symbol on the cell the cascade picked, which is free. */
  method MakeMove(player: Player, board: Board) returns (m: Move)
    requires board.Valid() && board.size >= 1
    requires EmptyCells(board.Grid()) != []
    modifies board.Repr
    ensures board.Valid() && board.Grid() == old(board.Grid())
    ensures m.symbol == player.symbol
    ensures Pos(m.row, m.col) in BestMoveChoices(old(board.Grid()), player, GetOpponents(player, board))
    ensures InBounds(board.Grid(), m.row, m.col) && board.Grid()[m.row][m.col] == None
  {
    ghost var g := board.Grid();
    BestMoveIsFreeCell(g, player, GetOpponents(player, board));
    var best := FindBestMove(player, board);
    m := Move(player.symbol, best.value.row, best.value.col);
  }
}
