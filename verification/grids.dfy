/**
 * The value view of a board: a square grid of marks, positions and moves,
 * and the row-major enumeration and counting of cells that the board and
 * the computer player rely on.
 */
module Grids {
  import opened Wrappers

  /** What a cell shows: None when it is empty, Some(symbol) when it is filled. */
  type Mark = Option<char>

  /** The marks of a board, indexed [row][col]. */
  type Grid = seq<seq<Mark>>

  /** A board position (the Java code passes the Cell object at that position). */
  datatype Pos = Pos(row: int, col: int)

  /** A move: the mover's symbol and the target position. */
  datatype Move = Move(symbol: char, row: int, col: int)

  predicate IsSquare(g: Grid) {
    forall i :: 0 <= i < |g| ==> |g[i]| == |g|
  }

  predicate InBounds(g: Grid, row: int, col: int) {
    0 <= row < |g| && 0 <= col < |g|
  }

  /** Strict row-major order on positions. */
  predicate Before(p: Pos, q: Pos) {
    p.row < q.row || (p.row == q.row && p.col < q.col)
  }

  /** The grid in which every cell is empty. */
  function EmptyGrid(n: nat): (g: Grid)
    ensures IsSquare(g) && |g| == n
    ensures forall i, j :: InBounds(g, i, j) ==> g[i][j] == None
  {
    seq(n, _ => seq(n, _ => None))
  }

  /** The grid after `s` is written into (row, col); nothing else changes. */
  function Place(g: Grid, row: int, col: int, s: char): (g': Grid)
    requires IsSquare(g) && InBounds(g, row, col)
    ensures IsSquare(g') && |g'| == |g|
    ensures g'[row][col] == Some(s)
    ensures forall i, j :: InBounds(g, i, j) && (i != row || j != col) ==> g'[i][j] == g[i][j]
  {
    g[row := g[row][col := Some(s)]]
  }

  /** Two square grids of one size that agree cell by cell are equal. */
  lemma GridExtensionality(g: Grid, h: Grid)
    requires IsSquare(g) && IsSquare(h) && |g| == |h|
    requires forall i, j :: InBounds(g, i, j) ==> g[i][j] == h[i][j]
    ensures g == h
  {
    forall i | 0 <= i < |g|
      ensures g[i] == h[i]
    {
      assert forall j :: 0 <= j < |g| ==> g[i][j] == h[i][j];
    }
  }

  // ---------------------------------------------------------------------
  // Counting filled cells

  /** Number of filled cells among columns [0, j) of row i. */
  function FilledInRow(g: Grid, i: int, j: int): int
    requires IsSquare(g) && 0 <= i < |g| && 0 <= j <= |g|
  {
    if j == 0 then 0 else FilledInRow(g, i, j - 1) + (if g[i][j - 1].Some? then 1 else 0)
  }

  /** Number of filled cells in rows [0, i). */
  function FilledInRows(g: Grid, i: int): int
    requires IsSquare(g) && 0 <= i <= |g|
  {
    if i == 0 then 0 else FilledInRows(g, i - 1) + FilledInRow(g, i - 1, |g|)
  }

  /** Number of filled cells of the grid. */
  function CountFilled(g: Grid): int
    requires IsSquare(g)
  {
    FilledInRows(g, |g|)
  }

  // ---------------------------------------------------------------------
  // Enumerating empty cells in row-major order

  /** Empty positions among columns [0, j) of row i, left to right. */
  function EmptyInRow(g: Grid, i: int, j: int): seq<Pos>
    requires IsSquare(g) && 0 <= i < |g| && 0 <= j <= |g|
  {
    if j == 0 then [] else EmptyInRow(g, i, j - 1) + (if g[i][j - 1].None? then [Pos(i, j - 1)] else [])
  }

  /** Empty positions in rows [0, i), in row-major order. */
  function EmptyInRows(g: Grid, i: int): seq<Pos>
    requires IsSquare(g) && 0 <= i <= |g|
  {
    if i == 0 then [] else EmptyInRows(g, i - 1) + EmptyInRow(g, i - 1, |g|)
  }

  /** All empty positions of the grid, in row-major order. */
  function EmptyCells(g: Grid): seq<Pos>
    requires IsSquare(g)
  {
    EmptyInRows(g, |g|)
  }

  /** The cell at (row, col) is on the board and empty. */
  predicate EmptyAt(g: Grid, row: int, col: int)
    requires IsSquare(g)
  {
    InBounds(g, row, col) && g[row][col] == None
  }

  lemma {:induction false} EmptyInRowListsEveryEmpty(g: Grid, i: int, j: int, p: Pos)
    requires IsSquare(g) && 0 <= i < |g| && 0 <= j <= |g|
    requires p.row == i && p.col < j && EmptyAt(g, p.row, p.col)
    ensures p in EmptyInRow(g, i, j)
  {
    if p.col < j - 1 {
      EmptyInRowListsEveryEmpty(g, i, j - 1, p);
    }
  }

  /** The empty cells of rows [0, i) are listed before those of any later row. */
  lemma {:induction false} EmptyInRowsPrefix(g: Grid, i: int, k: int)
    requires IsSquare(g) && 0 <= i <= k <= |g|
    ensures EmptyInRows(g, i) <= EmptyInRows(g, k)
  {
    if i < k {
      EmptyInRowsPrefix(g, i, k - 1);
    }
  }

  /** An empty cell listed for row i - 1 is listed among rows [0, i). */
  lemma LastRowIsListed(g: Grid, i: int, p: Pos)
    requires IsSquare(g) && 0 < i <= |g| && p in EmptyInRow(g, i - 1, |g|)
    ensures p in EmptyInRows(g, i)
  {
  }

  /** Every empty cell of the grid is listed. */
  lemma EmptyCellIsListed(g: Grid, p: Pos)
    requires IsSquare(g) && EmptyAt(g, p.row, p.col)
    ensures p in EmptyCells(g)
  {
    EmptyInRowListsEveryEmpty(g, p.row, |g|, p);
    LastRowIsListed(g, p.row + 1, p);
    EmptyInRowsPrefix(g, p.row + 1, |g|);
  }

  /** One position is listed by getEmptyCells iff its cell is on the board and empty. */
  lemma EmptyCellsHas(g: Grid, p: Pos)
    requires IsSquare(g)
    ensures p in EmptyCells(g) <==> EmptyAt(g, p.row, p.col)
  {
    if p in EmptyCells(g) {
      EmptyInRowsSorted(g, |g|);
    }
    if EmptyAt(g, p.row, p.col) {
      EmptyCellIsListed(g, p);
    }
  }

  /** getEmptyCells lists a position iff it is on the board and its cell is empty. */
  lemma EmptyCellsMembership(g: Grid)
    requires IsSquare(g)
    ensures forall p :: p in EmptyCells(g) <==> InBounds(g, p.row, p.col) && g[p.row][p.col] == None
  {
    forall p ensures p in EmptyCells(g) <==> InBounds(g, p.row, p.col) && g[p.row][p.col] == None {
      EmptyCellsHas(g, p);
    }
  }

  lemma {:induction false} EmptyInRowSorted(g: Grid, i: int, j: int)
    requires IsSquare(g) && 0 <= i < |g| && 0 <= j <= |g|
    ensures forall a :: 0 <= a < |EmptyInRow(g, i, j)| ==>
      EmptyInRow(g, i, j)[a].row == i && 0 <= EmptyInRow(g, i, j)[a].col < j && g[i][EmptyInRow(g, i, j)[a].col] == None
    ensures forall a, b :: 0 <= a < b < |EmptyInRow(g, i, j)| ==> Before(EmptyInRow(g, i, j)[a], EmptyInRow(g, i, j)[b])
  {
    if j > 0 {
      EmptyInRowSorted(g, i, j - 1);
    }
  }

  lemma {:induction false} EmptyInRowsSorted(g: Grid, i: int)
    requires IsSquare(g) && 0 <= i <= |g|
    ensures forall a :: 0 <= a < |EmptyInRows(g, i)| ==>
      0 <= EmptyInRows(g, i)[a].row < i && EmptyAt(g, EmptyInRows(g, i)[a].row, EmptyInRows(g, i)[a].col)
    ensures forall a, b :: 0 <= a < b < |EmptyInRows(g, i)| ==> Before(EmptyInRows(g, i)[a], EmptyInRows(g, i)[b])
  {
    if i > 0 {
      EmptyInRowsSorted(g, i - 1);
      EmptyInRowSorted(g, i - 1, |g|);
    }
  }

  /** getEmptyCells is strictly increasing in row-major order, so no position appears twice. */
  lemma EmptyCellsRowMajor(g: Grid)
    requires IsSquare(g)
    ensures forall a, b :: 0 <= a < b < |EmptyCells(g)| ==> Before(EmptyCells(g)[a], EmptyCells(g)[b])
    ensures forall a, b :: 0 <= a < b < |EmptyCells(g)| ==> EmptyCells(g)[a] != EmptyCells(g)[b]
  {
    EmptyInRowsSorted(g, |g|);
  }

  lemma {:induction false} RowPartition(g: Grid, i: int, j: int)
    requires IsSquare(g) && 0 <= i < |g| && 0 <= j <= |g|
    ensures |EmptyInRow(g, i, j)| + FilledInRow(g, i, j) == j
  {
    if j > 0 {
      RowPartition(g, i, j - 1);
    }
  }

  /** i rows of n cells, counted row by row. */
  function Area(i: int, n: int): int
    requires i >= 0
  {
    if i == 0 then 0 else Area(i - 1, n) + n
  }

  lemma {:induction false} AreaIsProduct(i: int, n: int)
    requires i >= 0
    ensures Area(i, n) == i * n
  {
    if i > 0 {
      AreaIsProduct(i - 1, n);
      assert i * n == (i - 1) * n + n;
    }
  }

  lemma {:induction false} RowsPartition(g: Grid, i: int)
    requires IsSquare(g) && 0 <= i <= |g|
    ensures |EmptyInRows(g, i)| + FilledInRows(g, i) == Area(i, |g|)
  {
    if i > 0 {
      RowsPartition(g, i - 1);
      RowPartition(g, i - 1, |g|);
    }
  }

  /** Every cell is either empty or filled: the two counts add up to size². */
  lemma EmptyCellsCount(g: Grid)
    requires IsSquare(g)
    ensures |EmptyCells(g)| + CountFilled(g) == |g| * |g|
  {
    RowsPartition(g, |g|);
    AreaIsProduct(|g|, |g|);
  }

  /** The grid has size² filled cells exactly when no cell is empty. */
  lemma FullIffNoEmptyCell(g: Grid)
    requires IsSquare(g)
    ensures CountFilled(g) == |g| * |g| <==> EmptyCells(g) == []
  {
    EmptyCellsCount(g);
  }

  lemma {:induction false} PlaceInRow(g: Grid, row: int, col: int, s: char, i: int, j: int)
    requires IsSquare(g) && InBounds(g, row, col) && 0 <= i < |g| && 0 <= j <= |g|
    ensures FilledInRow(Place(g, row, col, s), i, j)
         == FilledInRow(g, i, j) + (if i == row && col < j && g[row][col] == None then 1 else 0)
  {
    if j > 0 {
      PlaceInRow(g, row, col, s, i, j - 1);
    }
  }

  lemma {:induction false} PlaceInRows(g: Grid, row: int, col: int, s: char, i: int)
    requires IsSquare(g) && InBounds(g, row, col) && 0 <= i <= |g|
    ensures FilledInRows(Place(g, row, col, s), i)
         == FilledInRows(g, i) + (if row < i && g[row][col] == None then 1 else 0)
  {
    if i > 0 {
      PlaceInRows(g, row, col, s, i - 1);
      PlaceInRow(g, row, col, s, i - 1, |g|);
    }
  }

  /** Writing into an empty cell adds exactly one filled cell; writing over a filled one adds none. */
  lemma CountFilledPlace(g: Grid, row: int, col: int, s: char)
    requires IsSquare(g) && InBounds(g, row, col)
    ensures CountFilled(Place(g, row, col, s)) == CountFilled(g) + (if g[row][col] == None then 1 else 0)
  {
    PlaceInRows(g, row, col, s, |g|);
  }

  lemma {:induction false} EmptyGridRows(n: nat, i: int)
    requires 0 <= i <= n
    ensures FilledInRows(EmptyGrid(n), i) == 0
  {
    if i > 0 {
      EmptyGridRows(n, i - 1);
      EmptyGridRow(n, i - 1, n);
    }
  }

  lemma {:induction false} EmptyGridRow(n: nat, i: int, j: int)
    requires 0 <= i < n && 0 <= j <= n
    ensures FilledInRow(EmptyGrid(n), i, j) == 0
  {
    if j > 0 {
      EmptyGridRow(n, i, j - 1);
    }
  }

  /** A cleared grid has no filled cell and n² empty cells. */
  lemma EmptyGridCounts(n: nat)
    ensures CountFilled(EmptyGrid(n)) == 0
    ensures |EmptyCells(EmptyGrid(n))| == n * n
  {
    EmptyGridRows(n, n);
    EmptyCellsCount(EmptyGrid(n));
  }
}
