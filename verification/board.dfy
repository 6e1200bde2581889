/** The size×size board: a grid of Cell objects and a counter of filled cells. */
module Boards {
  import opened Wrappers
  import opened Grids
  import opened Cells

  class Board {
    const size: int
    const cells: array2<Cell?>
    var filledCells: int

    /** The cell objects of the grid. */
    ghost const Repr: set<Cell?>

    /** The grid is size×size, every slot holds a valid cell of Repr that knows its own (row, col). */
    ghost predicate Valid()
      reads this, cells, Repr
    {
      && cells.Length0 == size
      && cells.Length1 == size
      && forall i, j :: 0 <= i < size && 0 <= j < size ==>
           cells[i, j] != null && cells[i, j] in Repr && cells[i, j].At(i, j)
    }

    /** The marks of columns [0, j) of row i. */
    function RowMarks(i: int, j: int): (r: seq<Mark>)
      requires Valid() && 0 <= i < size && 0 <= j <= size
      reads this, cells, Repr
      ensures |r| == j
      ensures forall c :: 0 <= c < j ==> r[c] == cells[i, c].symbol
    {
      if j == 0 then [] else RowMarks(i, j - 1) + [cells[i, j - 1].symbol]
    }

    /** The marks of rows [0, i). */
    function GridRows(i: int): (r: seq<seq<Mark>>)
      requires Valid() && 0 <= i <= size
      reads this, cells, Repr
      ensures |r| == i
      ensures forall a :: 0 <= a < i ==> |r[a]| == size
      ensures forall a, c :: 0 <= a < i && 0 <= c < size ==> r[a][c] == cells[a, c].symbol
    {
      if i == 0 then [] else GridRows(i - 1) + [RowMarks(i - 1, size)]
    }

    /** What every cell shows, as a value. */
    function Grid(): (g: Grid)
      requires Valid()
      reads this, cells, Repr
      ensures IsSquare(g) && |g| == size
      ensures forall i, j :: 0 <= i < size && 0 <= j < size ==> g[i][j] == cells[i, j].symbol
    {
      GridRows(size)
    }

    /** filledCells counts exactly the filled cells. */
    ghost predicate Consistent()
      requires Valid()
      reads this, cells, Repr
    {
      filledCells == CountFilled(Grid())
    }

    /** A new board: size×size fresh empty cells, each carrying its own (row, col), and no filled cell. */
    constructor (size: int)
      requires size >= 0
      ensures this.size == size && Valid() && fresh(cells)
      ensures forall i, j :: 0 <= i < size && 0 <= j < size ==> fresh(cells[i, j])
      ensures fresh(Repr)
      ensures Grid() == EmptyGrid(size)
      ensures filledCells == 0 && Consistent()
    {
      var a, repr := NewCells(size);
      this.size := size;
      cells := a;
      Repr := repr;
      filledCells := 0;
      new;
      assert Valid();
      ghost var g := Grid();
      GridExtensionality(g, EmptyGrid(size));
      EmptyGridCounts(size);
    }

    /** A fresh size×size array holding, at each (i, j), a new empty cell for (i, j). */
    static method NewCells(size: int) returns (a: array2<Cell?>, ghost repr: set<Cell?>)
      requires size >= 0
      ensures fresh(a) && a.Length0 == size && a.Length1 == size
      ensures forall r, c :: 0 <= r < size && 0 <= c < size ==>
        a[r, c] != null && a[r, c] in repr && a[r, c].At(r, c) && a[r, c].symbol == None
      ensures forall r, c :: 0 <= r < size && 0 <= c < size ==> fresh(a[r, c])
      ensures fresh(repr)
    {
      a := new Cell?[size, size];
      repr := {};
      for i := 0 to size
        invariant forall r, c :: 0 <= r < i && 0 <= c < size ==>
          a[r, c] != null && a[r, c] in repr && a[r, c].At(r, c) && a[r, c].symbol == None
        invariant forall r, c :: 0 <= r < i && 0 <= c < size ==> fresh(a[r, c])
        invariant fresh(repr)
      {
        for j := 0 to size
          invariant forall r, c :: 0 <= r < size && 0 <= c < size && (r < i || (r == i && c < j)) ==>
            a[r, c] != null && a[r, c] in repr && a[r, c].At(r, c) && a[r, c].symbol == None
          invariant forall r, c :: 0 <= r < size && 0 <= c < size && (r < i || (r == i && c < j)) ==>
            fresh(a[r, c])
          invariant fresh(repr)
        {
          a[i, j] := new Cell(i, j);
          repr := repr + {a[i, j]};
        }
      }
    }

    /** True iff (row, col) lies on the board, where a cell that knows that position sits. */
    function IsValidPosition(row: int, col: int): (r: bool)
      requires Valid()
      reads this, cells, Repr
      ensures r <==> InBounds(Grid(), row, col)
      ensures r ==> cells[row, col] != null && cells[row, col].At(row, col)
    {
      0 <= row < size && 0 <= col < size
    }

    /** The cell at (row, col), or None off the board; the cell found carries that position. */
    function GetCell(row: int, col: int): (r: Option<Cell>)
      requires Valid()
      reads this, cells, Repr
      ensures r.None? <==> !(0 <= row < size && 0 <= col < size)
      ensures r.Some? ==> r.value == cells[row, col] && r.value.row == row && r.value.col == col
    {
      if !IsValidPosition(row, col) then None else Some(cells[row, col])
    }

    /** True iff (row, col) is on the board and its cell shows no symbol. */
    function IsCellEmpty(row: int, col: int): (r: bool)
      requires Valid()
      reads this, cells, Repr
      ensures r <==> InBounds(Grid(), row, col) && Grid()[row][col] == None
    {
      var cell := GetCell(row, col);
      cell.Some? && cell.value.IsEmpty()
    }

    /**
     * Writes the mover's symbol into the target cell and counts one more filled cell.
     * The target is not checked for emptiness; the count stays exact only when it was empty.
     */
    method MakeMove(move: Move)
      requires Valid() && IsValidPosition(move.row, move.col)
      modifies this`filledCells, cells[move.row, move.col]
      ensures Valid()
      ensures Grid() == Place(old(Grid()), move.row, move.col, move.symbol)
      ensures filledCells == old(filledCells) + 1
      ensures old(Consistent() && Grid()[move.row][move.col] == None) ==> Consistent()
    {
      ghost var g := Grid();
      cells[move.row, move.col].SetSymbol(move.symbol);
      filledCells := filledCells + 1;
      GridExtensionality(Grid(), Place(g, move.row, move.col, move.symbol));
      CountFilledPlace(g, move.row, move.col, move.symbol);
    }

    /** filledCells reached size²; for an exact count, iff no cell is empty. */
    function IsFull(): (r: bool)
      requires Valid()
      reads this, cells, Repr
      ensures Consistent() ==> (r <==> EmptyCells(Grid()) == [])
    {
      FullIffNoEmptyCell(Grid());
      filledCells == size * size
    }

    /** The positions of the empty cells, each once, in row-major order. */
    method GetEmptyCells() returns (r: seq<Pos>)
      requires Valid()
      ensures r == EmptyCells(Grid())
    {
      ghost var g := Grid();
      r := [];
      for i := 0 to size
        invariant r == EmptyInRows(g, i)
      {
        for j := 0 to size
          invariant r == EmptyInRows(g, i) + EmptyInRow(g, i, j)
        {
          if cells[i, j].IsEmpty() {
            r := r + [Pos(i, j)];
          }
        }
      }
    }

    /** Empties every cell and sets the counter to zero. */
    method Reset()
      requires Valid()
      modifies this`filledCells, Repr
      ensures Valid()
      ensures Grid() == EmptyGrid(size)
      ensures filledCells == 0 && Consistent()
    {
      for i := 0 to size
        invariant Valid()
        invariant forall r, c :: 0 <= r < i && 0 <= c < size ==> cells[r, c].symbol == None
      {
        for j := 0 to size
          invariant Valid()
          invariant forall r, c :: 0 <= r < i && 0 <= c < size ==> cells[r, c].symbol == None
          invariant forall c :: 0 <= c < j ==> cells[i, c].symbol == None
        {
          cells[i, j].Reset();
        }
      }
      filledCells := 0;
      GridExtensionality(Grid(), EmptyGrid(size));
      EmptyGridCounts(size);
    }
  }
}
