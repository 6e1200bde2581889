/** A board cell: a fixed position and a mutable occupancy. */
module Cells {
  import opened Wrappers

  datatype CellState = Empty | Filled

  class Cell {
    const row: int
    const col: int
    var state: CellState
    var symbol: Option<char>

    /** The state and the symbol agree: an empty cell holds no symbol, a filled one holds one. */
    ghost predicate Valid()
      reads this
    {
      state == Empty <==> symbol == None
    }

    /** A valid cell standing at (r, c). */
    ghost predicate At(r: int, c: int)
      reads this
    {
      row == r && col == c && Valid()
    }

    /** A new cell is empty, holds no symbol and keeps the given position. */
    constructor (row: int, col: int)
      ensures this.row == row && this.col == col
      ensures state == Empty && symbol == None
      ensures Valid()
    {
      this.row := row;
      this.col := col;
      state := Empty;
      symbol := None;
    }

    /** Fills the cell with `s`, whatever it held before. */
    method SetSymbol(s: char)
      modifies this
      ensures state == Filled && symbol == Some(s)
      ensures Valid()
    {
      symbol := Some(s);
      state := Filled;
    }

    /** True iff the cell is in the Empty state; for a valid cell, iff it holds no symbol. */
    function IsEmpty(): (r: bool)
      reads this
      ensures r <==> state != Filled
      ensures Valid() ==> (r <==> symbol == None)
    {
      state == Empty
    }

    /** Empties the cell, whatever it held before. */
    method Reset()
      modifies this
      ensures state == Empty && symbol == None
      ensures Valid()
    {
      symbol := None;
      state := Empty;
    }
  }
}
