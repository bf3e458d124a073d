/** The apple: a grid cell chosen off the snake. */
module Apples {
  import opened Grid
  import opened Cells

  class Apple {
    const position: Cell

    /** A new apple on a free grid cell. */
    constructor (snakePositions: seq<Cell>)
      requires HasFreeCell(snakePositions)
      ensures OnGrid(position) && position !in snakePositions
    {
      var p := RandomizePosition(snakePositions);
      position := p;
    }

    /** Picks a column and a row of the grid whose cell the snake does not
        occupy. Any such cell may be returned; a free cell must exist. */
    static method RandomizePosition(snakePositions: seq<Cell>) returns (p: Cell)
      requires HasFreeCell(snakePositions)
      ensures OnGrid(p) && p !in snakePositions
    {
      ghost var free :| OnGrid(free) && free !in snakePositions;
      CellAtIndices(free);
      var col, row :| 0 <= col < GRID_WIDTH && 0 <= row < GRID_HEIGHT &&
                      CellAt(col, row) !in snakePositions;
      p := CellAt(col, row);
    }
  }
}
