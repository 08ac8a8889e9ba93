/**
 `place_food`: draw cells until one is not in the snake. The random draws are
 not modelled; the method returns an arbitrary free cell.
 */
module Food {
  import opened Grid
  import opened Counting

  /**
   Some cell on the board that the snake does not occupy. The source retries
   forever when there is none, so a free cell is required to exist.
   */
  method PlaceFood(snake: seq<Cell>) returns (pos: Cell)
    requires exists c :: Free(snake, c)
    ensures InBounds(pos)
    ensures pos !in snake
  {
    var row, col :| 0 <= row < GridSize && 0 <= col < GridSize && (row, col) !in snake;
    pos := (row, col);
  }
}
