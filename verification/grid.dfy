/**
 The board of the Snake game: a square of GridSize x GridSize cells addressed
 as (row, col), the four headings, and the one-cell translation that
 `move_snake` performs on the head.
 */
module Grid {

  /** Side of the square board (GRID_SIZE). */
  const GridSize: nat := 20

  /** A board cell as (row, col); `move_snake` unpacks it as (head_y, head_x). */
  type Cell = (int, int)

  predicate InBounds(c: Cell) {
    0 <= c.0 < GridSize && 0 <= c.1 < GridSize
  }

  /** Every cell of a body lies on the board. */
  predicate AllInBounds(s: seq<Cell>) {
    forall i :: 0 <= i < |s| ==> InBounds(s[i])
  }

  /** No cell occurs twice in a body. */
  predicate Distinct(s: seq<Cell>) {
    forall i, j :: 0 <= i < j < |s| ==> s[i] != s[j]
  }

  datatype Direction = Up | Down | Left | Right

  /** The string the game stores for a heading. */
  function Name(d: Direction): string {
    match d
    case Up => "UP"
    case Down => "DOWN"
    case Left => "LEFT"
    case Right => "RIGHT"
  }

  /** The strings that name a heading. */
  predicate IsDirectionName(s: string) {
    s in {Name(Up), Name(Down), Name(Left), Name(Right)}
  }

  function Opposite(d: Direction): Direction {
    match d
    case Up => Down
    case Down => Up
    case Left => Right
    case Right => Left
  }

  /** Row and column offsets of one step in each heading, as a table. */
  function RowDelta(d: Direction): int {
    match d
    case Up => -1
    case Down => 1
    case Left => 0
    case Right => 0
  }

  function ColDelta(d: Direction): int {
    match d
    case Up => 0
    case Down => 0
    case Left => -1
    case Right => 1
  }

  function Translate(c: Cell, d: Direction): Cell {
    (c.0 + RowDelta(d), c.1 + ColDelta(d))
  }

  function Abs(x: int): nat {
    if x < 0 then -x else x
  }

  /** The two cells share one coordinate and differ by exactly 1 in the other. */
  predicate Adjacent(a: Cell, b: Cell) {
    || (a.0 == b.0 && Abs(a.1 - b.1) == 1)
    || (a.1 == b.1 && Abs(a.0 - b.0) == 1)
  }

  /**
   The head the snake would move to: the first cell of the body shifted one
   cell in the named heading; a string that names no heading leaves it in place.
   */
  function MoveSnake(direction: string, snake: seq<Cell>): (h: Cell)
    requires |snake| > 0
    ensures forall d: Direction :: direction == Name(d) ==> h == Translate(snake[0], d)
    ensures IsDirectionName(direction) ==> Adjacent(h, snake[0])
    ensures !IsDirectionName(direction) ==> h == snake[0]
  {
    var (headY, headX) := snake[0];
    if direction == "UP" then (headY - 1, headX)
    else if direction == "DOWN" then (headY + 1, headX)
    else if direction == "LEFT" then (headY, headX - 1)
    else if direction == "RIGHT" then (headY, headX + 1)
    else (headY, headX)
  }

  /** Opposite headings undo each other, and the opposite is never the heading itself. */
  lemma OppositeUndoesTranslate(c: Cell, d: Direction)
    ensures Opposite(Opposite(d)) == d
    ensures Opposite(d) != d
    ensures Translate(Translate(c, d), Opposite(d)) == c
  {
  }

  /** Distinct headings move a cell to distinct cells. */
  lemma TranslateInjective(c: Cell, d1: Direction, d2: Direction)
    ensures Translate(c, d1) == Translate(c, d2) <==> d1 == d2
  {
  }
}
