/**
 * Pixel positions on the canvas and the four movement vectors of the snake.
 * The game stores every position as a two-element list [x, y]; here it is a Cell.
 */
module Geometry {

  /** A pixel position [x, y] on the canvas, or a movement vector. */
  datatype Cell = Cell(x: int, y: int)

  /** The step of every move and the size of every particle, in pixels. */
  const Step: int := 10

  const Right: Cell := Cell(10, 0)
  const Left: Cell := Cell(-10, 0)
  const Down: Cell := Cell(0, 10)
  const Up: Cell := Cell(0, -10)

  /** One of the four 10-pixel unit vectors the snake may move by. */
  predicate IsDirection(d: Cell) {
    d == Right || d == Left || d == Down || d == Up
  }

  /** Component-wise sum, as `[sum(x) for x in zip(a, b)]`. */
  function Add(a: Cell, b: Cell): Cell {
    Cell(a.x + b.x, a.y + b.y)
  }

  /** The position lies on the 10-pixel grid. */
  predicate Aligned(c: Cell) {
    c.x % Step == 0 && c.y % Step == 0
  }

  /** The vector that undoes `d`. */
  function Opposite(d: Cell): (r: Cell)
    ensures Add(d, r) == Cell(0, 0)
    ensures IsDirection(d) <==> IsDirection(r)
  {
    Cell(-d.x, -d.y)
  }

  /** Moving an aligned position by a unit vector keeps it aligned. */
  lemma AddKeepsAlignment(c: Cell, d: Cell)
    requires Aligned(c) && IsDirection(d)
    ensures Aligned(Add(c, d))
  {
  }
}
