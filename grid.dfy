/** Board geometry of the snake game: the window and cell sizes, the grid of
 *  cells they give, the four movement directions and the wrap-around step
 *  that makes the board a torus. */
module Grid {

  const ScreenWidth: int := 640
  const ScreenHeight: int := 480
  const GridSize: int := 20

  /** Number of cells across and down (integer division, as in the game). */
  const GridWidth: int := ScreenWidth / GridSize
  const GridHeight: int := ScreenHeight / GridSize

  /** A cell (x, y) of the board, and a movement vector (dx, dy). */
  type Cell = (int, int)
  type Vec = (int, int)

  const Up: Vec := (0, -1)
  const Down: Vec := (0, 1)
  const Left: Vec := (-1, 0)
  const Right: Vec := (1, 0)

  /** The centre cell, where a new or reset snake starts. */
  const Start: Cell := (GridWidth / 2, GridHeight / 2)

  predicate InBounds(c: Cell) {
    0 <= c.0 < GridWidth && 0 <= c.1 < GridHeight
  }

  predicate AllInBounds(cells: seq<Cell>) {
    forall i :: 0 <= i < |cells| ==> InBounds(cells[i])
  }

  predicate IsDirection(d: Vec) {
    d == Up || d == Down || d == Left || d == Right
  }

  /** The vector pointing the other way: the 180-degree reversal of `d`. */
  function Opposite(d: Vec): (r: Vec)
    ensures IsDirection(d) ==> IsDirection(r) && r != d
  {
    (-d.0, -d.1)
  }

  lemma Dimensions()
    ensures GridWidth == 32 && GridHeight == 24
    ensures Start == (16, 12) && InBounds(Start)
  {
  }

  /** One step from `c` along `d`, each coordinate reduced modulo the grid
   *  size. The moduli are positive, so the remainder is never negative and
   *  agrees with the floor-based remainder of the game's arithmetic. */
  function Step(c: Cell, d: Vec): (r: Cell)
    ensures InBounds(r)
  {
    Dimensions();
    ((c.0 + d.0) % GridWidth, (c.1 + d.1) % GridHeight)
  }

  /** Reference definition of wrap-around for a coordinate at most one cell
   *  off the board: one past the far edge re-enters at 0, one before 0
   *  re-enters at the far edge, anything else stays. */
  function EdgeWrap(v: int, limit: int): int {
    if v == limit then 0 else if v == -1 then limit - 1 else v
  }

  /** From a cell on the board, a unit step lands on the neighbouring cell,
   *  re-entering from the opposite edge when it leaves the board. */
  lemma StepIsEdgeWrap(c: Cell, d: Vec)
    requires InBounds(c) && IsDirection(d)
    ensures Step(c, d) == (EdgeWrap(c.0 + d.0, GridWidth), EdgeWrap(c.1 + d.1, GridHeight))
  {
    Dimensions();
  }
}
