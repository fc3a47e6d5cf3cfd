/**
 The board vocabulary the computer player works with: cell coordinates, the two
 marks, the sparse board (a map from coordinates to marks, where an absent key is
 an empty cell), the fixed 30 x 10 region the computer plays in, and the abstract
 win check the game logic provides.
 */
module Board {

  /** A cell address on the unbounded integer plane (BoardPoint). */
  datatype Point = Point(x: int, y: int)

  /** The two marks (CellState); an empty cell is a missing key, not a third mark. */
  datatype Mark = Cross | Nought

  /** The sparse board: occupied cells only. */
  type Board = map<Point, Mark>

  /**
   The game logic's win check, `CheckWin(lastMove)`, evaluated on a given board.
   Its definition is not part of this model, so it is passed around as an
   arbitrary total function: nothing is assumed about the win length.
   */
  type WinCheck = (Board, Point) -> bool

  /** Bounds of the region used for the opening move, the candidates and the fallback. */
  const MinX: int := 0
  const MaxX: int := 29
  const MinY: int := 0
  const MaxY: int := 9

  predicate InRegion(p: Point)
  {
    MinX <= p.x <= MaxX && MinY <= p.y <= MaxY
  }

  /** Some cell of the region is still free. */
  predicate RegionHasFreeCell(board: Board)
  {
    exists x, y :: MinX <= x <= MaxX && MinY <= y <= MaxY && Point(x, y) !in board
  }

  /** The cell holds mark `s`. */
  predicate Holds(board: Board, p: Point, s: Mark)
  {
    p in board && board[p] == s
  }

  /** One step from `p` in direction (dx, dy). */
  function Step(p: Point, dx: int, dy: int): Point
  {
    Point(p.x + dx, p.y + dy)
  }

  /** `k` steps from `p` in direction (dx, dy). */
  function Shift(p: Point, dx: int, dy: int, k: int): Point
  {
    Point(p.x + k * dx, p.y + k * dy)
  }

  function Abs(n: int): nat
  {
    if n < 0 then -n else n
  }

  /** The king-move (Chebyshev) distance between two cells. */
  function Chebyshev(p: Point, q: Point): nat
  {
    var ax := Abs(p.x - q.x);
    var ay := Abs(p.y - q.y);
    if ax < ay then ay else ax
  }

  /** `q` is one of the eight cells around `p`. */
  predicate Adjacent(p: Point, q: Point)
  {
    Chebyshev(p, q) == 1
  }

  /** Playing mark `s` at `move` lets that side win at once. */
  predicate WinsAt(board: Board, move: Point, s: Mark, checkWin: WinCheck)
  {
    checkWin(board[move := s], move)
  }
}
