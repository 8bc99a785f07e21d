/**
 * Constants of the game configuration and the geometric vocabulary shared
 * by every other module: pixel positions, direction vectors and the four
 * game states.
 */
module Config {

  /** Side of one grid cell, in pixels. */
  const GridSize: int := 25
  /** Playfield size in pixels. */
  const WindowWidth: int := 1200
  const WindowHeight: int := 900
  /** Playfield size in cells. */
  const GridWidth: int := 48
  const GridHeight: int := 36

  const SnakeInitialSpeed: int := 10
  const SpeedIncrement: int := 2
  const MaxSpeed: int := 30
  const ScorePerFood: int := 10

  /** A pixel position; equality is exact. */
  datatype Pos = Pos(x: int, y: int)

  /** A movement direction, in cells per step. */
  datatype Vec = Vec(dx: int, dy: int)

  datatype GameState = Menu | Running | Paused | GameOver

  const Up: Vec := Vec(0, -1)
  const Down: Vec := Vec(0, 1)
  const Left: Vec := Vec(-1, 0)
  const Right: Vec := Vec(1, 0)

  /** One of the four directions the keyboard handlers ever pass. */
  predicate IsAxisUnit(v: Vec) {
    v == Up || v == Down || v == Left || v == Right
  }

  /** The reverse direction, written as the source writes it (each component times -1). */
  function Opposite(v: Vec): (r: Vec)
    ensures r.dx == -v.dx && r.dy == -v.dy
    ensures IsAxisUnit(v) ==> IsAxisUnit(r) && r != v
  {
    Vec(v.dx * -1, v.dy * -1)
  }

  /** Inside the window `[0, WindowWidth) x [0, WindowHeight)`. */
  predicate InWindow(p: Pos) {
    0 <= p.x < WindowWidth && 0 <= p.y < WindowHeight
  }

  /** The top-left corner of one of the `GridWidth x GridHeight` cells. */
  predicate IsCell(p: Pos) {
    p.x % GridSize == 0 && p.y % GridSize == 0
    && 0 <= p.x < GridWidth * GridSize && 0 <= p.y < GridHeight * GridSize
  }

  /** The cell grid covers the window exactly, so every cell is inside it. */
  lemma CellIsInWindow(p: Pos)
    requires IsCell(p)
    ensures InWindow(p)
  {
  }

  function Abs(n: int): (r: nat)
    ensures r == n || r == -n
  {
    if n < 0 then -n else n
  }

  function Min(a: int, b: int): (r: int)
    ensures r <= a && r <= b
    ensures r == a || r == b
  {
    if a < b then a else b
  }

  function Max(a: int, b: int): (r: int)
    ensures r >= a && r >= b
    ensures r == a || r == b
  {
    if a < b then b else a
  }

  /** Squared Euclidean distance between two points. */
  function DistSq(x: int, y: int, cx: int, cy: int): int {
    (x - cx) * (x - cx) + (y - cy) * (y - cy)
  }
}
