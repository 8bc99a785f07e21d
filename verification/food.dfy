/**
 * The single food item: a grid-aligned position plus two animation
 * counters. Random cell choices are supplied by the caller as draws.
 */
module Foods {
  import opened Config

  datatype Food = Food(position: Pos, pulseTimer: int, rotationAngle: int)

  /** The position of cell `(i, j)`; the caller's draw stands for the two random cell indices. */
  function GeneratePosition(i: int, j: int): (p: Pos)
    requires 0 <= i < GridWidth && 0 <= j < GridHeight
    ensures IsCell(p)
    ensures p.x / GridSize == i && p.y / GridSize == j
  {
    Pos(i * GridSize, j * GridSize)
  }

  /** Every cell is produced by exactly one pair of indices. */
  lemma GeneratePositionCoversCells(p: Pos)
    requires IsCell(p)
    ensures GeneratePosition(p.x / GridSize, p.y / GridSize) == p
  {
  }

  function NewFood(cell: Pos): (f: Food)
    requires IsCell(cell)
    ensures f.position == cell && f.pulseTimer == 0 && f.rotationAngle == 0
  {
    Food(cell, 0, 0)
  }

  /**
   * The first draw that is not a snake segment. The source redraws until
   * it finds one, so it terminates exactly when such a draw comes up.
   */
  function FirstFree(draws: seq<Pos>, occupied: seq<Pos>): (p: Pos)
    requires exists i :: 0 <= i < |draws| && draws[i] !in occupied
    ensures p !in occupied
    ensures exists i :: 0 <= i < |draws| && draws[i] == p && forall j :: 0 <= j < i ==> draws[j] in occupied
  {
    if draws[0] !in occupied then draws[0]
    else
      var i :| 0 <= i < |draws| && draws[i] !in occupied;
      assert draws[1..][i - 1] == draws[i];
      var p := FirstFree(draws[1..], occupied);
      var k :| 0 <= k < |draws[1..]| && draws[1..][k] == p && forall j :: 0 <= j < k ==> draws[1..][j] in occupied;
      assert draws[k + 1] == p;
      assert forall j :: 1 <= j < k + 1 ==> draws[j] == draws[1..][j - 1];
      p
  }

  /** Moves the food to the first drawn cell off the snake; the animation counters are kept. */
  function Respawn(f: Food, occupied: seq<Pos>, draws: seq<Pos>): (r: Food)
    requires forall i :: 0 <= i < |draws| ==> IsCell(draws[i])
    requires exists i :: 0 <= i < |draws| && draws[i] !in occupied
    ensures IsCell(r.position) && r.position !in occupied
    ensures r.pulseTimer == f.pulseTimer && r.rotationAngle == f.rotationAngle
    ensures exists i :: 0 <= i < |draws| && draws[i] == r.position && forall j :: 0 <= j < i ==> draws[j] in occupied
  {
    f.(position := FirstFree(draws, occupied))
  }

  /** Advances the pulse by one and the rotation by two degrees. */
  function Update(f: Food): (r: Food)
    ensures r.pulseTimer == f.pulseTimer + 1 && r.rotationAngle == f.rotationAngle + 2
    ensures r.position == f.position
  {
    f.(pulseTimer := f.pulseTimer + 1, rotationAngle := f.rotationAngle + 2)
  }
}
