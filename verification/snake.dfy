/**
 * The snake: a non-empty list of pixel positions, head first, moving one
 * grid cell per step, with growth, combo counting, a cosmetic expression
 * and the two collision tests.
 */
module Snakes {
  import opened Config

  datatype Expression = Normal | Happy | Excited | Worried

  datatype Snake = Snake(
    positions: seq<Pos>,
    direction: Vec,
    growFlag: bool,
    speed: int,
    expression: Expression,
    expressionTimer: int,
    combo: nat)

  /** Every snake the game builds has at least one segment. */
  predicate Valid(s: Snake) {
    |s.positions| > 0
  }

  function Head(s: Snake): Pos
    requires Valid(s)
  {
    s.positions[0]
  }

  /** The cell one step from `p` in direction `d`. */
  function Advance(p: Pos, d: Vec): Pos {
    Pos(p.x + d.dx * GridSize, p.y + d.dy * GridSize)
  }

  function NewSnake(x: int, y: int): (s: Snake)
    ensures Valid(s) && s.positions == [Pos(x, y)]
    ensures s.direction == Right && IsAxisUnit(s.direction)
    ensures !s.growFlag && s.combo == 0
    ensures s.speed == SnakeInitialSpeed
    ensures s.expression == Normal && s.expressionTimer == 0
  {
    Snake([Pos(x, y)], Right, false, SnakeInitialSpeed, Normal, 0, 0)
  }

  /**
   * Prepends the next head; the tail is dropped unless growth is pending,
   * in which case the pending flag is consumed instead.
   */
  function Move(s: Snake): (r: Snake)
    requires Valid(s)
    ensures Valid(r)
    ensures Head(r) == Advance(Head(s), s.direction)
    ensures |r.positions| == |s.positions| + (if s.growFlag then 1 else 0)
    ensures forall i :: 1 <= i < |r.positions| ==> r.positions[i] == s.positions[i - 1]
    ensures !r.growFlag
    ensures r == s.(positions := r.positions, growFlag := false)
  {
    var moved := [Advance(Head(s), s.direction)] + s.positions;
    if s.growFlag then s.(positions := moved, growFlag := false)
    else s.(positions := moved[..|moved| - 1])
  }

  /** Without pending growth a move is a shift: new head, then every old segment but the last. */
  lemma MoveShifts(s: Snake)
    requires Valid(s) && !s.growFlag
    ensures Move(s).positions == [Advance(Head(s), s.direction)] + s.positions[..|s.positions| - 1]
  {
  }

  /** With pending growth every old segment is kept behind the new head. */
  lemma MoveGrows(s: Snake)
    requires Valid(s) && s.growFlag
    ensures Move(s).positions == [Advance(Head(s), s.direction)] + s.positions
  {
  }

  /** Turns to `d` unless `d` is the exact reverse of the current direction. */
  function ChangeDirection(s: Snake, d: Vec): (r: Snake)
    ensures Opposite(d) == s.direction ==> r == s
    ensures Opposite(d) != s.direction ==> r == s.(direction := d)
  {
    if Opposite(d) != s.direction then s.(direction := d) else s
  }

  /** For the four keyboard directions, the direction stays put exactly when `d` is the reverse (or the same). */
  lemma ChangeDirectionRejectsOnlyReversal(s: Snake, d: Vec)
    requires IsAxisUnit(s.direction) && IsAxisUnit(d)
    ensures IsAxisUnit(ChangeDirection(s, d).direction)
    ensures ChangeDirection(s, d).direction == s.direction <==> (d == Opposite(s.direction) || d == s.direction)
    ensures d != Opposite(s.direction) ==> ChangeDirection(s, d).direction == d
  {
  }

  function SetExpression(s: Snake, e: Expression, duration: int): (r: Snake)
    ensures r.expression == e && r.expressionTimer == duration
    ensures r == s.(expression := e, expressionTimer := duration)
  {
    s.(expression := e, expressionTimer := duration)
  }

  /**
   * Marks growth as pending, raises the speed by the global increment up to
   * the global cap, counts one more in the combo and shows a happy (combo
   * below three) or excited expression.
   */
  function Grow(s: Snake): (r: Snake)
    ensures r.growFlag
    ensures r.speed == Min(s.speed + SpeedIncrement, MaxSpeed)
    ensures r.combo == s.combo + 1
    ensures r.combo >= 3 ==> r.expression == Excited && r.expressionTimer == 40
    ensures r.combo < 3 ==> r.expression == Happy && r.expressionTimer == 30
    ensures r.positions == s.positions && r.direction == s.direction
  {
    var s1 := s.(growFlag := true, speed := Min(s.speed + SpeedIncrement, MaxSpeed), combo := s.combo + 1);
    if s1.combo >= 3 then SetExpression(s1, Excited, 40) else SetExpression(s1, Happy, 30)
  }

  /** Growth shows up on the next move as exactly one more segment. */
  lemma GrowThenMoveAddsOne(s: Snake)
    requires Valid(s)
    ensures |Move(Grow(s)).positions| == |s.positions| + 1
    ensures Move(Grow(s)).positions[1..] == s.positions
  {
  }

  /** Speed never passes `MaxSpeed` by growing, and never drops. */
  lemma GrowSpeedBounded(s: Snake)
    requires s.speed <= MaxSpeed
    ensures s.speed <= Grow(s).speed <= MaxSpeed
  {
  }

  function GrowTimes(s: Snake, n: nat): (r: Snake)
    decreases n
  {
    if n == 0 then s else GrowTimes(Grow(s), n - 1)
  }

  /** After `n` growths the speed is `min(speed + n * SpeedIncrement, MaxSpeed)`. */
  lemma {:induction false} GrowTimesSpeed(s: Snake, n: nat)
    requires s.speed <= MaxSpeed
    ensures GrowTimes(s, n).speed == Min(s.speed + n * SpeedIncrement, MaxSpeed)
    ensures GrowTimes(s, n).combo == s.combo + n
    decreases n
  {
    if n > 0 {
      GrowTimesSpeed(Grow(s), n - 1);
    }
  }

  /** From speed 10, ten foods reach the cap of 30 exactly, and an eleventh stays there. */
  lemma TenFoodsReachTheCap(s: Snake)
    requires s.speed == SnakeInitialSpeed
    ensures GrowTimes(s, 10).speed == MaxSpeed
    ensures GrowTimes(s, 9).speed < MaxSpeed
    ensures GrowTimes(s, 11).speed == MaxSpeed
  {
    GrowTimesSpeed(s, 9);
    GrowTimesSpeed(s, 10);
    GrowTimesSpeed(s, 11);
  }

  /** Counts a positive expression timer down; shows the normal face once it is spent. */
  function UpdateExpression(s: Snake): (r: Snake)
    ensures s.expressionTimer > 0 ==> r == s.(expressionTimer := s.expressionTimer - 1)
    ensures s.expressionTimer <= 0 ==> r == s.(expression := Normal)
  {
    if s.expressionTimer > 0 then s.(expressionTimer := s.expressionTimer - 1)
    else s.(expression := Normal)
  }

  /** An expression with timer `t` is still shown after `t` updates and turns normal on the next one. */
  lemma ExpressionEnds(s: Snake)
    requires s.expressionTimer >= 0
    ensures UpdateTimes(s, s.expressionTimer).expression == s.expression
    ensures UpdateTimes(s, s.expressionTimer + 1).expression == Normal
  {
    ExpressionLasts(s, s.expressionTimer);
  }

  /** Each of the first `timer` updates only counts down. */
  lemma {:induction false} ExpressionLasts(s: Snake, k: nat)
    requires 0 <= k <= s.expressionTimer
    ensures UpdateTimes(s, k).expression == s.expression
    ensures UpdateTimes(s, k).expressionTimer == s.expressionTimer - k
    ensures UpdateTimes(s, k) == s.(expressionTimer := s.expressionTimer - k)
    decreases k
  {
    if k > 0 {
      ExpressionLasts(s, k - 1);
    }
  }

  function UpdateTimes(s: Snake, n: nat): Snake
    decreases n
  {
    if n == 0 then s else UpdateExpression(UpdateTimes(s, n - 1))
  }

  function ResetCombo(s: Snake): (r: Snake)
    ensures r.combo == 0
    ensures r == s.(combo := 0)
  {
    s.(combo := 0)
  }

  /** True iff the head occurs again further down the body. */
  function SelfCollision(s: Snake): (hit: bool)
    requires Valid(s)
    ensures hit <==> exists i :: 1 <= i < |s.positions| && s.positions[i] == Head(s)
    ensures |s.positions| == 1 ==> !hit
  {
    Head(s) in s.positions[1..]
  }

  datatype WallResult = WallResult(snake: Snake, hit: bool)

  /**
   * With wrap-around the head is folded into the window (x mod width, y mod
   * height) and there is never a hit; without it nothing changes and the
   * result says whether the head left the window.
   */
  function WallCheck(s: Snake, wrap: bool): (r: WallResult)
    requires Valid(s)
    ensures Valid(r.snake) && |r.snake.positions| == |s.positions|
    ensures !wrap ==> r.snake == s && (r.hit <==> !InWindow(Head(s)))
    ensures wrap ==> !r.hit
    ensures wrap ==> InWindow(Head(r.snake))
    ensures wrap ==> (Head(r.snake).x - Head(s).x) % WindowWidth == 0
    ensures wrap ==> (Head(r.snake).y - Head(s).y) % WindowHeight == 0
    ensures wrap ==> r.snake.positions[1..] == s.positions[1..]
    ensures r.snake == s.(positions := r.snake.positions)
  {
    var h := Head(s);
    if wrap then
      var h' := Pos(h.x % WindowWidth, h.y % WindowHeight);
      WallResult(s.(positions := s.positions[0 := h']), false)
    else
      WallResult(s, !InWindow(h))
  }

  /** Wrapping a head that is already inside the window changes nothing, so wrapping is idempotent. */
  lemma WrapIsIdempotent(s: Snake)
    requires Valid(s)
    ensures InWindow(Head(s)) ==> WallCheck(s, true).snake == s
    ensures WallCheck(WallCheck(s, true).snake, true).snake == WallCheck(s, true).snake
  {
    var h := Head(s);
    if InWindow(h) {
      assert h.x % WindowWidth == h.x;
      assert h.y % WindowHeight == h.y;
      assert s.positions[0 := h] == s.positions;
    }
    var s1 := WallCheck(s, true).snake;
    var h1 := Head(s1);
    assert h1.x % WindowWidth == h1.x;
    assert h1.y % WindowHeight == h1.y;
    assert s1.positions[0 := h1] == s1.positions;
  }

  /**
   * Without wrap-around, once a step from inside the window has put the
   * head outside it, the next step leaves the head outside too, whatever
   * turn is requested in between: the head only got out along the current
   * direction, and the one turn that could bring it back is the reversal,
   * which is refused.
   */
  lemma ExitedHeadStaysOut(s: Snake, d: Vec)
    requires Valid(s) && IsAxisUnit(s.direction) && IsAxisUnit(d)
    requires InWindow(Head(s)) && !InWindow(Head(Move(s)))
    ensures var s2 := ChangeDirection(Move(s), d);
      !InWindow(Head(Move(s2)))
  {
  }
}
