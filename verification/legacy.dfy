/**
 * The first version of the snake: positions, direction, pending growth and
 * speed only. Each operation is stated as the current snake's operation
 * with the expression, its timer and the combo forgotten.
 */
module LegacySnake {
  import opened Config
  import Snakes

  datatype Snake = Snake(positions: seq<Pos>, direction: Vec, growFlag: bool, speed: int)

  predicate Valid(s: Snake) {
    |s.positions| > 0
  }

  /** Forgets what the current snake adds. */
  function Project(s: Snakes.Snake): Snake {
    Snake(s.positions, s.direction, s.growFlag, s.speed)
  }

  /** The current snake with neutral cosmetic fields. */
  function Lift(s: Snake): (r: Snakes.Snake)
    ensures Project(r) == s
  {
    Snakes.Snake(s.positions, s.direction, s.growFlag, s.speed, Snakes.Normal, 0, 0)
  }

  function NewSnake(x: int, y: int): (s: Snake)
    ensures s == Project(Snakes.NewSnake(x, y))
  {
    Snake([Pos(x, y)], Vec(1, 0), false, SnakeInitialSpeed)
  }

  function Move(s: Snake): (r: Snake)
    requires Valid(s)
    ensures Valid(r)
    ensures r == Project(Snakes.Move(Lift(s)))
  {
    var head := s.positions[0];
    var moved := [Pos(head.x + s.direction.dx * GridSize, head.y + s.direction.dy * GridSize)] + s.positions;
    if s.growFlag then s.(positions := moved, growFlag := false)
    else s.(positions := moved[..|moved| - 1])
  }

  function ChangeDirection(s: Snake, d: Vec): (r: Snake)
    ensures r == Project(Snakes.ChangeDirection(Lift(s), d))
  {
    if Vec(d.dx * -1, d.dy * -1) != s.direction then s.(direction := d) else s
  }

  function Grow(s: Snake): (r: Snake)
    ensures r == Project(Snakes.Grow(Lift(s)))
  {
    s.(growFlag := true, speed := Min(s.speed + SpeedIncrement, MaxSpeed))
  }

  function SelfCollision(s: Snake): (hit: bool)
    requires Valid(s)
    ensures hit == Snakes.SelfCollision(Lift(s))
  {
    s.positions[0] in s.positions[1..]
  }

  function WallCollision(s: Snake): (hit: bool)
    requires Valid(s)
    ensures hit == Snakes.WallCheck(Lift(s), false).hit
  {
    var head := s.positions[0];
    head.x < 0 || head.x >= WindowWidth || head.y < 0 || head.y >= WindowHeight
  }

  /** Projection commutes with the current snake's operations, so nothing the legacy snake does depends on the cosmetic fields. */
  lemma ProjectionCommutes(s: Snakes.Snake, d: Vec)
    requires Snakes.Valid(s)
    ensures Move(Project(s)) == Project(Snakes.Move(s))
    ensures ChangeDirection(Project(s), d) == Project(Snakes.ChangeDirection(s, d))
    ensures Grow(Project(s)) == Project(Snakes.Grow(s))
    ensures SelfCollision(Project(s)) == Snakes.SelfCollision(s)
    ensures WallCollision(Project(s)) == Snakes.WallCheck(s, false).hit
  {
  }
}

/**
 * The first version of the game: no menu, no difficulty, no power-ups or
 * bombs; reset starts running at once and food is always worth 10 points.
 */
module LegacyGame {
  import opened Config
  import opened LegacySnake
  import Foods
  import G = Game

  datatype Session = Session(snake: Snake, food: Pos, score: int, state: GameState)

  /**
   * Every session the legacy game builds: the food is on a grid cell and
   * never under the snake, and the score counts ten per food eaten, the
   * pending growth included.
   */
  predicate Inv(g: Session) {
    && Valid(g.snake)
    && IsCell(g.food)
    && g.food !in g.snake.positions
    && g.score == ScorePerFood * (|g.snake.positions| - 1 + (if g.snake.growFlag then 1 else 0))
  }

  predicate ValidCells(cells: seq<Pos>) {
    forall i :: 0 <= i < |cells| ==> IsCell(cells[i])
  }

  /** The drawn cells contain one off `occupied`. */
  predicate HasFree(cells: seq<Pos>, occupied: seq<Pos>) {
    exists i :: 0 <= i < |cells| && cells[i] !in occupied
  }

  /** A new snake at (100, 100), food respawned off it, score 0, running. */
  function Reset(cells: seq<Pos>): (r: Session)
    requires ValidCells(cells) && HasFree(cells, [Pos(100, 100)])
    ensures Inv(r)
    ensures r.state == Running && r.score == 0 && r.snake == NewSnake(100, 100)
  {
    var s := NewSnake(100, 100);
    Session(s, Foods.FirstFree(cells, s.positions), 0, Running)
  }

  /** The legacy transition table: there is no menu, and R restarts play at once. */
  function NextState(s: GameState, k: G.Key): GameState {
    match (s, k)
    case (Running, KeyP) => Paused
    case (Paused, KeyP) => Running
    case (GameOver, KeyR) => Running
    case _ => s
  }

  /** One key press; Q quits only after game over. */
  function HandleKey(g: Session, k: G.Key, cells: seq<Pos>): (r: G.KeyOutcome<Session>)
    requires Inv(g) && ValidCells(cells) && HasFree(cells, [Pos(100, 100)])
    ensures Inv(r.game)
    ensures r.game.state == NextState(g.state, k)
    ensures !r.keepRunning <==> g.state == GameOver && k == G.KeyQ
    ensures g.state == Running && G.IsArrow(k) ==> r.game == g.(snake := ChangeDirection(g.snake, G.DirectionOf(k)))
    ensures g.state == GameOver && k == G.KeyR ==> r.game == Reset(cells)
    ensures !(g.state == Running && G.IsArrow(k)) && !(g.state == GameOver && k == G.KeyR) ==> r.game == g.(state := r.game.state)
  {
    match g.state
    case Running =>
      if G.IsArrow(k) then G.KeyOutcome(g.(snake := ChangeDirection(g.snake, G.DirectionOf(k))), true)
      else if k == G.KeyP then G.KeyOutcome(g.(state := Paused), true)
      else G.KeyOutcome(g, true)
    case Paused =>
      if k == G.KeyP then G.KeyOutcome(g.(state := Running), true) else G.KeyOutcome(g, true)
    case GameOver =>
      if k == G.KeyR then G.KeyOutcome(Reset(cells), true)
      else if k == G.KeyQ then G.KeyOutcome(g, false)
      else G.KeyOutcome(g, true)
    case Menu => G.KeyOutcome(g, true)
  }

  /** The move reaches the food. */
  predicate Eats(g: Session)
    requires Valid(g.snake)
  {
    Move(g.snake).positions[0] == g.food
  }

  /**
   * One tick while running: move, end the game on a crash, then (in the
   * same tick, crash or not) eat: grow, ten points, food to the first drawn
   * cell off the snake.
   */
  function Update(g: Session, cells: seq<Pos>): (r: Session)
    requires Inv(g) && ValidCells(cells)
    requires g.state == Running && Eats(g) ==> HasFree(cells, Move(g.snake).positions)
    ensures Inv(r)
    ensures g.state != Running ==> r == g
    ensures g.state == Running ==>
              && (r.state == GameOver <==> SelfCollision(Move(g.snake)) || WallCollision(Move(g.snake)))
              && (r.state != GameOver ==> r.state == Running)
              && r.snake.positions == Move(g.snake).positions
              && r.score == g.score + (if Eats(g) then ScorePerFood else 0)
              && (!Eats(g) ==> r.food == g.food)
  {
    if g.state != Running then g
    else
      var s1 := Move(g.snake);
      var state := if SelfCollision(s1) || WallCollision(s1) then GameOver else Running;
      if s1.positions[0] == g.food then
        var s2 := Grow(s1);
        Session(s2, Foods.FirstFree(cells, s2.positions), g.score + ScorePerFood, state)
      else
        assert forall i :: 0 <= i < |s1.positions| ==> s1.positions[i] == g.food ==> i == 0 by {
          forall i | 1 <= i < |s1.positions|
            ensures s1.positions[i] != g.food
          {
            assert s1.positions[i] == g.snake.positions[i - 1];
          }
        }
        Session(s1, g.food, g.score, state)
  }
}
