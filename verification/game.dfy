/**
 * The game controller: the key transition table, reset, the running tick
 * (move, collisions with shield absorption, bombs, power-ups, food and
 * combo) and the bomb allowance. Clock reads are the `now` parameter and
 * every random choice of a tick is part of `Draws`.
 */
module Game {
  import opened Config
  import opened Options
  import Difficulty
  import Themes
  import opened Snakes
  import opened Foods
  import PowerUps
  import Bombs

  datatype Key =
    | KeySpace | KeyUp | KeyDown | KeyLeft | KeyRight
    | KeyB | KeyP | KeyQ | KeyR | KeyT | KeyD | KeyF | KeyM | KeyN | OtherKey

  /** Snake and food exist only from the first reset on. */
  datatype Arena = Arena(snake: Snake, food: Food)

  datatype Game = Game(
    state: GameState,
    arena: Option<Arena>,
    score: int,
    scoreMultHalves: nat,
    shield: bool,
    bombs: seq<Bombs.Bomb>,
    bombsAvailable: int,
    bombCooldown: int,
    maxBombs: int,
    powerUps: PowerUps.Manager,
    difficulty: Difficulty.Manager,
    themes: Themes.Manager,
    lastEat: Option<int>)

  /** Ticks between two bomb placements. */
  const BombCooldownTicks: int := 30
  /** Milliseconds without food after which the combo resets. */
  const ComboWindow: int := 2000
  /** Slack added to the bomb radius when testing snake segments. */
  const SegmentSlack: int := 5

  /** What every reachable game satisfies. */
  predicate Inv(g: Game) {
    && (g.state != Menu ==> g.arena.Some?)
    && (g.arena.Some? ==> Valid(g.arena.value.snake) && IsAxisUnit(g.arena.value.snake.direction))
    && 0 <= g.bombsAvailable <= g.maxBombs
    && 0 <= g.bombCooldown
    && (g.scoreMultHalves == 2 || g.scoreMultHalves == 4)
    && Themes.Valid(g.themes)
  }

  function SnakeOf(g: Game): Snake
    requires g.arena.Some?
  {
    g.arena.value.snake
  }

  function FoodOf(g: Game): Food
    requires g.arena.Some?
  {
    g.arena.value.food
  }

  function Settings(g: Game): Difficulty.Settings {
    Difficulty.GetSettings(g.difficulty)
  }

  /** The game as constructed: in the menu, with no snake or food yet. */
  function NewGame(now: int): (g: Game)
    ensures Inv(g)
    ensures g.state == Menu && g.arena.None?
    ensures g.bombsAvailable == 3 && g.maxBombs == 3 && g.bombs == []
    ensures g.difficulty.current == Difficulty.Medium
    ensures g.themes.currentKey == "dark_tech"
  {
    Game(Menu, None, 0, 2, false, [], 3, 0, 3,
         PowerUps.NewManager(now), Difficulty.NewManager(), Themes.NewManager(), None)
  }

  /**
   * A fresh run: one-segment snake at (100, 100) with the preset's initial
   * speed, food on the drawn cell, score and modifiers cleared, no bombs,
   * the allowance full when the preset enables bombs, power-ups cleared,
   * and the state left at MENU.
   */
  function Reset(g: Game, cell: Pos): (r: Game)
    requires IsCell(cell)
    ensures r.state == Menu
    ensures r.arena.Some?
    ensures SnakeOf(r) == NewSnake(100, 100).(speed := Settings(g).initialSpeed)
    ensures FoodOf(r) == NewFood(cell)
    ensures r.score == 0 && r.scoreMultHalves == 2 && !r.shield
    ensures r.bombs == [] && r.bombCooldown == 0
    ensures r.bombsAvailable == if Settings(g).bombEnabled then g.maxBombs else 0
    ensures r.powerUps.powerups == [] && r.powerUps.effects == []
    ensures r.powerUps.lastSpawnTime == g.powerUps.lastSpawnTime
    ensures r.difficulty == g.difficulty && r.themes == g.themes && r.maxBombs == g.maxBombs && r.lastEat == g.lastEat
    ensures Inv(g) ==> Inv(r)
  {
    var settings := Settings(g);
    var snake := NewSnake(100, 100).(speed := settings.initialSpeed);
    g.(state := Menu,
       arena := Some(Arena(snake, NewFood(cell))),
       score := 0,
       scoreMultHalves := 2,
       shield := false,
       bombs := [],
       bombCooldown := 0,
       bombsAvailable := if settings.bombEnabled then g.maxBombs else 0,
       powerUps := PowerUps.Clear(g.powerUps))
  }

  /** Reset, then RUNNING. */
  function StartGame(g: Game, cell: Pos): (r: Game)
    requires IsCell(cell)
    ensures r == Reset(g, cell).(state := Running)
    ensures Inv(g) ==> Inv(r)
  {
    Reset(g, cell).(state := Running)
  }

  /** A bomb is placed at the head exactly when one is left and the cooldown has run out. */
  function PlaceBomb(g: Game): (r: Game)
    requires g.arena.Some? && Valid(SnakeOf(g))
    ensures g.bombsAvailable > 0 && g.bombCooldown <= 0 ==>
              r == g.(bombs := g.bombs + [Bombs.NewBomb(Head(SnakeOf(g)))],
                      bombsAvailable := g.bombsAvailable - 1,
                      bombCooldown := BombCooldownTicks)
    ensures !(g.bombsAvailable > 0 && g.bombCooldown <= 0) ==> r == g
    ensures 0 <= g.bombsAvailable <= g.maxBombs ==> 0 <= r.bombsAvailable <= g.maxBombs
  {
    if g.bombsAvailable > 0 && g.bombCooldown <= 0 then
      g.(bombs := g.bombs + [Bombs.NewBomb(Head(SnakeOf(g)))],
         bombsAvailable := g.bombsAvailable - 1,
         bombCooldown := BombCooldownTicks)
    else g
  }

  /** The direction an arrow key asks for. */
  function DirectionOf(k: Key): Vec
    requires k == KeyUp || k == KeyDown || k == KeyLeft || k == KeyRight
  {
    match k
    case KeyUp => Up
    case KeyDown => Down
    case KeyLeft => Left
    case KeyRight => Right
  }

  predicate IsArrow(k: Key) {
    k == KeyUp || k == KeyDown || k == KeyLeft || k == KeyRight
  }

  /** The state transition table, independent of the handler below. */
  function NextState(s: GameState, k: Key): GameState {
    match (s, k)
    case (Menu, KeySpace) => Running
    case (Running, KeyP) => Paused
    case (Running, KeyQ) => Menu
    case (Paused, KeyP) => Running
    case (GameOver, KeyR) => Menu
    case _ => s
  }

  datatype KeyOutcome<T> = KeyOutcome(game: T, keepRunning: bool)

  /** Keys in the menu: SPACE starts, T and D cycle theme and difficulty, Q quits. */
  function MenuKey(g: Game, k: Key, cell: Pos): (r: KeyOutcome<Game>)
    requires Inv(g) && IsCell(cell) && g.state == Menu
    ensures Inv(r.game) && r.game.state == NextState(g.state, k)
    ensures !r.keepRunning <==> k == KeyQ
    ensures k == KeySpace ==> r.game == StartGame(g, cell)
    ensures k == KeyD ==> r.game == g.(difficulty := Difficulty.CycleDifficulty(g.difficulty).manager)
    ensures k == KeyT ==> r.game == g.(themes := Themes.CycleTheme(g.themes).manager)
    ensures k != KeySpace && k != KeyD && k != KeyT ==> r.game == g
  {
    if k == KeySpace then KeyOutcome(StartGame(g, cell), true)
    else if k == KeyT then KeyOutcome(g.(themes := Themes.CycleTheme(g.themes).manager), true)
    else if k == KeyD then KeyOutcome(g.(difficulty := Difficulty.CycleDifficulty(g.difficulty).manager), true)
    else if k == KeyQ then KeyOutcome(g, false)
    else KeyOutcome(g, true)
  }

  /** Keys while running: arrows steer, B places a bomb, P pauses, Q goes back to the menu, T cycles the theme. */
  function RunningKey(g: Game, k: Key): (r: KeyOutcome<Game>)
    requires Inv(g) && g.state == Running
    ensures Inv(r.game) && r.game.state == NextState(g.state, k)
    ensures r.keepRunning
    ensures IsArrow(k) ==>
              r.game == g.(arena := Some(g.arena.value.(snake := ChangeDirection(SnakeOf(g), DirectionOf(k)))))
    ensures k == KeyB ==> r.game == PlaceBomb(g)
    ensures k == KeyT ==> r.game == g.(themes := Themes.CycleTheme(g.themes).manager)
    ensures !IsArrow(k) && k != KeyB && k != KeyT ==> r.game == g.(state := r.game.state)
  {
    if IsArrow(k) then
      var s := ChangeDirection(SnakeOf(g), DirectionOf(k));
      ChangeDirectionRejectsOnlyReversal(SnakeOf(g), DirectionOf(k));
      KeyOutcome(g.(arena := Some(g.arena.value.(snake := s))), true)
    else if k == KeyB then KeyOutcome(PlaceBomb(g), true)
    else if k == KeyP then KeyOutcome(g.(state := Paused), true)
    else if k == KeyQ then KeyOutcome(g.(state := Menu), true)
    else if k == KeyT then KeyOutcome(g.(themes := Themes.CycleTheme(g.themes).manager), true)
    else KeyOutcome(g, true)
  }

  /** Keys after game over: R resets to the menu, Q quits. */
  function GameOverKey(g: Game, k: Key, cell: Pos): (r: KeyOutcome<Game>)
    requires Inv(g) && IsCell(cell) && g.state == GameOver
    ensures Inv(r.game) && r.game.state == NextState(g.state, k)
    ensures !r.keepRunning <==> k == KeyQ
    ensures k == KeyR ==> r.game == Reset(g, cell)
    ensures k != KeyR ==> r.game == g
  {
    if k == KeyR then KeyOutcome(Reset(g, cell), true)
    else if k == KeyQ then KeyOutcome(g, false)
    else KeyOutcome(g, true)
  }

  /**
   * One key press. `cell` is the random food cell used when the key
   * resets the game. While paused only P acts.
   */
  function HandleKey(g: Game, k: Key, cell: Pos): (r: KeyOutcome<Game>)
    requires Inv(g) && IsCell(cell)
    ensures Inv(r.game)
    ensures r.game.state == NextState(g.state, k)
    ensures !r.keepRunning <==> k == KeyQ && (g.state == Menu || g.state == GameOver)
    ensures g.state == Menu && k == KeySpace ==> r.game == StartGame(g, cell)
    ensures g.state == Menu && k == KeyD ==> r.game == g.(difficulty := Difficulty.CycleDifficulty(g.difficulty).manager)
    ensures g.state == Menu && k == KeyT ==> r.game == g.(themes := Themes.CycleTheme(g.themes).manager)
    ensures g.state == Running && IsArrow(k) ==>
              r.game == g.(arena := Some(g.arena.value.(snake := ChangeDirection(SnakeOf(g), DirectionOf(k)))))
    ensures g.state == Running && k == KeyB ==> r.game == PlaceBomb(g)
    ensures g.state == Running && k == KeyT ==> r.game == g.(themes := Themes.CycleTheme(g.themes).manager)
    ensures g.state == Running && (k == KeyP || k == KeyQ) ==> r.game == g.(state := r.game.state)
    ensures g.state == Paused ==> r.game == g.(state := r.game.state)
    ensures g.state == GameOver && k == KeyR ==> r.game == Reset(g, cell)
    ensures g.state == GameOver && k != KeyR ==> r.game == g
    ensures (IsArrow(k) || k == KeyB) && g.state != Running ==> r.game == g
  {
    match g.state
    case Menu => MenuKey(g, k, cell)
    case Running => RunningKey(g, k)
    case Paused =>
      if k == KeyP then KeyOutcome(g.(state := Running), true) else KeyOutcome(g, true)
    case GameOver => GameOverKey(g, k, cell)
  }

  /** R after game over lands in the MENU, not in a new run: a second key (SPACE) is needed to play. */
  lemma RestartGoesThroughMenu(g: Game, cell: Pos)
    requires Inv(g) && IsCell(cell) && g.state == GameOver
    ensures HandleKey(g, KeyR, cell).game.state == Menu
    ensures HandleKey(HandleKey(g, KeyR, cell).game, KeySpace, cell).game.state == Running
  {
  }

  /** Pausing and resuming returns to the very same game. */
  lemma PauseResumeRoundTrip(g: Game, cell: Pos)
    requires Inv(g) && IsCell(cell) && g.state == Running
    ensures HandleKey(HandleKey(g, KeyP, cell).game, KeyP, cell).game == g
  {
  }

  // ---------------------------------------------------------------------
  // The running tick
  // ---------------------------------------------------------------------

  /** The random choices one tick may need. */
  datatype Draws = Draws(
    spawn: PowerUps.SpawnDraw,
    bursts: seq<int>,
    foodCells: seq<Pos>)

  /** The snake after moving, updating its expression and the wall check (with wrap-around as the preset says). */
  function MovedSnake(g: Game): (s: Snake)
    requires g.arena.Some? && Valid(SnakeOf(g))
    ensures Valid(s)
  {
    WallCheck(UpdateExpression(Move(SnakeOf(g))), Settings(g).wallWrapAround).snake
  }

  /** The move ran into a wall (without wrap-around) or into the body. */
  predicate CrashOnMove(g: Game)
    requires g.arena.Some? && Valid(SnakeOf(g))
  {
    var w := WallCheck(UpdateExpression(Move(SnakeOf(g))), Settings(g).wallWrapAround);
    w.hit || SelfCollision(w.snake)
  }

  /**
   * Move, then the collision checks. A crash with the shield up consumes
   * the shield and play goes on; without it the state becomes GAME_OVER.
   */
  function CollisionPhase(g: Game): (r: Game)
    requires g.arena.Some? && Valid(SnakeOf(g))
    ensures r.arena.Some? && SnakeOf(r) == MovedSnake(g) && FoodOf(r) == FoodOf(g)
    ensures CrashOnMove(g) && g.shield ==> r.state == g.state && !r.shield
    ensures CrashOnMove(g) && !g.shield ==> r.state == GameOver && !r.shield
    ensures !CrashOnMove(g) ==> r.state == g.state && r.shield == g.shield
    ensures r == g.(arena := r.arena, state := r.state, shield := r.shield)
  {
    var g1 := g.(arena := Some(g.arena.value.(snake := MovedSnake(g))));
    if CrashOnMove(g) then
      if g.shield then g1.(shield := false) else g1.(state := GameOver)
    else g1
  }

  /** A bomb whose explosion reaches some segment within its first ten ticks. */
  predicate Lethal(b: Bombs.Bomb, segments: seq<Pos>) {
    b.exploded && b.explosionTimer < 10
    && exists i :: 0 <= i < |segments| && Bombs.IsColliding(b, segments[i].x, segments[i].y, SegmentSlack)
  }

  /**
   * The effective kill test: the explosion counts only while its timer is
   * below 10 (not 15, the bomb's own window), with radius + 5 compared on
   * squared distances.
   */
  lemma LethalIsTenTickRadiusTest(b: Bombs.Bomb, segments: seq<Pos>)
    requires b.radius == Bombs.DefaultRadius
    ensures Lethal(b, segments) <==>
              b.exploded && b.explosionTimer < 10
              && exists i :: 0 <= i < |segments| && DistSq(segments[i].x, segments[i].y, b.pos.x, b.pos.y) < 105 * 105
  {
  }

  predicate ValidBursts(bursts: seq<int>) {
    forall i :: 0 <= i < |bursts| ==> Bombs.ValidBurst(bursts[i])
  }

  /** How many bombs leave the list this tick having exploded. */
  function RemovedCount(bs: seq<Bombs.Bomb>, bursts: seq<int>): nat
    requires |bursts| == |bs| && ValidBursts(bursts)
    decreases |bs|
  {
    if bs == [] then 0
    else
      var b := Bombs.Update(bs[0], bursts[0]);
      (if !b.active && b.exploded then 1 else 0) + RemovedCount(bs[1..], bursts[1..])
  }

  datatype BombsOutcome = BombsOutcome(bombs: seq<Bombs.Bomb>, available: int, hit: bool)

  /**
   * Updates every bomb in order, notes whether one kills the snake, drops
   * the inactive ones and gives back one bomb per exploded bomb dropped,
   * never above `maxBombs`.
   */
  function StepBombs(bs: seq<Bombs.Bomb>, bursts: seq<int>, segments: seq<Pos>, available: int, maxBombs: int): (r: BombsOutcome)
    requires |bursts| == |bs| && ValidBursts(bursts)
    requires available <= maxBombs
    ensures available <= r.available <= maxBombs
    ensures r.available == Min(available + RemovedCount(bs, bursts), maxBombs)
    ensures r.hit <==> exists i :: 0 <= i < |bs| && Lethal(Bombs.Update(bs[i], bursts[i]), segments)
    ensures |r.bombs| <= |bs|
    ensures forall i :: 0 <= i < |r.bombs| ==> r.bombs[i].active
    ensures forall i :: 0 <= i < |bs| && Bombs.Update(bs[i], bursts[i]).active ==> Bombs.Update(bs[i], bursts[i]) in r.bombs
    decreases |bs|
  {
    if bs == [] then BombsOutcome([], available, false)
    else
      var b := Bombs.Update(bs[0], bursts[0]);
      var available' := if !b.active && b.exploded && available < maxBombs then available + 1 else available;
      var rest := StepBombs(bs[1..], bursts[1..], segments, available', maxBombs);
      assert forall i :: 0 <= i < |bs| - 1 ==> bs[1..][i] == bs[i + 1] && bursts[1..][i] == bursts[i + 1];
      BombsOutcome(
        if b.active then [b] + rest.bombs else rest.bombs,
        rest.available,
        Lethal(b, segments) || rest.hit)
  }

  /** Cooldown, then every bomb; a lethal explosion ends the run whatever the shield says. */
  function BombPhase(g: Game, bursts: seq<int>): (r: Game)
    requires g.arena.Some? && Valid(SnakeOf(g))
    requires |bursts| == |g.bombs| && ValidBursts(bursts)
    requires g.bombsAvailable <= g.maxBombs
    ensures r.bombCooldown == if g.bombCooldown > 0 then g.bombCooldown - 1 else g.bombCooldown
    ensures var o := StepBombs(g.bombs, bursts, SnakeOf(g).positions, g.bombsAvailable, g.maxBombs);
      && r.bombs == o.bombs && r.bombsAvailable == o.available
      && r.state == if o.hit then GameOver else g.state
    ensures r == g.(bombCooldown := r.bombCooldown, bombs := r.bombs, bombsAvailable := r.bombsAvailable, state := r.state)
  {
    var o := StepBombs(g.bombs, bursts, SnakeOf(g).positions, g.bombsAvailable, g.maxBombs);
    g.(bombCooldown := if g.bombCooldown > 0 then g.bombCooldown - 1 else g.bombCooldown,
       bombs := o.bombs,
       bombsAvailable := o.available,
       state := if o.hit then GameOver else g.state)
  }

  /** The fields power-up effects act on. */
  function TargetsOf(g: Game): PowerUps.Targets
    requires g.arena.Some?
  {
    PowerUps.Targets(SnakeOf(g).speed, g.shield, g.scoreMultHalves)
  }

  function WithTargets(g: Game, t: PowerUps.Targets): (r: Game)
    requires g.arena.Some?
    ensures r.arena.Some? && TargetsOf(r) == t
    ensures SnakeOf(r) == SnakeOf(g).(speed := t.speed) && FoodOf(r) == FoodOf(g)
    ensures r == g.(arena := r.arena, shield := t.shield, scoreMultHalves := t.multHalves)
  {
    g.(arena := Some(g.arena.value.(snake := SnakeOf(g).(speed := t.speed))),
       shield := t.shield,
       scoreMultHalves := t.multHalves)
  }

  /** The manager update followed by collection at the head, as the tick runs them. */
  function Collect(g: Game, now: int, spawn: PowerUps.SpawnDraw): PowerUps.Collection
    requires g.arena.Some? && Valid(SnakeOf(g)) && PowerUps.ValidDraw(spawn)
  {
    PowerUps.CheckCollection(PowerUps.Update(g.powerUps, now, spawn), TargetsOf(g), Head(SnakeOf(g)), now)
  }

  /**
   * Manager update, collection, then removal of expired effects, in the
   * order the tick calls them.
   */
  function PowerUpPhase(g: Game, now: int, spawn: PowerUps.SpawnDraw): (r: Game)
    requires g.arena.Some? && Valid(SnakeOf(g)) && PowerUps.ValidDraw(spawn)
    ensures r.arena.Some? && SnakeOf(r) == SnakeOf(g).(speed := SnakeOf(r).speed) && FoodOf(r) == FoodOf(g)
    ensures r == g.(arena := r.arena, shield := r.shield, scoreMultHalves := r.scoreMultHalves, powerUps := r.powerUps)
    ensures (g.scoreMultHalves == 2 || g.scoreMultHalves == 4) ==> (r.scoreMultHalves == 2 || r.scoreMultHalves == 4)
    ensures forall i :: 0 <= i < |r.powerUps.effects| ==> !PowerUps.Expired(r.powerUps.effects[i], now)
  {
    var c := Collect(g, now, spawn);
    var rm := PowerUps.RemoveEffects(c.manager.effects, c.targets, now);
    PowerUps.RemoveEffectsMultiplier(c.manager.effects, c.targets, now);
    WithTargets(g, rm.targets).(powerUps := c.manager.(effects := rm.effects))
  }

  /**
   * With one clock reading the phase restores nothing: every record that
   * has expired by `now` is dropped by the manager update before
   * `RemoveEffects` runs, and a record collected this tick ends after
   * `now`. So the fields keep whatever the collection left.
   */
  lemma PowerUpPhaseNeverRestores(g: Game, now: int, spawn: PowerUps.SpawnDraw)
    requires g.arena.Some? && Valid(SnakeOf(g)) && PowerUps.ValidDraw(spawn)
    ensures TargetsOf(PowerUpPhase(g, now, spawn)) == Collect(g, now, spawn).targets
  {
    var m1 := PowerUps.Update(g.powerUps, now, spawn);
    var c := Collect(g, now, spawn);
    var es := c.manager.effects;
    assert forall i :: 0 <= i < |es| ==> !PowerUps.Expired(es[i], now);
  }

  /**
   * Concretely: a shield whose record has expired stays up. The record is
   * gone after the tick, but the shield flag is still set, so the shield
   * outlives its 3-second duration until a crash consumes it.
   */
  lemma ExpiredShieldOutlivesItsRecord(g: Game, now: int, spawn: PowerUps.SpawnDraw, endTime: int)
    requires g.arena.Some? && Valid(SnakeOf(g)) && PowerUps.ValidDraw(spawn)
    requires g.shield && now > endTime
    requires g.powerUps.powerups == [] && now - g.powerUps.lastSpawnTime <= PowerUps.SpawnInterval
    requires g.powerUps.effects == [PowerUps.Effect(PowerUps.Shield, endTime, None)]
    ensures PowerUpPhase(g, now, spawn).shield
    ensures PowerUpPhase(g, now, spawn).powerUps.effects == []
  {
    PowerUpPhaseNeverRestores(g, now, spawn);
    var m1 := PowerUps.Update(g.powerUps, now, spawn);
    assert m1.powerups == [];
  }

  /**
   * The order the effect records need: restore expired records first, then
   * update the manager and collect.
   */
  function PowerUpPhaseRestoring(g: Game, now: int, spawn: PowerUps.SpawnDraw): (r: Game)
    requires g.arena.Some? && Valid(SnakeOf(g)) && PowerUps.ValidDraw(spawn)
    ensures r.arena.Some? && SnakeOf(r) == SnakeOf(g).(speed := SnakeOf(r).speed) && FoodOf(r) == FoodOf(g)
    ensures r == g.(arena := r.arena, shield := r.shield, scoreMultHalves := r.scoreMultHalves, powerUps := r.powerUps)
    ensures (g.scoreMultHalves == 2 || g.scoreMultHalves == 4) ==> (r.scoreMultHalves == 2 || r.scoreMultHalves == 4)
    ensures forall i :: 0 <= i < |r.powerUps.effects| ==> !PowerUps.Expired(r.powerUps.effects[i], now)
  {
    PowerUps.RemoveEffectsMultiplier(g.powerUps.effects, TargetsOf(g), now);
    var c := RestoringCollection(g, now, spawn);
    WithTargets(g, c.targets).(powerUps := c.manager)
  }

  /** Removal of expired effects, then the manager update and collection at the head. */
  function RestoringCollection(g: Game, now: int, spawn: PowerUps.SpawnDraw): PowerUps.Collection
    requires g.arena.Some? && Valid(SnakeOf(g)) && PowerUps.ValidDraw(spawn)
  {
    var rm := PowerUps.RemoveEffects(g.powerUps.effects, TargetsOf(g), now);
    var m1 := PowerUps.Update(g.powerUps.(effects := rm.effects), now, spawn);
    PowerUps.CheckCollection(m1, rm.targets, Head(SnakeOf(g)), now)
  }

  /** In the restoring order, the item collected this tick is of kind `k`. */
  predicate CollectedKind(g: Game, now: int, spawn: PowerUps.SpawnDraw, k: PowerUps.Kind)
    requires g.arena.Some? && Valid(SnakeOf(g)) && PowerUps.ValidDraw(spawn)
  {
    var c := RestoringCollection(g, now, spawn);
    c.collected.Some? && c.collected.value.kind == k
  }

  /** The restoring order switches off the very shield the tick as written leaves up. */
  lemma RestoringPhaseEndsTheShield(g: Game, now: int, spawn: PowerUps.SpawnDraw, endTime: int)
    requires g.arena.Some? && Valid(SnakeOf(g)) && PowerUps.ValidDraw(spawn)
    requires g.shield && now > endTime
    requires g.powerUps.powerups == [] && now - g.powerUps.lastSpawnTime <= PowerUps.SpawnInterval
    requires g.powerUps.effects == [PowerUps.Effect(PowerUps.Shield, endTime, None)]
    ensures !PowerUpPhaseRestoring(g, now, spawn).shield
    ensures PowerUpPhaseRestoring(g, now, spawn).powerUps.effects == []
  {
    assert PowerUps.AnyExpired(g.powerUps.effects, PowerUps.Shield, now) by {
      assert PowerUps.Expired(g.powerUps.effects[0], now);
    }
    assert PowerUps.Update(g.powerUps, now, spawn).powerups == [];
    RestoringPhaseShield(g, now, spawn);
    var rm := PowerUps.RemoveEffects(g.powerUps.effects, TargetsOf(g), now);
    assert PowerUps.Update(g.powerUps.(effects := rm.effects), now, spawn).powerups == [];
  }

  /**
   * The head picks up an item of kind `k` this tick: the first item it
   * touches among those the manager update keeps or spawns. Both phase
   * orders collect the same item.
   */
  predicate PicksUp(pm: PowerUps.Manager, head: Pos, now: int, spawn: PowerUps.SpawnDraw, k: PowerUps.Kind)
    requires PowerUps.ValidDraw(spawn)
  {
    var ps := PowerUps.Update(pm, now, spawn).powerups;
    var i := PowerUps.FirstCollision(ps, head);
    i.Some? && ps[i.value].kind == k
  }

  /**
   * As the tick orders the calls, power-ups only ever switch the shield on
   * and the multiplier up: afterwards the shield is up iff it was up or a
   * shield was picked up, and likewise for double score.
   */
  lemma PowerUpPhaseOutcome(g: Game, now: int, spawn: PowerUps.SpawnDraw)
    requires g.arena.Some? && Valid(SnakeOf(g)) && PowerUps.ValidDraw(spawn)
    ensures var r := PowerUpPhase(g, now, spawn);
      && (r.shield <==> g.shield || PicksUp(g.powerUps, Head(SnakeOf(g)), now, spawn, PowerUps.Shield))
      && (r.scoreMultHalves == 4 <==>
            g.scoreMultHalves == 4 || PicksUp(g.powerUps, Head(SnakeOf(g)), now, spawn, PowerUps.DoubleScore))
  {
    PowerUpPhaseNeverRestores(g, now, spawn);
  }

  /** Both orders pick up the same item: removing records does not change the items. */
  lemma RestoringPicksUp(g: Game, now: int, spawn: PowerUps.SpawnDraw, k: PowerUps.Kind)
    requires g.arena.Some? && Valid(SnakeOf(g)) && PowerUps.ValidDraw(spawn)
    ensures CollectedKind(g, now, spawn, k) <==> PicksUp(g.powerUps, Head(SnakeOf(g)), now, spawn, k)
  {
    var rm := PowerUps.RemoveEffects(g.powerUps.effects, TargetsOf(g), now);
    assert PowerUps.Update(g.powerUps.(effects := rm.effects), now, spawn).powerups
        == PowerUps.Update(g.powerUps, now, spawn).powerups;
  }

  /**
   * In the restoring order an expired shield record takes the shield away:
   * it is up afterwards iff it was up with no expired shield record, or a
   * shield was picked up.
   */
  lemma RestoringPhaseShield(g: Game, now: int, spawn: PowerUps.SpawnDraw)
    requires g.arena.Some? && Valid(SnakeOf(g)) && PowerUps.ValidDraw(spawn)
    ensures PowerUpPhaseRestoring(g, now, spawn).shield <==>
              (g.shield && !PowerUps.AnyExpired(g.powerUps.effects, PowerUps.Shield, now))
              || PicksUp(g.powerUps, Head(SnakeOf(g)), now, spawn, PowerUps.Shield)
  {
    PowerUps.RemoveEffectsShield(g.powerUps.effects, TargetsOf(g), now);
    RestoringPicksUp(g, now, spawn, PowerUps.Shield);
  }

  /**
   * In the restoring order an expired double-score record takes the
   * multiplier back: it is 2.0 afterwards iff it was 2.0 with no expired
   * double-score record, or double score was picked up.
   */
  lemma RestoringPhaseMultiplier(g: Game, now: int, spawn: PowerUps.SpawnDraw)
    requires g.arena.Some? && Valid(SnakeOf(g)) && PowerUps.ValidDraw(spawn)
    ensures PowerUpPhaseRestoring(g, now, spawn).scoreMultHalves == 4 <==>
              (g.scoreMultHalves == 4 && !PowerUps.AnyExpired(g.powerUps.effects, PowerUps.DoubleScore, now))
              || PicksUp(g.powerUps, Head(SnakeOf(g)), now, spawn, PowerUps.DoubleScore)
  {
    PowerUps.RemoveEffectsMultiplier(g.powerUps.effects, TargetsOf(g), now);
    RestoringPicksUp(g, now, spawn, PowerUps.DoubleScore);
  }

  /**
   * When no effect record has expired, the order does not matter: both
   * phases produce the same game.
   */
  lemma PhaseOrdersAgreeWithoutExpiry(g: Game, now: int, spawn: PowerUps.SpawnDraw)
    requires g.arena.Some? && Valid(SnakeOf(g)) && PowerUps.ValidDraw(spawn)
    requires forall i :: 0 <= i < |g.powerUps.effects| ==> !PowerUps.Expired(g.powerUps.effects[i], now)
    ensures PowerUpPhase(g, now, spawn) == PowerUpPhaseRestoring(g, now, spawn)
  {
    var rm := PowerUps.RemoveEffects(g.powerUps.effects, TargetsOf(g), now);
    assert rm.effects == g.powerUps.effects && rm.targets == TargetsOf(g);
    assert g.powerUps.(effects := rm.effects) == g.powerUps;
    var c := Collect(g, now, spawn);
    assert RestoringCollection(g, now, spawn) == c;
    var es := c.manager.effects;
    assert forall i :: 0 <= i < |es| ==> !PowerUps.Expired(es[i], now);
    var rm2 := PowerUps.RemoveEffects(es, c.targets, now);
    assert rm2.effects == es && rm2.targets == c.targets;
    assert c.manager.(effects := rm2.effects) == c.manager;
  }

  /** Points for one food: `int(10 * multiplier * difficulty multiplier)`, both counted in halves. */
  function Points(multHalves: nat, difficultyHalves: nat): nat {
    (ScorePerFood * multHalves * difficultyHalves) / 4
  }

  /**
   * The truncation never loses anything for the multipliers that occur
   * (1.0 or 2.0 from power-ups, 0.5, 1.0 or 2.0 from the presets), and the
   * values are these.
   */
  lemma PointsAreExact(multHalves: nat, level: Difficulty.Level)
    requires multHalves == 2 || multHalves == 4
    ensures var d := Difficulty.Preset(level).scoreMultHalves;
      (ScorePerFood * multHalves * d) % 4 == 0
      && 4 * Points(multHalves, d) == ScorePerFood * multHalves * d
      && Points(multHalves, d) >= 5
  {
  }

  /** Double score on Easy gives 10 * 2.0 * 0.5 = 10 points. */
  lemma DoubleScoreOnEasy()
    ensures Points(4, Difficulty.Preset(Difficulty.Easy).scoreMultHalves) == 10
  {
  }

  /**
   * Food and combo: eating grows the snake, adds the points and moves the
   * food off the snake; otherwise the combo resets once more than two
   * seconds have passed since the last meal (the first tick only starts
   * the clock).
   */
  function FoodPhase(g: Game, now: int, cells: seq<Pos>): (r: Game)
    requires g.arena.Some? && Valid(SnakeOf(g))
    requires forall i :: 0 <= i < |cells| ==> IsCell(cells[i])
    requires Head(SnakeOf(g)) == FoodOf(g).position ==>
               exists i :: 0 <= i < |cells| && cells[i] !in SnakeOf(g).positions
    ensures r.arena.Some? && SnakeOf(r).positions == SnakeOf(g).positions
    ensures SnakeOf(r).direction == SnakeOf(g).direction
    ensures r == g.(arena := r.arena, score := r.score, lastEat := r.lastEat)
    ensures Head(SnakeOf(g)) == FoodOf(g).position ==>
              && SnakeOf(r) == Grow(SnakeOf(g))
              && r.score == g.score + Points(g.scoreMultHalves, Settings(g).scoreMultHalves)
              && IsCell(FoodOf(r).position) && FoodOf(r).position !in SnakeOf(r).positions
              && r.lastEat == Some(now)
    ensures Head(SnakeOf(g)) != FoodOf(g).position ==>
              var last := g.lastEat.GetOr(now);
              && r.score == g.score && FoodOf(r) == FoodOf(g)
              && (now - last > ComboWindow ==> SnakeOf(r) == ResetCombo(SnakeOf(g)) && r.lastEat == Some(now))
              && (now - last <= ComboWindow ==> SnakeOf(r) == SnakeOf(g) && r.lastEat == Some(last))
  {
    var a := g.arena.value;
    if Head(a.snake) == a.food.position then
      var s := Grow(a.snake);
      var points := Points(g.scoreMultHalves, Settings(g).scoreMultHalves);
      g.(arena := Some(Arena(s, Respawn(a.food, s.positions, cells))),
         score := g.score + points,
         lastEat := Some(now))
    else
      var last := g.lastEat.GetOr(now);
      if now - last > ComboWindow then
        g.(arena := Some(a.(snake := ResetCombo(a.snake))), lastEat := Some(now))
      else
        g.(lastEat := Some(last))
  }

  /** The move reaches the food. */
  predicate Eats(g: Game)
    requires g.arena.Some? && Valid(SnakeOf(g))
  {
    Head(MovedSnake(g)) == FoodOf(g).position
  }

  /** Some bomb's explosion reaches the moved snake on this tick. */
  predicate BombHit(g: Game, bursts: seq<int>)
    requires g.arena.Some? && Valid(SnakeOf(g))
    requires |bursts| == |g.bombs| && ValidBursts(bursts)
  {
    exists i :: 0 <= i < |g.bombs| && Lethal(Bombs.Update(g.bombs[i], bursts[i]), MovedSnake(g).positions)
  }

  /** The draws suffice for the tick: one per bomb, a valid spawn, grid cells, and a free cell if the food is eaten. */
  predicate TickReady(g: Game, d: Draws) {
    && Inv(g)
    && (g.state == Running ==>
          && |d.bursts| == |g.bombs| && ValidBursts(d.bursts)
          && PowerUps.ValidDraw(d.spawn)
          && (forall i :: 0 <= i < |d.foodCells| ==> IsCell(d.foodCells[i]))
          && (Eats(g) ==> exists i :: 0 <= i < |d.foodCells| && d.foodCells[i] !in MovedSnake(g).positions))
  }

  /**
   * One tick. Outside RUNNING nothing happens. While RUNNING: move and
   * collisions, bombs, power-ups, then food or combo. Setting GAME_OVER
   * does not end the tick early: the later phases still run. The power-up
   * phase restores expired effects before the manager update discards
   * their records (`PowerUpPhaseRestoring`); `TickAsWritten` runs them in
   * the game's order, which with one clock reading restores nothing.
   */
  function Tick(g: Game, now: int, d: Draws): (r: Game)
    requires TickReady(g, d)
    ensures Inv(r)
    ensures g.state != Running ==> r == g
    ensures g.state == Running ==>
              && (r.state == GameOver <==> (CrashOnMove(g) && !g.shield) || BombHit(g, d.bursts))
              && (r.state != GameOver ==> r.state == Running)
              && SnakeOf(r).positions == MovedSnake(g).positions
              && SnakeOf(r).direction == SnakeOf(g).direction
              && r.bombCooldown == Max(g.bombCooldown - 1, 0)
              && r.difficulty == g.difficulty && r.themes == g.themes && r.maxBombs == g.maxBombs
    ensures g.state == Running && Eats(g) ==>
              && r.score == g.score + Points(r.scoreMultHalves, Settings(g).scoreMultHalves)
              && SnakeOf(r).growFlag && SnakeOf(r).combo == MovedSnake(g).combo + 1
              && FoodOf(r).position !in SnakeOf(r).positions
              && r.lastEat == Some(now)
    ensures g.state == Running && !Eats(g) ==> r.score == g.score && FoodOf(r) == FoodOf(g)
  {
    if g.state != Running then g
    else
      var g1 := CollisionPhase(g);
      var g2 := BombPhase(g1, d.bursts);
      var g3 := PowerUpPhaseRestoring(g2, now, d.spawn);
      assert SnakeOf(g3).positions == MovedSnake(g).positions;
      var r := FoodPhase(g3, now, d.foodCells);
      assert g2.state == GameOver <==> (CrashOnMove(g) && !g.shield) || BombHit(g, d.bursts);
      r
  }

  /**
   * The tick with the power-up calls in the program's own order: manager
   * update, collection, then removal of expired effects
   * (`PowerUpPhase`). Everything else is as in `Tick`.
   */
  function TickAsWritten(g: Game, now: int, d: Draws): (r: Game)
    requires TickReady(g, d)
    ensures Inv(r)
    ensures g.state != Running ==> r == g
    ensures g.state == Running ==>
              && (r.state == GameOver <==> (CrashOnMove(g) && !g.shield) || BombHit(g, d.bursts))
              && (r.state != GameOver ==> r.state == Running)
              && SnakeOf(r).positions == MovedSnake(g).positions
              && r.difficulty == g.difficulty && r.themes == g.themes && r.maxBombs == g.maxBombs
    ensures g.state == Running && Eats(g) ==>
              r.score == g.score + Points(r.scoreMultHalves, Settings(g).scoreMultHalves)
    ensures g.state == Running && !Eats(g) ==> r.score == g.score && FoodOf(r) == FoodOf(g)
  {
    if g.state != Running then g
    else
      var g1 := CollisionPhase(g);
      var g2 := BombPhase(g1, d.bursts);
      var g3 := PowerUpPhase(g2, now, d.spawn);
      assert SnakeOf(g3).positions == MovedSnake(g).positions;
      var r := FoodPhase(g3, now, d.foodCells);
      assert g2.state == GameOver <==> (CrashOnMove(g) && !g.shield) || BombHit(g, d.bursts);
      r
  }

  /**
   * What the tick leaves of the shield and the multiplier: the shield is
   * up iff it was up, survived the move and has no expired record, or a
   * shield is picked up; double score holds iff it held with no expired
   * record, or it is picked up.
   */
  lemma TickPowerUpOutcome(g: Game, now: int, d: Draws)
    requires TickReady(g, d) && g.state == Running
    ensures Tick(g, now, d).shield <==>
              (g.shield && !CrashOnMove(g) && !PowerUps.AnyExpired(g.powerUps.effects, PowerUps.Shield, now))
              || PicksUp(g.powerUps, Head(MovedSnake(g)), now, d.spawn, PowerUps.Shield)
    ensures Tick(g, now, d).scoreMultHalves == 4 <==>
              (g.scoreMultHalves == 4 && !PowerUps.AnyExpired(g.powerUps.effects, PowerUps.DoubleScore, now))
              || PicksUp(g.powerUps, Head(MovedSnake(g)), now, d.spawn, PowerUps.DoubleScore)
  {
    var g2 := BombPhase(CollisionPhase(g), d.bursts);
    RestoringPhaseShield(g2, now, d.spawn);
    RestoringPhaseMultiplier(g2, now, d.spawn);
  }

  /**
   * The same for the program's order: power-ups never take the shield or
   * double score away, so an expired record changes nothing. Only a crash
   * ends the shield.
   */
  lemma TickAsWrittenPowerUpOutcome(g: Game, now: int, d: Draws)
    requires TickReady(g, d) && g.state == Running
    ensures TickAsWritten(g, now, d).shield <==>
              (g.shield && !CrashOnMove(g)) || PicksUp(g.powerUps, Head(MovedSnake(g)), now, d.spawn, PowerUps.Shield)
    ensures TickAsWritten(g, now, d).scoreMultHalves == 4 <==>
              g.scoreMultHalves == 4 || PicksUp(g.powerUps, Head(MovedSnake(g)), now, d.spawn, PowerUps.DoubleScore)
  {
    var g2 := BombPhase(CollisionPhase(g), d.bursts);
    PowerUpPhaseOutcome(g2, now, d.spawn);
  }

  /** The two ticks differ only when some effect record has expired. */
  lemma TickOrdersAgreeWithoutExpiry(g: Game, now: int, d: Draws)
    requires TickReady(g, d)
    requires forall i :: 0 <= i < |g.powerUps.effects| ==> !PowerUps.Expired(g.powerUps.effects[i], now)
    ensures TickAsWritten(g, now, d) == Tick(g, now, d)
  {
    if g.state == Running {
      var g2 := BombPhase(CollisionPhase(g), d.bursts);
      PhaseOrdersAgreeWithoutExpiry(g2, now, d.spawn);
    }
  }

  /**
   * Setting GAME_OVER does not stop the tick: when a fatal crash or a bomb
   * coincides with reaching the food, the food is still scored and the
   * snake still grows.
   */
  lemma GameOverStillScores(g: Game, now: int, d: Draws)
    requires TickReady(g, d) && g.state == Running
    requires (CrashOnMove(g) && !g.shield) || BombHit(g, d.bursts)
    requires Eats(g)
    ensures Tick(g, now, d).state == GameOver
    ensures Tick(g, now, d).score > g.score
    ensures SnakeOf(Tick(g, now, d)).growFlag
  {
    var r := Tick(g, now, d);
    PointsAreExact(r.scoreMultHalves, g.difficulty.current);
  }

  /**
   * Growth uses the global increment and cap, not the preset's: a run
   * started on Easy (speed 6, preset cap 15, preset increment 1) is at
   * speed 16 after five foods.
   */
  lemma GrowthIgnoresThePreset(g: Game, cell: Pos)
    requires IsCell(cell) && g.difficulty.current == Difficulty.Easy
    ensures GrowTimes(SnakeOf(StartGame(g, cell)), 5).speed == 16
    ensures GrowTimes(SnakeOf(StartGame(g, cell)), 5).speed > Settings(g).maxSpeed
  {
    GrowTimesSpeed(SnakeOf(StartGame(g, cell)), 5);
  }
  /**
   * A running game without wrap-around whose head has just left the window
   * along its current direction crashes on its next move whatever key is
   * pressed first: the one turn that could bring the head back is the
   * refused reversal.
   */
  lemma OutsideHeadCrashesAfterAnyKey(h: Game, prev: Snake, k: Key, cell: Pos)
    requires Inv(h) && h.state == Running && IsCell(cell)
    requires !Settings(h).wallWrapAround
    requires Valid(prev) && IsAxisUnit(prev.direction)
    requires InWindow(Head(prev)) && !InWindow(Head(Move(prev)))
    requires Head(SnakeOf(h)) == Head(Move(prev)) && SnakeOf(h).direction == prev.direction
    ensures HandleKey(h, k, cell).game.state == Running ==> CrashOnMove(HandleKey(h, k, cell).game)
  {
    var g2 := HandleKey(h, k, cell).game;
    if g2.state == Running {
      var turn := if IsArrow(k) then DirectionOf(k) else prev.direction;
      ExitedHeadStaysOut(prev, turn);
      var s2 := SnakeOf(g2);
      if IsArrow(k) {
        assert s2 == ChangeDirection(SnakeOf(h), turn);
      } else {
        assert s2 == SnakeOf(h) && turn == prev.direction;
      }
      assert Head(s2) == Head(Move(prev));
      assert s2.direction == ChangeDirection(Move(prev), turn).direction;
      assert !InWindow(Head(Move(s2)));
      assert Settings(g2) == Settings(h);
      CrashWhenMoveLeavesWindow(g2);
    }
  }

  /** Without wrap-around, a move that takes the head out of the window is a crash. */
  lemma CrashWhenMoveLeavesWindow(g: Game)
    requires g.arena.Some? && Valid(SnakeOf(g)) && !Settings(g).wallWrapAround
    requires !InWindow(Head(Move(SnakeOf(g))))
    ensures CrashOnMove(g)
  {
    assert Head(UpdateExpression(Move(SnakeOf(g)))) == Head(Move(SnakeOf(g)));
  }

  /**
   * Without wrap-around the shield only postpones a wall death: a tick
   * whose move left the window and whose crash the shield absorbed leaves
   * the game running, and whatever key is pressed next, the following
   * move of a still-running game crashes again.
   */
  lemma ShieldOnlyPostponesWallDeath(g: Game, now: int, d: Draws, k: Key, cell: Pos)
    requires TickReady(g, d) && g.state == Running && IsCell(cell)
    requires !Settings(g).wallWrapAround
    requires InWindow(Head(SnakeOf(g))) && !InWindow(Head(Move(SnakeOf(g))))
    requires g.shield && !BombHit(g, d.bursts)
    ensures Tick(g, now, d).state == Running
    ensures HandleKey(Tick(g, now, d), k, cell).game.state == Running ==>
              CrashOnMove(HandleKey(Tick(g, now, d), k, cell).game)
  {
    var s := SnakeOf(g);
    assert CrashOnMove(g);
    var r := Tick(g, now, d);
    assert Head(SnakeOf(r)) == Head(Move(s));
    OutsideHeadCrashesAfterAnyKey(r, s, k, cell);
  }
}
