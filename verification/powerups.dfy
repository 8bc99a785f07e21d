/**
 * Power-ups: collectible items with a lifetime, and the manager that
 * spawns them, collects them and applies and restores their timed
 * effects. Times are milliseconds supplied by the caller; the score
 * multiplier is counted in halves (1.0 is 2, 2.0 is 4).
 */
module PowerUps {
  import opened Config
  import opened Options
  import opened Seqs

  datatype Kind = SlowPotion | Shield | DoubleScore

  /** Milliseconds an uncollected item stays on the field. */
  const Lifetime: int := 10000
  /** Milliseconds between two spawns. */
  const SpawnInterval: int := 15000

  /** Milliseconds an effect lasts once collected. */
  function Duration(kind: Kind): int {
    match kind
    case SlowPotion => 5000
    case Shield => 3000
    case DoubleScore => 8000
  }

  datatype PowerUp = PowerUp(pos: Pos, kind: Kind, active: bool, spawnTime: int, pulseTimer: int)

  function NewPowerUp(pos: Pos, kind: Kind, now: int): (p: PowerUp)
    ensures p.active && p.spawnTime == now && p.pos == pos && p.kind == kind && p.pulseTimer == 0
  {
    PowerUp(pos, kind, true, now, 0)
  }

  /** Advances the pulse and deactivates the item once its lifetime has passed; it never reactivates. */
  function UpdatePowerUp(p: PowerUp, now: int): (r: PowerUp)
    ensures r.active <==> p.active && now - p.spawnTime <= Lifetime
    ensures r == p.(active := r.active, pulseTimer := p.pulseTimer + 1)
  {
    var p1 := p.(pulseTimer := p.pulseTimer + 1);
    if now - p.spawnTime > Lifetime then p1.(active := false) else p1
  }

  /** The head touches the item when it is less than one cell away on both axes. */
  function Collides(p: PowerUp, head: Pos): bool {
    Abs(head.x - p.pos.x) < GridSize && Abs(head.y - p.pos.y) < GridSize
  }

  /** On grid-aligned positions, touching is the same as standing on the same cell. */
  lemma CollidesOnGridIsEquality(p: PowerUp, head: Pos)
    requires head.x % GridSize == 0 && head.y % GridSize == 0
    requires p.pos.x % GridSize == 0 && p.pos.y % GridSize == 0
    ensures Collides(p, head) <==> head == p.pos
  {
    DifferenceOfMultiples(head.x, p.pos.x);
    DifferenceOfMultiples(head.y, p.pos.y);
  }

  lemma DifferenceOfMultiples(a: int, b: int)
    requires a % GridSize == 0 && b % GridSize == 0
    ensures Abs(a - b) < GridSize ==> a == b
  {
    var qa := a / GridSize;
    var qb := b / GridSize;
    assert a == GridSize * qa;
    assert b == GridSize * qb;
    assert a - b == GridSize * (qa - qb);
    if qa - qb >= 1 {
      assert a - b >= GridSize;
    } else if qa - qb <= -1 {
      assert a - b <= -GridSize;
    }
  }

  /** A record of an applied effect: its kind, when it ends, and the value to restore (speed only). */
  datatype Effect = Effect(kind: Kind, endTime: int, original: Option<int>)

  /** The game fields effects act on. */
  datatype Targets = Targets(speed: int, shield: bool, multHalves: nat)

  datatype Manager = Manager(powerups: seq<PowerUp>, effects: seq<Effect>, lastSpawnTime: int)

  function NewManager(now: int): (m: Manager)
    ensures m.powerups == [] && m.effects == [] && m.lastSpawnTime == now
  {
    Manager([], [], now)
  }

  /** The random spawn choice: a cell column and row and a kind. */
  datatype SpawnDraw = SpawnDraw(col: int, row: int, kind: Kind)

  /** `randint(2, cells - 3)` on both axes: two cells clear of every edge. */
  predicate ValidDraw(d: SpawnDraw) {
    2 <= d.col <= WindowWidth / GridSize - 3 && 2 <= d.row <= WindowHeight / GridSize - 3
  }

  /** The item a spawn with draw `d` creates at time `now`. */
  function Spawned(d: SpawnDraw, now: int): PowerUp {
    NewPowerUp(Pos(d.col * GridSize, d.row * GridSize), d.kind, now)
  }

  function SpawnRandom(m: Manager, d: SpawnDraw, now: int): (r: Manager)
    requires ValidDraw(d)
    ensures |r.powerups| == |m.powerups| + 1 && r.powerups[..|m.powerups|] == m.powerups
    ensures r.powerups[|m.powerups|] == NewPowerUp(Pos(d.col * GridSize, d.row * GridSize), d.kind, now)
    ensures var p := r.powerups[|m.powerups|].pos;
      IsCell(p) && InSpawnArea(p) && p.x / GridSize == d.col && p.y / GridSize == d.row
    ensures r.effects == m.effects && r.lastSpawnTime == m.lastSpawnTime
  {
    m.(powerups := m.powerups + [Spawned(d, now)])
  }

  /** The area spawned items land in: cells 2 .. 45 across and 2 .. 33 down. */
  predicate InSpawnArea(p: Pos) {
    2 * GridSize <= p.x <= (WindowWidth / GridSize - 3) * GridSize
    && 2 * GridSize <= p.y <= (WindowHeight / GridSize - 3) * GridSize
  }

  function UpdateAll(ps: seq<PowerUp>, now: int): (r: seq<PowerUp>)
    ensures |r| == |ps|
    ensures forall i :: 0 <= i < |ps| ==> r[i] == UpdatePowerUp(ps[i], now)
  {
    seq(|ps|, i requires 0 <= i < |ps| => UpdatePowerUp(ps[i], now))
  }

  /** The filter the manager keeps items by. */
  predicate IsActive(p: PowerUp) {
    p.active
  }

  /**
   * Ages every item and keeps the ones still active, in order: each item
   * that survives its ageing is kept, and nothing else appears.
   */
  function AgeAndPrune(ps: seq<PowerUp>, now: int): (r: seq<PowerUp>)
    ensures forall i :: 0 <= i < |r| ==> r[i].active
    ensures forall p :: p in ps && UpdatePowerUp(p, now).active ==> UpdatePowerUp(p, now) in r
    ensures forall q :: q in r ==> exists p :: p in ps && q == UpdatePowerUp(p, now)
  {
    var us := UpdateAll(ps, now);
    assert forall p :: p in ps ==> UpdatePowerUp(p, now) in us by {
      forall p | p in ps ensures UpdatePowerUp(p, now) in us {
        var i :| 0 <= i < |ps| && ps[i] == p;
      }
    }
    Filter(us, IsActive)
  }

  /** An item appended before the update that survives it ends the list after it. */
  lemma AgeAndPruneAppend(ps: seq<PowerUp>, x: PowerUp, now: int)
    requires UpdatePowerUp(x, now).active
    ensures AgeAndPrune(ps + [x], now) == AgeAndPrune(ps, now) + [UpdatePowerUp(x, now)]
  {
    assert UpdateAll(ps + [x], now) == UpdateAll(ps, now) + [UpdatePowerUp(x, now)];
    FilterAppend(UpdateAll(ps, now), [UpdatePowerUp(x, now)], IsActive);
  }

  predicate Expired(e: Effect, now: int) {
    now > e.endTime
  }

  /**
   * One manager update: spawn when the interval has passed, age every item
   * and drop the inactive ones, and drop every expired effect record
   * WITHOUT restoring what it changed.
   */
  function Update(m: Manager, now: int, d: SpawnDraw): (r: Manager)
    requires ValidDraw(d)
    ensures now - m.lastSpawnTime > SpawnInterval ==> r.lastSpawnTime == now
    ensures now - m.lastSpawnTime <= SpawnInterval ==> r.lastSpawnTime == m.lastSpawnTime
    ensures now - m.lastSpawnTime > SpawnInterval ==>
              |r.powerups| > 0 && r.powerups[|r.powerups| - 1] == UpdatePowerUp(Spawned(d, now), now)
    ensures forall p :: p in m.powerups && UpdatePowerUp(p, now).active ==> UpdatePowerUp(p, now) in r.powerups
    ensures forall q :: q in r.powerups ==>
              (exists p :: p in m.powerups && q == UpdatePowerUp(p, now))
              || (now - m.lastSpawnTime > SpawnInterval && q == UpdatePowerUp(Spawned(d, now), now))
    ensures forall i :: 0 <= i < |r.powerups| ==> r.powerups[i].active
    ensures r.effects == Filter(m.effects, (e: Effect) => !Expired(e, now))
    ensures forall i :: 0 <= i < |r.effects| ==> !Expired(r.effects[i], now)
  {
    var effects := Filter(m.effects, (e: Effect) => !Expired(e, now));
    if now - m.lastSpawnTime > SpawnInterval then
      var m1 := SpawnRandom(m, d, now).(lastSpawnTime := now);
      AgeAndPruneAppend(m.powerups, Spawned(d, now), now);
      m1.(powerups := AgeAndPrune(m1.powerups, now), effects := effects)
    else
      m.(powerups := AgeAndPrune(m.powerups, now), effects := effects)
  }

  /**
   * The items after an update are the aged items still active, in order,
   * followed by the new item exactly when the interval has passed; so the
   * update adds exactly one item to the survivors when it spawns, and when
   * every item is still fresh none is lost.
   */
  lemma UpdateSpawnsOne(m: Manager, now: int, d: SpawnDraw)
    requires ValidDraw(d)
    ensures Update(m, now, d).powerups
              == AgeAndPrune(m.powerups, now) + (if now - m.lastSpawnTime > SpawnInterval then [UpdatePowerUp(Spawned(d, now), now)] else [])
    ensures (forall i :: 0 <= i < |m.powerups| ==> m.powerups[i].active && now - m.powerups[i].spawnTime <= Lifetime) ==>
              |Update(m, now, d).powerups| == |m.powerups| + (if now - m.lastSpawnTime > SpawnInterval then 1 else 0)
  {
    if now - m.lastSpawnTime > SpawnInterval {
      AgeAndPruneAppend(m.powerups, Spawned(d, now), now);
    }
    if forall i :: 0 <= i < |m.powerups| ==> m.powerups[i].active && now - m.powerups[i].spawnTime <= Lifetime {
      var us := UpdateAll(m.powerups, now);
      assert forall i :: 0 <= i < |us| ==> IsActive(us[i]);
    }
  }

  /** Index of the first item the head touches, in list order. */
  function FirstCollision(ps: seq<PowerUp>, head: Pos): (r: Option<nat>)
    ensures r.None? <==> forall i :: 0 <= i < |ps| ==> !Collides(ps[i], head)
    ensures r.Some? ==> (r.value < |ps| && Collides(ps[r.value], head)
                         && forall j :: 0 <= j < r.value ==> !Collides(ps[j], head))
  {
    if ps == [] then None
    else if Collides(ps[0], head) then Some(0)
    else
      match FirstCollision(ps[1..], head)
      case None => None
      case Some(i) => Some(i + 1)
  }

  datatype Applied = Applied(targets: Targets, effect: Effect)

  /** Applies one collected item's effect and produces the record that will undo it. */
  function ApplyEffect(p: PowerUp, t: Targets, now: int): (r: Applied)
    ensures r.effect.kind == p.kind && r.effect.endTime == now + Duration(p.kind)
    ensures p.kind == SlowPotion ==>
              r.effect.original == Some(t.speed) && r.targets == t.(speed := Max(5, t.speed - 5))
    ensures p.kind == Shield ==> r.effect.original == None && r.targets == t.(shield := true)
    ensures p.kind == DoubleScore ==> r.effect.original == None && r.targets == t.(multHalves := 4)
  {
    var endTime := now + Duration(p.kind);
    match p.kind
    case SlowPotion => Applied(t.(speed := Max(5, t.speed - 5)), Effect(SlowPotion, endTime, Some(t.speed)))
    case Shield => Applied(t.(shield := true), Effect(Shield, endTime, None))
    case DoubleScore => Applied(t.(multHalves := 4), Effect(DoubleScore, endTime, None))
  }

  datatype Collection = Collection(manager: Manager, targets: Targets, collected: Option<PowerUp>)

  /**
   * Collects the first item the head touches: it is removed, its effect
   * applied and its record appended. With no such item nothing changes.
   */
  function CheckCollection(m: Manager, t: Targets, head: Pos, now: int): (r: Collection)
    ensures r.collected.None? <==> forall i :: 0 <= i < |m.powerups| ==> !Collides(m.powerups[i], head)
    ensures r.collected.None? ==> r.manager == m && r.targets == t
    ensures r.collected.Some? ==>
              exists i :: (0 <= i < |m.powerups|
                           && r.collected.value == m.powerups[i] && Collides(m.powerups[i], head)
                           && (forall j :: 0 <= j < i ==> !Collides(m.powerups[j], head))
                           && r.manager.powerups == m.powerups[..i] + m.powerups[i + 1..]
                           && r.manager.effects == m.effects + [ApplyEffect(m.powerups[i], t, now).effect]
                           && r.targets == ApplyEffect(m.powerups[i], t, now).targets)
    ensures r.manager.lastSpawnTime == m.lastSpawnTime
    ensures r.targets.multHalves == t.multHalves || r.targets.multHalves == 4
    ensures r.targets.shield <==> t.shield || (r.collected.Some? && r.collected.value.kind == Shield)
    ensures r.targets.multHalves == if r.collected.Some? && r.collected.value.kind == DoubleScore then 4 else t.multHalves
    ensures r.collected.Some? ==> r.collected == Some(m.powerups[FirstCollision(m.powerups, head).value])
    ensures (forall i :: 0 <= i < |m.effects| ==> !Expired(m.effects[i], now)) ==>
              forall i :: 0 <= i < |r.manager.effects| ==> !Expired(r.manager.effects[i], now)
  {
    match FirstCollision(m.powerups, head)
    case None => Collection(m, t, None)
    case Some(i) =>
      var p := m.powerups[i];
      var a := ApplyEffect(p, t, now);
      Collection(
        m.(powerups := m.powerups[..i] + m.powerups[i + 1..], effects := m.effects + [a.effect]),
        a.targets,
        Some(p))
  }

  /** Undoes one effect: speed back to the recorded value, shield off, or multiplier back to 1.0. */
  function Restore(e: Effect, t: Targets): Targets {
    match e.kind
    case SlowPotion => if e.original.Some? then t.(speed := e.original.value) else t
    case Shield => t.(shield := false)
    case DoubleScore => t.(multHalves := 2)
  }

  datatype Removal = Removal(effects: seq<Effect>, targets: Targets)

  /**
   * Walks the records in order, restoring and deleting each expired one.
   * Records that have not expired are kept untouched.
   */
  function RemoveEffects(es: seq<Effect>, t: Targets, now: int): (r: Removal)
    ensures r.effects == Filter(es, (e: Effect) => !Expired(e, now))
    ensures (forall i :: 0 <= i < |es| ==> !Expired(es[i], now)) ==> r.targets == t
    decreases |es|
  {
    if es == [] then Removal([], t)
    else
      var e := es[0];
      var t1 := if Expired(e, now) then Restore(e, t) else t;
      var rest := RemoveEffects(es[1..], t1, now);
      Removal(if Expired(e, now) then rest.effects else [e] + rest.effects, rest.targets)
  }

  /** Some record of kind `kind` has expired. */
  predicate AnyExpired(es: seq<Effect>, kind: Kind, now: int) {
    exists i :: 0 <= i < |es| && Expired(es[i], now) && es[i].kind == kind
  }

  lemma AnyExpiredCons(es: seq<Effect>, kind: Kind, now: int)
    requires |es| > 0
    ensures AnyExpired(es, kind, now) <==> (Expired(es[0], now) && es[0].kind == kind) || AnyExpired(es[1..], kind, now)
  {
    if AnyExpired(es, kind, now) {
      var i :| 0 <= i < |es| && Expired(es[i], now) && es[i].kind == kind;
      if i > 0 {
        assert es[1..][i - 1] == es[i];
      }
    }
    if AnyExpired(es[1..], kind, now) {
      var i :| 0 <= i < |es[1..]| && Expired(es[1..][i], now) && es[1..][i].kind == kind;
      assert es[i + 1] == es[1..][i];
    }
  }

  /** The shield ends up off exactly when some expired shield record was removed; otherwise it is untouched. */
  lemma {:induction false} RemoveEffectsShield(es: seq<Effect>, t: Targets, now: int)
    ensures RemoveEffects(es, t, now).targets.shield == if AnyExpired(es, Shield, now) then false else t.shield
    decreases |es|
  {
    if es != [] {
      var e := es[0];
      var t1 := if Expired(e, now) then Restore(e, t) else t;
      RemoveEffectsShield(es[1..], t1, now);
      AnyExpiredCons(es, Shield, now);
    }
  }

  /** The multiplier ends up at 1.0 exactly when some expired double-score record was removed; otherwise it is untouched. */
  lemma {:induction false} RemoveEffectsMultiplier(es: seq<Effect>, t: Targets, now: int)
    ensures RemoveEffects(es, t, now).targets.multHalves == if AnyExpired(es, DoubleScore, now) then 2 else t.multHalves
    decreases |es|
  {
    if es != [] {
      var e := es[0];
      var t1 := if Expired(e, now) then Restore(e, t) else t;
      RemoveEffectsMultiplier(es[1..], t1, now);
      AnyExpiredCons(es, DoubleScore, now);
    }
  }

  /** An expired speed record that carries a value to restore. */
  predicate RestoresSpeed(e: Effect, now: int) {
    Expired(e, now) && e.kind == SlowPotion && e.original.Some?
  }

  /**
   * The speed ends up at the value recorded by the LAST expired slow-potion
   * record in list order, or untouched when there is none.
   */
  lemma {:induction false} RemoveEffectsSpeed(es: seq<Effect>, t: Targets, now: int)
    ensures (forall i :: 0 <= i < |es| ==> !RestoresSpeed(es[i], now)) ==> RemoveEffects(es, t, now).targets.speed == t.speed
    ensures (exists i :: 0 <= i < |es| && RestoresSpeed(es[i], now)) ==>
              exists i :: (0 <= i < |es| && RestoresSpeed(es[i], now)
                           && RemoveEffects(es, t, now).targets.speed == es[i].original.value
                           && forall j :: i < j < |es| ==> !RestoresSpeed(es[j], now))
    decreases |es|
  {
    if es != [] {
      var e := es[0];
      var t1 := if Expired(e, now) then Restore(e, t) else t;
      var rest := es[1..];
      RemoveEffectsSpeed(rest, t1, now);
      assert forall k :: 0 <= k < |rest| ==> rest[k] == es[k + 1];
      if exists i :: 0 <= i < |rest| && RestoresSpeed(rest[i], now) {
        var i :| 0 <= i < |rest| && RestoresSpeed(rest[i], now)
          && RemoveEffects(rest, t1, now).targets.speed == rest[i].original.value
          && forall j :: i < j < |rest| ==> !RestoresSpeed(rest[j], now);
        assert RestoresSpeed(es[i + 1], now);
      } else if RestoresSpeed(e, now) {
        assert forall j :: 0 < j < |es| ==> !RestoresSpeed(es[j], now);
      } else {
        assert forall j :: 0 <= j < |es| ==> !RestoresSpeed(es[j], now);
      }
    }
  }

  /** Clearing empties both lists and leaves the spawn clock alone. */
  function Clear(m: Manager): (r: Manager)
    ensures r.powerups == [] && r.effects == []
    ensures r.lastSpawnTime == m.lastSpawnTime
  {
    m.(powerups := [], effects := [])
  }

  /** Some record of kind `kind` is still running at `now1` but has expired by `now2`. */
  predicate ExpiresBetween(es: seq<Effect>, kind: Kind, now1: int, now2: int) {
    exists i :: 0 <= i < |es| && es[i].kind == kind && !Expired(es[i], now1) && Expired(es[i], now2)
  }

  /**
   * The ordering hazard: once `Update` has run at `now1`, no record that
   * had expired by `now1` is left for a later `RemoveEffects` at `now2`,
   * so what it changed is never restored. When both read the same clock
   * value `RemoveEffects` restores nothing at all; when the clock has
   * moved on, the shield is switched off and the multiplier reset exactly
   * for the records whose end time lies in `now1 .. now2 - 1`.
   */
  lemma UpdateHidesExpiredEffects(m: Manager, now1: int, d: SpawnDraw, t: Targets, now2: int)
    requires ValidDraw(d)
    ensures forall e :: e in Update(m, now1, d).effects ==> !Expired(e, now1)
    ensures now2 == now1 ==> RemoveEffects(Update(m, now1, d).effects, t, now2) == Removal(Update(m, now1, d).effects, t)
    ensures RemoveEffects(Update(m, now1, d).effects, t, now2).targets.shield
              == if ExpiresBetween(m.effects, Shield, now1, now2) then false else t.shield
    ensures RemoveEffects(Update(m, now1, d).effects, t, now2).targets.multHalves
              == if ExpiresBetween(m.effects, DoubleScore, now1, now2) then 2 else t.multHalves
  {
    var es := Update(m, now1, d).effects;
    if now2 == now1 {
      assert forall i :: 0 <= i < |es| ==> !Expired(es[i], now2);
    }
    RemoveEffectsShield(es, t, now2);
    RemoveEffectsMultiplier(es, t, now2);
    SurvivorsExpiringBetween(m, now1, d, now2, Shield);
    SurvivorsExpiringBetween(m, now1, d, now2, DoubleScore);
  }

  /** The records `Update` at `now1` keeps that have expired by `now2` are those ending in between. */
  lemma SurvivorsExpiringBetween(m: Manager, now1: int, d: SpawnDraw, now2: int, kind: Kind)
    requires ValidDraw(d)
    ensures AnyExpired(Update(m, now1, d).effects, kind, now2) <==> ExpiresBetween(m.effects, kind, now1, now2)
  {
    var es := Update(m, now1, d).effects;
    if AnyExpired(es, kind, now2) {
      var i :| 0 <= i < |es| && Expired(es[i], now2) && es[i].kind == kind;
      assert es[i] in m.effects;
    }
    if ExpiresBetween(m.effects, kind, now1, now2) {
      var i :| 0 <= i < |m.effects| && m.effects[i].kind == kind && !Expired(m.effects[i], now1) && Expired(m.effects[i], now2);
      assert m.effects[i] in es;
    }
  }

  /** The effect records the three kinds leave, for each duration. */
  lemma EffectDurations()
    ensures Duration(SlowPotion) == 5000 && Duration(Shield) == 3000 && Duration(DoubleScore) == 8000
    ensures forall k: Kind :: Duration(k) < Lifetime < SpawnInterval
  {
  }

  /**
   * Applying an effect and later restoring its record returns the field to
   * its value before collection, for each of the three kinds (when no other
   * effect touched it in between and the multiplier was 1.0 and the shield
   * off before collection).
   */
  lemma RestoreUndoesApply(p: PowerUp, t: Targets, now: int)
    requires !t.shield && t.multHalves == 2
    ensures Restore(ApplyEffect(p, t, now).effect, ApplyEffect(p, t, now).targets) == t
  {
  }
}
