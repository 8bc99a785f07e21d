/**
 * A bomb: a fuse counted in ticks, then an explosion whose hit-test is
 * live only for its first ticks, then an aftermath that ends once the
 * explosion has run its duration and the last particle has died.
 * The particle cloud is abstracted to the longest remaining particle
 * lifetime (0 when no particle is left).
 */
module Bombs {
  import opened Config
  import opened Options

  const DefaultRadius: int := 100
  const DefaultCountdown: int := 180
  const ExplosionDuration: int := 45
  /** Longest lifetime a particle can be created with. */
  const MaxParticleLife: int := 50

  datatype Bomb = Bomb(
    pos: Pos,
    radius: int,
    countdown: int,
    active: bool,
    exploded: bool,
    explosionTimer: int,
    explosionDuration: int,
    particleLife: int)

  function NewBomb(pos: Pos): (b: Bomb)
    ensures b.pos == pos && b.radius == 100 && b.countdown == 180
    ensures b.active && !b.exploded && b.explosionTimer == 0 && b.explosionDuration == 45
    ensures b.particleLife == 0
  {
    Bomb(pos, DefaultRadius, DefaultCountdown, true, false, 0, ExplosionDuration, 0)
  }

  /**
   * The random burst: 80 particles live 25..50 ticks and 30 live 15..30, so
   * the longest-lived one lives between 25 and 50 ticks.
   */
  predicate ValidBurst(life: int) {
    25 <= life <= MaxParticleLife
  }

  function Explode(b: Bomb, life: int): (r: Bomb)
    requires ValidBurst(life)
    ensures r.exploded && r.active
    ensures r.particleLife == Max(b.particleLife, life)
    ensures r == b.(exploded := true, active := true, particleLife := r.particleLife)
  {
    b.(exploded := true, active := true, particleLife := Max(b.particleLife, life))
  }

  /**
   * One aftermath tick: the timer advances, every particle ages by one and
   * the dead ones vanish; the bomb goes inactive once the duration is
   * reached and no particle is left.
   */
  function UpdateExplosion(b: Bomb): (r: Bomb)
    ensures r.explosionTimer == b.explosionTimer + 1
    ensures r.particleLife == Max(b.particleLife - 1, 0)
    ensures r.active <==> b.active && !(r.explosionTimer >= b.explosionDuration && r.particleLife == 0)
    ensures r == b.(explosionTimer := r.explosionTimer, particleLife := r.particleLife, active := r.active)
  {
    var b1 := b.(explosionTimer := b.explosionTimer + 1, particleLife := Max(b.particleLife - 1, 0));
    if b1.explosionTimer >= b1.explosionDuration && b1.particleLife == 0 then b1.(active := false) else b1
  }

  /** One tick: burn the fuse and explode when it runs out, or age the explosion. */
  function Update(b: Bomb, life: int): (r: Bomb)
    requires ValidBurst(life)
    ensures b.exploded ==> r.exploded && r.explosionTimer == b.explosionTimer + 1
    ensures !b.exploded ==> r.countdown == b.countdown - 1 && r.explosionTimer == b.explosionTimer
    ensures !b.exploded ==> (r.exploded <==> b.countdown - 1 <= 0)
    ensures !b.exploded && r.exploded ==> r.active && r.particleLife == Max(b.particleLife, life)
    ensures !b.exploded && !r.exploded ==> r == b.(countdown := b.countdown - 1)
    ensures b.active && !r.active ==> r.explosionTimer >= r.explosionDuration && r.particleLife == 0
    ensures b.exploded ==> r.particleLife == Max(b.particleLife - 1, 0)
    ensures b.exploded ==> (r.active <==> b.active && !(r.explosionTimer >= r.explosionDuration && r.particleLife == 0))
    ensures r.pos == b.pos && r.radius == b.radius && r.explosionDuration == b.explosionDuration
  {
    if !b.exploded then
      var b1 := b.(countdown := b.countdown - 1);
      if b1.countdown <= 0 then Explode(b1, life) else b1
    else
      UpdateExplosion(b)
  }

  function UpdateTimes(b: Bomb, n: nat, life: int): Bomb
    requires ValidBurst(life)
    decreases n
  {
    if n == 0 then b else Update(UpdateTimes(b, n - 1, life), life)
  }

  /** A lit fuse of `c` ticks burns down one per update without exploding for the first `c - 1` updates. */
  lemma {:induction false} FuseBurns(b: Bomb, k: nat, life: int)
    requires ValidBurst(life) && !b.exploded
    requires k < b.countdown
    ensures UpdateTimes(b, k, life) == b.(countdown := b.countdown - k)
    decreases k
  {
    if k > 0 {
      FuseBurns(b, k - 1, life);
    }
  }

  /** A fresh bomb explodes on its 180th update, with the explosion timer still at 0. */
  lemma FreshBombExplodesOn180th(pos: Pos, life: int)
    requires ValidBurst(life)
    ensures !UpdateTimes(NewBomb(pos), 179, life).exploded
    ensures UpdateTimes(NewBomb(pos), 180, life).exploded
    ensures UpdateTimes(NewBomb(pos), 180, life).explosionTimer == 0
    ensures UpdateTimes(NewBomb(pos), 180, life).particleLife == life
  {
    FuseBurns(NewBomb(pos), 179, life);
  }

  /**
   * After `k` aftermath updates of a bomb that has just exploded with its
   * longest particle living `m` ticks: the timer reads `k`, the longest
   * particle has `m - k` ticks left (or none) and the bomb is still active
   * exactly while `k < 45` or some particle survives.
   */
  lemma {:induction false} Aftermath(b: Bomb, k: nat, life: int)
    requires ValidBurst(life)
    requires b.exploded && b.active && b.explosionTimer == 0 && b.explosionDuration == ExplosionDuration
    requires 0 <= b.particleLife <= MaxParticleLife
    ensures UpdateTimes(b, k, life).exploded
    ensures UpdateTimes(b, k, life).explosionDuration == ExplosionDuration
    ensures UpdateTimes(b, k, life).explosionTimer == k
    ensures UpdateTimes(b, k, life).particleLife == Max(b.particleLife - k, 0)
    ensures UpdateTimes(b, k, life).active <==> (k < ExplosionDuration || k < b.particleLife)
    decreases k
  {
    if k > 0 {
      Aftermath(b, k - 1, life);
    }
  }

  /** An exploded bomb is inactive no later than its 50th update after the explosion. */
  lemma InactiveWithinFifty(b: Bomb, life: int)
    requires ValidBurst(life)
    requires b.exploded && b.active && b.explosionTimer == 0 && b.explosionDuration == ExplosionDuration
    requires 0 <= b.particleLife <= MaxParticleLife
    ensures !UpdateTimes(b, MaxParticleLife, life).active
    ensures UpdateTimes(b, ExplosionDuration - 1, life).active
  {
    Aftermath(b, MaxParticleLife, life);
    Aftermath(b, ExplosionDuration - 1, life);
  }

  lemma PositiveProduct(a: real, b: real)
    requires a > 0.0 && b > 0.0
    ensures a * b > 0.0
  {
  }

  lemma NonnegativeProduct(a: real, b: real)
    requires a >= 0.0 && b >= 0.0
    ensures a * b >= 0.0
  {
  }

  /** For a nonnegative distance `d`, `d < R` is the same as `R > 0 && d * d < R * R`. */
  lemma DistanceComparison(d: real, r: real)
    requires d >= 0.0
    ensures d < r <==> (r > 0.0 && d * d < r * r)
  {
    assert r * r - d * d == (r - d) * (r + d);
    if d < r {
      PositiveProduct(r - d, r + d);
    } else if r > 0.0 {
      NonnegativeProduct(d - r, d + r);
      assert d * d - r * r == (d - r) * (d + r);
    }
  }

  /**
   * The hit-test of `x, y` with slack `r`: live only while exploded and
   * within 15 ticks; then true iff the distance is below `radius + r`,
   * compared on squares.
   */
  function IsColliding(b: Bomb, x: int, y: int, r: int): (hit: bool)
    ensures !b.exploded || b.explosionTimer >= 15 ==> !hit
    ensures b.exploded && b.explosionTimer < 15 ==>
              (hit <==> b.radius + r > 0 && DistSq(x, y, b.pos.x, b.pos.y) < (b.radius + r) * (b.radius + r))
  {
    if b.exploded && b.explosionTimer < 15 then
      b.radius + r > 0 && DistSq(x, y, b.pos.x, b.pos.y) < (b.radius + r) * (b.radius + r)
    else false
  }

  /**
   * The square comparison is the source's `sqrt(dx*dx + dy*dy) < radius + r`:
   * for `s` the real square root of the squared distance, inside the window
   * the hit-test is exactly `s < radius + r`.
   */
  lemma SquareTestMatchesSqrt(b: Bomb, x: int, y: int, r: int, s: real)
    requires s >= 0.0 && s * s == DistSq(x, y, b.pos.x, b.pos.y) as real
    requires b.exploded && b.explosionTimer < 15
    ensures IsColliding(b, x, y, r) <==> s < (b.radius + r) as real
  {
    var big := (b.radius + r) as real;
    DistanceComparison(s, big);
    assert big * big == ((b.radius + r) * (b.radius + r)) as real;
  }

  /** A point 99 pixels from a radius-100 bomb is hit while the timer is below 15, and not at 20 or before the blast. */
  lemma HitWindowExample(b: Bomb)
    requires b.radius == 100
    ensures var p := Pos(b.pos.x + 99, b.pos.y);
      && (b.exploded && 0 <= b.explosionTimer < 15 ==> IsColliding(b, p.x, p.y, 0))
      && (b.explosionTimer == 20 ==> !IsColliding(b, p.x, p.y, 0))
      && (!b.exploded ==> !IsColliding(b, p.x, p.y, 0))
  {
  }

  datatype Area = Area(x: int, y: int, radius: int)

  /**
   * The damage area, reported only during the first 10 ticks after the
   * blast. The game itself does not call it; its own lethal test is in the
   * game module.
   */
  function GetExplosionArea(b: Bomb): (r: Option<Area>)
    ensures r.Some? <==> b.exploded && b.explosionTimer < 10
    ensures r.Some? ==> r.value == Area(b.pos.x, b.pos.y, b.radius)
  {
    if b.exploded && b.explosionTimer < 10 then Some(Area(b.pos.x, b.pos.y, b.radius)) else None
  }

  /** While the area is reported, it is exactly the region the hit-test without slack reports. */
  lemma AreaIsHitRegion(b: Bomb, x: int, y: int)
    requires GetExplosionArea(b).Some?
    ensures var a := GetExplosionArea(b).value;
      IsColliding(b, x, y, 0) <==> a.radius > 0 && DistSq(x, y, a.x, a.y) < a.radius * a.radius
  {
  }
}
