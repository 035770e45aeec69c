/** The colony's per-tick physics and habitability step of the "Initial State"
    orbital game. A colony circles a fixed star; each tick it is tested for a
    crash into the star, moved by one semi-implicit Euler step under amplified
    Newtonian gravity, appended to a bounded trail, tested against the world
    bounds and finally scored for habitability. Python floats are modelled as
    exact reals. */
module Orbit {

  // World size in pixels.
  const WIDTH: int := 800
  const HEIGHT: int := 800
  // How far outside the window the colony may drift before it is lost.
  const WORLD_MARGIN: real := 50.0

  const G: real := 6.67430e-11
  // Metres per pixel used by the physics.
  const SCALE: real := 1.0e8
  // Metres per "million km" unit of the habitability bands.
  const METRES_PER_MKM: real := 1.0e9
  const GRAVITY_MULTIPLIER: real := 5000.0

  // Habitability bands, in millions of km.
  const MIN_SAFE_DISTANCE: real := 10.0
  const MAX_SAFE_DISTANCE: real := 100.0
  const DANGER_CLOSE: real := 20.0
  const DANGER_FAR: real := 200.0

  const COLONY_MASS: real := 1.0e6
  const COLONY_RADIUS: real := 5.0
  const MAX_TRAIL_LENGTH: nat := 500
  const INITIAL_STABILITY: real := 100.0
  const RECOVERY_PER_TICK: real := 0.01

  // Temperature flags as the source stores them.
  const TOO_HOT: int := 1
  const NOMINAL: int := 0
  const TOO_COLD: int := -1

  datatype Vec2 = Vec2(x: real, y: real)

  /** The star never moves; the game only ever builds `SUN`. */
  datatype Star = Star(pos: Vec2, mass: real, radius: real)

  const SUN: Star := Star(Vec2((WIDTH / 2) as real, (HEIGHT / 2) as real), 1.989e30, 20.0)

  /** A snapshot of the colony's mutable fields. */
  datatype ColonyState = ColonyState(pos: Vec2, vel: Vec2, trail: seq<Vec2>, stability: real, temperature: int)

  /** What one tick leaves behind: the colony's new fields and the returned flag. */
  datatype TickOutcome = TickOutcome(next: ColonyState, alive: bool)

  /** The stability and temperature produced by the habitability rule. */
  datatype Climate = Climate(stability: real, temperature: int)

  function Min(a: real, b: real): real { if a <= b then a else b }

  function Max(a: real, b: real): real { if a >= b then a else b }

  function Sq(a: real): real { a * a }

  predicate InRange(s: real) { 0.0 <= s <= 100.0 }

  /** The invariant every colony keeps from creation on. */
  ghost predicate WellFormed(c: ColonyState) {
    |c.trail| <= MAX_TRAIL_LENGTH && InRange(c.stability) && TOO_COLD <= c.temperature <= TOO_HOT
  }

  /** `d` is what `math.hypot` returns for the displacement from `pos` to the star. */
  ghost predicate IsDistance(star: Star, pos: Vec2, d: real) {
    d >= 0.0 && d * d == Sq(star.pos.x - pos.x) + Sq(star.pos.y - pos.y)
  }

  /** A freshly created colony: empty trail, full stability, nominal temperature. */
  function NewColony(pos: Vec2, vel: Vec2): (c: ColonyState)
    ensures c.pos == pos && c.vel == vel
    ensures WellFormed(c) && c.trail == []
    ensures c.stability == INITIAL_STABILITY && c.temperature == NOMINAL
  {
    ColonyState(pos, vel, [], INITIAL_STABILITY, NOMINAL)
  }

  // ---------------------------------------------------------------------
  // Collision

  /** The crash test, on the pre-move pixel distance `d` scaled to metres. */
  predicate Collides(star: Star, d: real) {
    d * SCALE <= (star.radius + COLONY_RADIUS) * SCALE
  }

  /** The crash test needs no square root: it compares the squared
      displacement with the squared sum of the radii. */
  lemma CollisionOnSquares(star: Star, pos: Vec2, d: real)
    requires IsDistance(star, pos, d) && star.radius >= 0.0
    ensures Collides(star, d) <==>
      Sq(star.pos.x - pos.x) + Sq(star.pos.y - pos.y) <= Sq(star.radius + COLONY_RADIUS)
  {
    var reach := star.radius + COLONY_RADIUS;
    assert Collides(star, d) <==> d <= reach;
    if d <= reach {
      assert d * d <= d * reach <= reach * reach;
    } else {
      assert d * d > d * reach >= reach * reach;
    }
  }

  /** For the game's star a crash means a displacement of at most 25 pixels. */
  lemma SunCollision(pos: Vec2, d: real)
    requires IsDistance(SUN, pos, d)
    ensures Collides(SUN, d) <==> Sq(SUN.pos.x - pos.x) + Sq(SUN.pos.y - pos.y) <= 625.0
  {
    CollisionOnSquares(SUN, pos, d);
  }

  // ---------------------------------------------------------------------
  // Gravity and the Euler step

  /** Acceleration of the colony at pixel distance `d` from the star. The
      direction is (cos, sin) of atan2(dy, dx), which is (dx / d, dy / d) for
      d = hypot(dx, dy) > 0. The colony's mass enters the force and cancels. */
  function Gravity(star: Star, pos: Vec2, d: real): Vec2
    requires d > 0.0
  {
    var r := d * SCALE;
    var force := G * COLONY_MASS * star.mass / (r * r) * GRAVITY_MULTIPLIER;
    Vec2(force * ((star.pos.x - pos.x) / d) / COLONY_MASS,
         force * ((star.pos.y - pos.y) / d) / COLONY_MASS)
  }

  /** Gravity is attractive: it is a non-negative multiple of the displacement
      from the colony to the star. */
  lemma GravityPullsTowardStar(star: Star, pos: Vec2, d: real)
    requires d > 0.0 && star.mass >= 0.0
    ensures var a, dx, dy := Gravity(star, pos, d), star.pos.x - pos.x, star.pos.y - pos.y;
      a.x * dy == a.y * dx && a.x * dx + a.y * dy >= 0.0
  {
    var dx, dy := star.pos.x - pos.x, star.pos.y - pos.y;
    var k := PullFactor(star, d);
    ScaledComponent(star, d, dx);
    ScaledComponent(star, d, dy);
    NonNegativeMultiple(k, dx, dy);
  }

  /** Acceleration per pixel of displacement. */
  function PullFactor(star: Star, d: real): real
    requires d > 0.0
  {
    var r := d * SCALE;
    G * COLONY_MASS * star.mass / (r * r) * GRAVITY_MULTIPLIER / d / COLONY_MASS
  }

  lemma ScaledComponent(star: Star, d: real, u: real)
    requires d > 0.0
    ensures var r := d * SCALE;
      G * COLONY_MASS * star.mass / (r * r) * GRAVITY_MULTIPLIER * (u / d) / COLONY_MASS
        == PullFactor(star, d) * u
  {
    var r := d * SCALE;
    var force := G * COLONY_MASS * star.mass / (r * r) * GRAVITY_MULTIPLIER;
    assert force * (u / d) == (force / d) * u;
  }

  lemma NonNegativeMultiple(k: real, dx: real, dy: real)
    requires k >= 0.0
    ensures (k * dx) * dy == (k * dy) * dx && (k * dx) * dx + (k * dy) * dy >= 0.0
  {
    assert (k * dx) * dx + (k * dy) * dy == k * (dx * dx + dy * dy);
  }

  /** One semi-implicit Euler step: the velocity first, then the position with
      the new velocity. */
  function Move(c: ColonyState, star: Star, dt: real, d: real): ColonyState
    requires d > 0.0
  {
    var a := Gravity(star, c.pos, d);
    var vel := Vec2(c.vel.x + a.x * dt / SCALE, c.vel.y + a.y * dt / SCALE);
    c.(vel := vel, pos := Vec2(c.pos.x + vel.x * dt / SCALE, c.pos.y + vel.y * dt / SCALE))
  }

  // ---------------------------------------------------------------------
  // Trail

  /** Append the new position; when that overflows the cap, evict the oldest. */
  function PushTrail(trail: seq<Vec2>, p: Vec2): (r: seq<Vec2>)
    ensures |trail| <= MAX_TRAIL_LENGTH ==> |r| <= MAX_TRAIL_LENGTH
    ensures |r| > 0 && r[|r| - 1] == p
    ensures |trail| < MAX_TRAIL_LENGTH ==> r == trail + [p]
    ensures |trail| == MAX_TRAIL_LENGTH ==> r == trail[1..] + [p]
  {
    var t := trail + [p];
    if |t| > MAX_TRAIL_LENGTH then t[1..] else t
  }

  /** The most recent MAX_TRAIL_LENGTH entries of a position history, oldest first. */
  function Window(h: seq<Vec2>): (w: seq<Vec2>)
    ensures |w| == if |h| <= MAX_TRAIL_LENGTH then |h| else MAX_TRAIL_LENGTH
  {
    if |h| <= MAX_TRAIL_LENGTH then h else h[|h| - MAX_TRAIL_LENGTH..]
  }

  /** Pushing onto the window of a history gives the window of the longer
      history: the trail always holds exactly the last 500 positions (fewer
      at the start), the oldest being the one from 500 pushes ago. */
  lemma {:induction false} PushTrailSlidesWindow(h: seq<Vec2>, p: Vec2)
    ensures PushTrail(Window(h), p) == Window(h + [p])
  {
    var h' := h + [p];
    if |h| >= MAX_TRAIL_LENGTH {
      calc {
        PushTrail(Window(h), p);
        h[|h| - MAX_TRAIL_LENGTH..][1..] + [p];
        { assert h[|h| - MAX_TRAIL_LENGTH..][1..] == h'[|h'| - MAX_TRAIL_LENGTH..|h|]; }
        h'[|h'| - MAX_TRAIL_LENGTH..|h|] + h'[|h|..];
        h'[|h'| - MAX_TRAIL_LENGTH..];
        Window(h');
      }
    }
  }

  // ---------------------------------------------------------------------
  // Habitability

  /** The pixel distance converted to millions of km. */
  function DistanceMkm(d: real): (mkm: real)
    ensures mkm == d / 10.0
  {
    d * SCALE / METRES_PER_MKM
  }

  function HeatPenalty(mkm: real): real { 0.5 * (DANGER_CLOSE - mkm) / DANGER_CLOSE }

  function ColdPenalty(mkm: real): real { 0.3 * (mkm - DANGER_FAR) / DANGER_FAR }

  function Clamp(s: real): (r: real)
    ensures InRange(r)
    ensures InRange(s) ==> r == s
    ensures s < 0.0 ==> r == 0.0
    ensures s > 100.0 ==> r == 100.0
  {
    Max(0.0, Min(100.0, s))
  }

  /** The three-tier stability rule and the temperature flag. Too close loses
      up to 0.5 per tick, too far loses in proportion to the excess distance,
      the band [DANGER_CLOSE, MAX_SAFE_DISTANCE] recovers 0.01 per tick, and
      (MAX_SAFE_DISTANCE, DANGER_FAR] leaves stability as it was. Because the
      DANGER_CLOSE test comes first, MIN_SAFE_DISTANCE never has an effect. */
  function Habitability(stability: real, mkm: real): (c: Climate)
    ensures InRange(c.stability)
    ensures c.temperature == TOO_HOT <==> mkm < DANGER_CLOSE
    ensures c.temperature == TOO_COLD <==> mkm > DANGER_FAR
    ensures c.temperature == NOMINAL <==> DANGER_CLOSE <= mkm <= DANGER_FAR
    ensures InRange(stability) && mkm < DANGER_CLOSE ==>
      c.stability == Max(0.0, stability - HeatPenalty(mkm)) && c.stability <= stability &&
      (mkm >= 0.0 ==> 0.0 < HeatPenalty(mkm) <= 0.5)
    ensures InRange(stability) && mkm > DANGER_FAR ==>
      c.stability == Max(0.0, stability - ColdPenalty(mkm)) && c.stability <= stability &&
      ColdPenalty(mkm) > 0.0
    ensures InRange(stability) && DANGER_CLOSE <= mkm <= MAX_SAFE_DISTANCE ==>
      c.stability == Min(100.0, stability + RECOVERY_PER_TICK) && c.stability >= stability
    ensures InRange(stability) && MAX_SAFE_DISTANCE < mkm <= DANGER_FAR ==>
      c.stability == stability
  {
    var raw :=
      if mkm < DANGER_CLOSE then Climate(stability - 0.5 * (DANGER_CLOSE - mkm) / DANGER_CLOSE, TOO_HOT)
      else if mkm > DANGER_FAR then Climate(stability - 0.3 * (mkm - DANGER_FAR) / DANGER_FAR, TOO_COLD)
      else if MIN_SAFE_DISTANCE <= mkm <= MAX_SAFE_DISTANCE then Climate(Min(100.0, stability + RECOVERY_PER_TICK), NOMINAL)
      else Climate(stability, NOMINAL);
    Climate(Clamp(raw.stability), raw.temperature)
  }

  /** Applies the habitability rule to the colony; it lives on while its
      stability is positive. */
  function Score(c: ColonyState, mkm: real): TickOutcome
  {
    var climate := Habitability(c.stability, mkm);
    TickOutcome(c.(stability := climate.stability, temperature := climate.temperature), climate.stability > 0.0)
  }

  /** Stability grows in exactly one band, and only when not already full. */
  lemma RecoveryBand(stability: real, mkm: real)
    requires InRange(stability)
    ensures Habitability(stability, mkm).stability > stability <==>
      DANGER_CLOSE <= mkm <= MAX_SAFE_DISTANCE && stability < 100.0
  {
  }

  /** Stability after `n` ticks spent at the same distance. */
  function Hold(stability: real, mkm: real, n: nat): real
    decreases n
  {
    if n == 0 then stability else Hold(Habitability(stability, mkm).stability, mkm, n - 1)
  }

  /** Held too close to the star, stability falls by the same amount every
      tick until it reaches 0. */
  lemma {:induction false} DangerDecay(stability: real, mkm: real, n: nat)
    requires InRange(stability) && mkm < DANGER_CLOSE
    ensures Hold(stability, mkm, n) == Max(0.0, stability - n as real * HeatPenalty(mkm))
    decreases n
  {
    if n > 0 {
      var p := HeatPenalty(mkm);
      var next := Habitability(stability, mkm).stability;
      assert p > 0.0 && next == Max(0.0, stability - p);
      assert Hold(stability, mkm, n) == Hold(next, mkm, n - 1);
      DangerDecay(next, mkm, n - 1);
      var m := (n - 1) as real;
      DecayStep(stability, p, m);
    }
  }

  /** One more tick of a constant penalty `p` after `m` earlier ones. */
  lemma DecayStep(s: real, p: real, m: real)
    requires p > 0.0 && m >= 0.0
    ensures Max(0.0, Max(0.0, s - p) - m * p) == Max(0.0, s - (m + 1.0) * p)
  {
    assert (m + 1.0) * p == m * p + p;
    assert m * p >= 0.0;
  }

  /** Held in the recovery band, stability climbs by 0.01 per tick up to 100. */
  lemma {:induction false} GoldilocksRecovery(stability: real, mkm: real, n: nat)
    requires InRange(stability) && DANGER_CLOSE <= mkm <= MAX_SAFE_DISTANCE
    ensures Hold(stability, mkm, n) == Min(100.0, stability + n as real * RECOVERY_PER_TICK)
    decreases n
  {
    if n > 0 {
      var next := Habitability(stability, mkm).stability;
      GoldilocksRecovery(next, mkm, n - 1);
    }
  }

  // ---------------------------------------------------------------------
  // The tick

  predicate OutOfBounds(p: Vec2) {
    p.x < -WORLD_MARGIN || p.x > WIDTH as real + WORLD_MARGIN ||
    p.y < -WORLD_MARGIN || p.y > HEIGHT as real + WORLD_MARGIN
  }

  /** One call of the colony's update, with `d` the pre-move pixel distance. */
  function Tick(c: ColonyState, star: Star, dt: real, d: real): (o: TickOutcome)
    requires star.radius >= 0.0
    // A crash changes nothing and reports death.
    ensures Collides(star, d) ==> o == TickOutcome(c, false)
    // Otherwise the new position is pushed onto the trail, evicting the oldest entry past the cap.
    ensures !Collides(star, d) ==> o.next.trail == PushTrail(c.trail, o.next.pos)
    // Leaving the world is fatal, after the trail append, with the score untouched.
    ensures !Collides(star, d) && OutOfBounds(o.next.pos) ==>
      !o.alive && o.next.stability == c.stability && o.next.temperature == c.temperature
    // Otherwise the habitability rule decides, on the PRE-move distance.
    ensures !Collides(star, d) && !OutOfBounds(o.next.pos) ==>
      Climate(o.next.stability, o.next.temperature) == Habitability(c.stability, d / 10.0) &&
      o.alive == (o.next.stability > 0.0)
    ensures WellFormed(c) ==> WellFormed(o.next)
    ensures o.alive ==> !Collides(star, d) && !OutOfBounds(o.next.pos)
  {
    if Collides(star, d) then TickOutcome(c, false)
    else
      var moved := Move(c, star, dt, d);
      var pushed := moved.(trail := PushTrail(moved.trail, moved.pos));
      if OutOfBounds(pushed.pos) then TickOutcome(pushed, false)
      else Score(pushed, DistanceMkm(d))
  }

  /** Ticks once per pre-move distance in `ds`, stopping at the first tick
      that reports death. */
  function Run(c: ColonyState, star: Star, dt: real, ds: seq<real>): (o: TickOutcome)
    requires star.radius >= 0.0 && WellFormed(c)
    ensures WellFormed(o.next)
    ensures ds != [] && o.alive ==> o.next.stability > 0.0
    decreases |ds|
  {
    if ds == [] then TickOutcome(c, true)
    else
      var first := Tick(c, star, dt, ds[0]);
      if !first.alive then first else Run(first.next, star, dt, ds[1..])
  }

  /** A dead colony that did not crash or escape has exhausted its stability. */
  lemma DeathByStability(c: ColonyState, star: Star, dt: real, d: real)
    requires star.radius >= 0.0 && WellFormed(c)
    ensures var o := Tick(c, star, dt, d);
      !o.alive && !Collides(star, d) && !OutOfBounds(o.next.pos) ==> o.next.stability == 0.0
  {
  }

  // ---------------------------------------------------------------------
  // The colony object

  class Colony {
    var pos: Vec2
    var vel: Vec2
    const mass: real
    const radius: real
    var trail: seq<Vec2>
    const maxTrailLength: nat
    var stability: real
    var temperature: int
    // Every position ever appended to the trail, oldest first.
    ghost var history: seq<Vec2>

    ghost predicate Valid()
      reads this
    {
      mass == COLONY_MASS && radius == COLONY_RADIUS && maxTrailLength == MAX_TRAIL_LENGTH &&
      trail == Window(history) && WellFormed(Snapshot())
    }

    function Snapshot(): ColonyState
      reads this
    {
      ColonyState(pos, vel, trail, stability, temperature)
    }

    constructor (pos: Vec2, vel: Vec2 := Vec2(0.0, 0.0))
      ensures Valid() && Snapshot() == NewColony(pos, vel) && history == []
    {
      this.pos := pos;
      this.vel := vel;
      mass := COLONY_MASS;
      radius := COLONY_RADIUS;
      trail := [];
      maxTrailLength := MAX_TRAIL_LENGTH;
      stability := INITIAL_STABILITY;
      temperature := NOMINAL;
      history := [];
    }

    /** The gravity pull and the Euler step of a tick: the velocity is
        updated first and the position moves with the new velocity. */
    method Step(star: Star, dt: real, d: real)
      requires d > 0.0
      modifies this
      ensures Snapshot() == Move(old(Snapshot()), star, dt, d) && history == old(history)
    {
      var a := Gravity(star, pos, d);
      vel := Vec2(vel.x + a.x * dt / SCALE, vel.y + a.y * dt / SCALE);
      pos := Vec2(pos.x + vel.x * dt / SCALE, pos.y + vel.y * dt / SCALE);
    }

    /** The habitability part of a tick: the three-tier stability rule, the
        temperature flag and the clamp; the colony lives on while its
        stability is positive. */
    method ApplyHabitability(mkm: real) returns (alive: bool)
      requires Valid()
      modifies this`stability, this`temperature
      ensures Valid()
      ensures TickOutcome(Snapshot(), alive) == Score(old(Snapshot()), mkm)
    {
      if mkm < DANGER_CLOSE {
        stability := stability - 0.5 * (DANGER_CLOSE - mkm) / DANGER_CLOSE;
        temperature := TOO_HOT;
      } else if mkm > DANGER_FAR {
        stability := stability - 0.3 * (mkm - DANGER_FAR) / DANGER_FAR;
        temperature := TOO_COLD;
      } else {
        if MIN_SAFE_DISTANCE <= mkm <= MAX_SAFE_DISTANCE {
          stability := Min(100.0, stability + RECOVERY_PER_TICK);
        }
        temperature := NOMINAL;
      }
      stability := Max(0.0, Min(100.0, stability));
      alive := stability > 0.0;
    }

    /** One tick; `d` is the pixel distance to the star before the move. */
    method Update(star: Star, dt: real, d: real) returns (alive: bool)
      requires Valid() && star.radius >= 0.0
      requires IsDistance(star, pos, d)
      modifies this
      ensures Valid()
      ensures TickOutcome(Snapshot(), alive) == Tick(old(Snapshot()), star, dt, d)
      ensures history == if Collides(star, d) then old(history) else old(history) + [pos]
    {
      ghost var before := Snapshot();
      var r := d * SCALE;
      assert r <= (star.radius + radius) * SCALE <==> Collides(star, d);
      if r <= (star.radius + radius) * SCALE {
        return false;
      }
      Step(star, dt, d);
      PushTrailSlidesWindow(history, pos);
      trail := trail + [pos];
      history := history + [pos];
      if |trail| > maxTrailLength {
        trail := trail[1..];
      }
      ghost var pushed := Snapshot();
      assert pushed.trail == PushTrail(old(trail), pos);
      if pos.x < -WORLD_MARGIN || pos.x > WIDTH as real + WORLD_MARGIN ||
         pos.y < -WORLD_MARGIN || pos.y > HEIGHT as real + WORLD_MARGIN {
        assert Tick(before, star, dt, d) == TickOutcome(pushed, false);
        return false;
      }
      var mkm := d * SCALE / METRES_PER_MKM;
      alive := ApplyHabitability(mkm);
      assert TickOutcome(Snapshot(), alive) == Score(pushed, DistanceMkm(d));
      assert !Collides(star, d) && !OutOfBounds(pushed.pos);
    }
  }
}
