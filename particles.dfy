/**
 * The particles of canvas.js: the `Particle` class (its constructor and
 * `move`), the spawn guard of `draw`, and the value-level specification of
 * the move-and-kill pass that Canvas.MoveAndKillPass runs over the objects.
 *
 * The constructor's `random(...)` draws are not made here: they arrive as a
 * `Draws` value whose ranges `DrawsInRange` states. The random angle is
 * given by its cosine and sine, since Dafny's reals have no trigonometry.
 */
module Particles {
  import opened Geometry

  const MAX_PARTICLE_COUNT: nat := 100
  /** A particle whose speed is below this after moving is removed. */
  const MIN_SPEED: real := 0.1
  /** A spawn needs the pointer to have moved further than this in one frame. */
  const SPAWN_DISTANCE: real := 10.0
  /** Hue degrees: hues are taken modulo this, and `huemue` runs through 0 .. HUE_COUNT - 1. */
  const HUE_COUNT: nat := 360
  /** HUE_COUNT as a number of degrees. */
  const HUE_PERIOD: real := HUE_COUNT as real

  /** The fields of one `Particle` object, as a value. */
  datatype Body = Body(pos: Vec, vel: Vec, mass: real, airDrag: real, initialHue: real, currentHue: real)

  /** The ranges the constructor's draws put the fields in, and `move` keeps. */
  predicate WellFormed(b: Body) {
    && 1.0 <= b.mass < 20.0
    && 0.92 <= b.airDrag < 0.98
    && 0.0 <= b.initialHue < HUE_PERIOD
    && 0.0 <= b.currentHue < HUE_PERIOD
  }

  /**
   * JavaScript's `x % 360` on numbers: the remainder of the division
   * truncated toward zero, so it has the sign of `x`.
   */
  function JsRem360(x: real): (r: real)
    ensures x >= 0.0 ==> 0.0 <= r < HUE_PERIOD
    ensures x < 0.0 ==> -HUE_PERIOD < r <= 0.0
    ensures 0.0 <= x < HUE_PERIOD ==> r == x
  {
    var q := x / HUE_PERIOD;
    var t := if q >= 0.0 then q.Floor else -((-q).Floor);
    x - HUE_PERIOD * t as real
  }

  /** On non-negative numbers the remainder repeats every 360 degrees. */
  lemma JsRem360Periodic(x: real)
    requires x >= 0.0
    ensures JsRem360(x + HUE_PERIOD) == JsRem360(x)
  {
    var q := x / HUE_PERIOD;
    assert (x + HUE_PERIOD) / HUE_PERIOD == q + 1.0;
    assert (q + 1.0).Floor == q.Floor + 1;
  }

  /**
   * `Particle.move`: the velocity is scaled by the drag first, the position
   * then advances by the scaled velocity, and the current hue follows the
   * frame counter.
   */
  function Moved(b: Body, frameCount: nat): (r: Body)
    ensures r.mass == b.mass && r.airDrag == b.airDrag && r.initialHue == b.initialHue
    ensures WellFormed(b) ==> WellFormed(r)
  {
    var vel := Scale(b.vel, b.airDrag);
    b.(vel := vel, pos := Add(b.pos, vel), currentHue := JsRem360(b.initialHue + frameCount as real))
  }

  /**
   * What a move does to the motion: the displacement of the position is
   * the new velocity (not the old one), and the velocity keeps its
   * direction, since the drag is a positive factor: the new velocity is
   * parallel to the old one and points the same way.
   */
  lemma MovedFields(b: Body, frameCount: nat)
    requires WellFormed(b)
    ensures var r := Moved(b, frameCount);
      && Sub(r.pos, b.pos) == r.vel
      && r.vel.x * b.vel.y == r.vel.y * b.vel.x
      && r.vel.x * b.vel.x + r.vel.y * b.vel.y == b.airDrag * MagSq(b.vel)
      && (MagSq(b.vel) > 0.0 ==> r.vel.x * b.vel.x + r.vel.y * b.vel.y > 0.0)
  {
    var d, v := b.airDrag, b.vel;
    assert (d * v.x) * v.y == (d * v.y) * v.x;
    assert (d * v.x) * v.x + (d * v.y) * v.y == d * MagSq(v);
    if MagSq(v) > 0.0 {
      assert d * MagSq(v) > 0.0;
    }
  }

  /**
   * Drag never speeds a particle up: each move multiplies the squared speed
   * by airDrag squared, which is below one, so the speed strictly falls
   * unless it is already zero.
   */
  lemma MoveSlowsDown(b: Body, frameCount: nat)
    requires WellFormed(b)
    ensures MagSq(Moved(b, frameCount).vel) == b.airDrag * b.airDrag * MagSq(b.vel)
    ensures MagSq(Moved(b, frameCount).vel) <= MagSq(b.vel)
    ensures MagSq(b.vel) > 0.0 ==> MagSq(Moved(b, frameCount).vel) < MagSq(b.vel)
  {
    var d, m := b.airDrag, MagSq(b.vel);
    MagSqScale(b.vel, d);
    SquareLess(d, 1.0);
    assert d * d * m == m - (1.0 - d * d) * m;
    assert (1.0 - d * d) * m >= 0.0;
    if m > 0.0 {
      assert (1.0 - d * d) * m > 0.0;
    }
  }

  /** A particle survives the kill check while its speed is at least MIN_SPEED. */
  predicate Alive(b: Body)
    ensures Alive(b) ==> b.vel != Vec(0.0, 0.0)
  {
    MagSq(b.vel) >= MIN_SPEED * MIN_SPEED
  }

  /** The kill check as `draw` writes it, `vel.mag() < 0.1`, with `mag` the magnitude. */
  predicate TooSlow(b: Body, mag: Vec -> real) {
    mag(b.vel) < MIN_SPEED
  }

  /** With the true magnitude, the kill check removes exactly the particles that are not Alive. */
  lemma TooSlowIffNotAlive(b: Body, mag: Vec -> real)
    requires IsMagnitude(mag)
    ensures TooSlow(b, mag) <==> !Alive(b)
  {
    CompareMagnitude(mag, b.vel, MIN_SPEED);
  }

  /** Every particle moved once, in place. */
  function MoveAll(bs: seq<Body>, frameCount: nat): (r: seq<Body>)
    ensures |r| == |bs|
    ensures forall i :: 0 <= i < |bs| ==> r[i] == Moved(bs[i], frameCount)
    ensures (forall b :: b in bs ==> WellFormed(b)) ==> forall b :: b in r ==> WellFormed(b)
  {
    seq(|bs|, i requires 0 <= i < |bs| => Moved(bs[i], frameCount))
  }

  /** The particles that pass the kill check, in their original order. */
  function FilterAlive(bs: seq<Body>): (r: seq<Body>)
    ensures |r| <= |bs|
    ensures forall b :: b in r ==> b in bs && Alive(b)
  {
    if bs == [] then []
    else (if Alive(bs[0]) then [bs[0]] else []) + FilterAlive(bs[1..])
  }

  /** Filtering keeps exactly the particles that pass the check. */
  lemma {:induction false} FilterAliveMembers(bs: seq<Body>)
    ensures forall b :: b in FilterAlive(bs) <==> b in bs && Alive(b)
  {
    if bs != [] {
      FilterAliveMembers(bs[1..]);
      assert bs == [bs[0]] + bs[1..];
    }
  }

  /**
   * Filtering distributes over concatenation, so the survivors keep their
   * relative order: no particle overtakes another and none is skipped.
   */
  lemma {:induction false} FilterAliveAppend(a: seq<Body>, b: seq<Body>)
    ensures FilterAlive(a + b) == FilterAlive(a) + FilterAlive(b)
  {
    if a != [] {
      FilterAliveAppend(a[1..], b);
      assert (a + b)[1..] == a[1..] + b;
    } else {
      assert a + b == b;
    }
  }

  /** The move-and-kill pass of `draw`, on values: move every particle, keep the fast ones. */
  function Step(bs: seq<Body>, frameCount: nat): (r: seq<Body>)
    ensures |r| <= |bs|
    ensures forall b :: b in r ==> Alive(b)
    ensures (forall b :: b in bs ==> WellFormed(b)) ==> forall b :: b in r ==> WellFormed(b)
  {
    FilterAlive(MoveAll(bs, frameCount))
  }

  /**
   * After the pass the population holds exactly the moved particles that
   * are still at least MIN_SPEED fast: none is lost and none is invented.
   */
  lemma StepSurvivors(bs: seq<Body>, frameCount: nat)
    ensures forall b :: b in Step(bs, frameCount) <==>
      Alive(b) && exists i :: 0 <= i < |bs| && b == Moved(bs[i], frameCount)
  {
    var moved := MoveAll(bs, frameCount);
    FilterAliveMembers(moved);
    forall b | b in Step(bs, frameCount)
      ensures exists i :: 0 <= i < |bs| && b == Moved(bs[i], frameCount)
    {
      var i :| 0 <= i < |moved| && moved[i] == b;
    }
  }

  /** The random draws of the `Particle` constructor. */
  datatype Draws = Draws(speed: real, turn: Vec, mass: real, airDrag: real, initialHue: real)

  /**
   * `random(10)`, an angle of `random(-25, 25)` degrees given by its cosine
   * and sine (cos 25 degrees is above 0.9), `random(1, 20)`,
   * `random(0.92, 0.98)` and `random(360)`.
   */
  predicate DrawsInRange(d: Draws) {
    && 0.0 <= d.speed < 10.0
    && MagSq(d.turn) == 1.0 && d.turn.x >= 0.9
    && 1.0 <= d.mass < 20.0
    && 0.92 <= d.airDrag < 0.98
    && 0.0 <= d.initialHue < HUE_PERIOD
  }

  /** The constructor's velocity: `createVector(vx, vy).mult(random(10)).rotate(angle)`. */
  function Launch(dir: Vec, d: Draws): (v: Vec)
    ensures MagSq(v) == MagSq(d.turn) * (d.speed * d.speed * MagSq(dir))
  {
    MagSqScale(dir, d.speed);
    MagSqRotate(Scale(dir, d.speed), d.turn);
    Rotate(Scale(dir, d.speed), d.turn)
  }

  /**
   * The guard of the spawn in `draw`: the trail holds more than one point,
   * the population is below capacity, and the pointer moved further than
   * SPAWN_DISTANCE since the previous frame.
   */
  predicate SpawnGuard(trailLength: nat, population: nat, mouse: Vec, pmouse: Vec)
    ensures SpawnGuard(trailLength, population, mouse, pmouse) ==>
      population + 1 <= MAX_PARTICLE_COUNT && MagSq(Sub(mouse, pmouse)) > 0.0
  {
    && trailLength > 1
    && population < MAX_PARTICLE_COUNT
    && MagSq(Sub(mouse, pmouse)) > SPAWN_DISTANCE * SPAWN_DISTANCE
  }

  /**
   * The guard as the source writes it, with `mouse.mag() > 10`, is the
   * guard on squared magnitudes.
   */
  lemma SpawnGuardMagnitude(trailLength: nat, population: nat, mouse: Vec, pmouse: Vec, mag: Vec -> real)
    requires IsMagnitude(mag)
    ensures SpawnGuard(trailLength, population, mouse, pmouse) <==>
      trailLength > 1 && population < MAX_PARTICLE_COUNT && mag(Sub(mouse, pmouse)) > SPAWN_DISTANCE
  {
    CompareMagnitude(mag, Sub(mouse, pmouse), SPAWN_DISTANCE);
  }

  /**
   * The particle `draw` creates from a qualifying pointer move: at the
   * previous pointer position, launched along the normalised displacement.
   */
  function Spawned(mouse: Vec, pmouse: Vec, mag: Vec -> real, d: Draws): (b: Body)
    ensures DrawsInRange(d) ==> WellFormed(b) && b.currentHue == b.initialHue
  {
    Body(pmouse, Launch(Normalize(Sub(mouse, pmouse), mag), d), d.mass, d.airDrag, d.initialHue, d.initialHue)
  }

  /**
   * A spawned particle starts within its ranges and with speed exactly the
   * drawn `random(10)`, hence below 10: normalising makes the direction a
   * unit vector and the rotation keeps the magnitude.
   */
  lemma SpawnedSpeed(mouse: Vec, pmouse: Vec, mag: Vec -> real, d: Draws)
    requires IsMagnitude(mag) && DrawsInRange(d)
    requires MagSq(Sub(mouse, pmouse)) > 0.0
    ensures WellFormed(Spawned(mouse, pmouse, mag, d))
    ensures MagSq(Spawned(mouse, pmouse, mag, d).vel) == d.speed * d.speed
    ensures MagSq(Spawned(mouse, pmouse, mag, d).vel) < SPAWN_DISTANCE * SPAWN_DISTANCE
  {
    NormalizeUnit(Sub(mouse, pmouse), mag);
    SquareBelow(MagSq(Spawned(mouse, pmouse, mag, d).vel), d.speed, SPAWN_DISTANCE);
  }

  /** `n` frames of `move`, starting at frame `frameCount`. */
  function MovedTimes(b: Body, frameCount: nat, n: nat): Body
    decreases n
  {
    if n == 0 then b else MovedTimes(Moved(b, frameCount), frameCount + 1, n - 1)
  }

  /** `q` to the power `n`. */
  function Pow(q: real, n: nat): real {
    if n == 0 then 1.0 else Pow(q, n - 1) * q
  }

  /**
   * After `n` moves the velocity is the initial one scaled by airDrag to
   * the `n`th power: the direction never changes, only the speed decays.
   */
  lemma {:induction false} VelocityAfterMoves(b: Body, frameCount: nat, n: nat)
    ensures MovedTimes(b, frameCount, n).airDrag == b.airDrag
    ensures MovedTimes(b, frameCount, n).vel == Scale(b.vel, Pow(b.airDrag, n))
    decreases n
  {
    if n > 0 {
      var next := Moved(b, frameCount);
      var a, p := b.airDrag, Pow(b.airDrag, n - 1);
      assert next.airDrag == a && next.vel == Scale(b.vel, a);
      VelocityAfterMoves(next, frameCount + 1, n - 1);
      assert MovedTimes(b, frameCount, n) == MovedTimes(next, frameCount + 1, n - 1);
      ScaleScale(b.vel, a, p);
      assert Pow(a, n) == p * a;
    } else {
      ScaleOne(b.vel);
    }
  }

  lemma ScaleScale(v: Vec, a: real, b: real)
    ensures Scale(Scale(v, a), b) == Scale(v, b * a)
  {
  }

  lemma ScaleOne(v: Vec)
    ensures Scale(v, 1.0) == v
  {
  }

  lemma {:induction false} PowNonnegative(q: real, n: nat)
    requires q >= 0.0
    ensures Pow(q, n) >= 0.0
  {
    if n > 0 {
      PowNonnegative(q, n - 1);
    }
  }

  lemma {:induction false} PowAdd(q: real, m: nat, n: nat)
    ensures Pow(q, m + n) == Pow(q, m) * Pow(q, n)
    decreases n
  {
    if n > 0 {
      PowAdd(q, m, n - 1);
      var a, c := Pow(q, m), Pow(q, n - 1);
      assert Pow(q, m + n) == (a * c) * q;
      assert (a * c) * q == a * (c * q);
    }
  }

  lemma {:induction false} PowMonotonic(a: real, b: real, n: nat)
    requires 0.0 <= a <= b
    ensures Pow(a, n) <= Pow(b, n)
  {
    if n > 0 {
      PowMonotonic(a, b, n - 1);
      PowNonnegative(a, n - 1);
      MulMonotonic(Pow(a, n - 1), a, Pow(b, n - 1), b);
    }
  }

  /** Multiplication is monotonic in both arguments on the non-negative reals. */
  lemma MulMonotonic(x: real, a: real, y: real, b: real)
    requires 0.0 <= x <= y && 0.0 <= a <= b
    ensures x * a <= y * b
  {
    assert x * b - x * a == x * (b - a) >= 0.0;
    assert y * b - x * b == (y - x) * b >= 0.0;
  }

  /** Squaring is monotonic on the non-negative reals. */
  lemma SquareAtMost(x: real, c: real)
    requires 0.0 <= x <= c
    ensures x * x <= c * c
  {
    if x < c {
      SquareLess(x, c);
    }
  }

  /** Squaring an upper bound: if q^n <= c then q^(2n) <= c * c. */
  lemma PowSquareBound(q: real, n: nat, c: real)
    requires q >= 0.0 && Pow(q, n) <= c
    ensures Pow(q, 2 * n) <= c * c
  {
    PowAdd(q, n, n);
    PowNonnegative(q, n);
    SquareAtMost(Pow(q, n), c);
  }

  /** 0.98 to the 256th power is below 0.0061, by repeated squaring. */
  lemma DragBound()
    ensures Pow(0.98, 256) <= 0.0061
  {
    var r := 0.98;
    assert Pow(r, 1) == r;
    PowSquareBound(r, 1, 0.98);
    PowSquareBound(r, 2, 0.9604);
    PowSquareBound(r, 4, 0.923);
    PowSquareBound(r, 8, 0.852);
    PowSquareBound(r, 16, 0.726);
    PowSquareBound(r, 32, 0.528);
    PowSquareBound(r, 64, 0.279);
    PowSquareBound(r, 128, 0.078);
  }

  /** Frames of `move` after which any spawned particle has been removed. */
  const LIFETIME_BOUND: nat := 256

  /**
   * No particle lives forever: one that starts within its ranges and below
   * the launch speed of 10 is slower than MIN_SPEED after LIFETIME_BOUND
   * moves, so the move-and-kill pass removes it within that many frames.
   */
  lemma LifetimeBounded(b: Body, frameCount: nat)
    requires WellFormed(b) && MagSq(b.vel) < SPAWN_DISTANCE * SPAWN_DISTANCE
    ensures !Alive(MovedTimes(b, frameCount, LIFETIME_BOUND))
  {
    PowNonnegative(b.airDrag, LIFETIME_BOUND);
    PowMonotonic(b.airDrag, 0.98, LIFETIME_BOUND);
    DragBound();
    SlowAfterMoves(b, frameCount, LIFETIME_BOUND);
  }

  /**
   * So every particle `draw` spawns is gone at most LIFETIME_BOUND frames
   * later: the population cannot fill up with particles that never die.
   */
  lemma SpawnedDies(mouse: Vec, pmouse: Vec, mag: Vec -> real, d: Draws, frameCount: nat)
    requires IsMagnitude(mag) && DrawsInRange(d)
    requires MagSq(Sub(mouse, pmouse)) > SPAWN_DISTANCE * SPAWN_DISTANCE
    ensures !Alive(MovedTimes(Spawned(mouse, pmouse, mag, d), frameCount, LIFETIME_BOUND))
  {
    SpawnedSpeed(mouse, pmouse, mag, d);
    LifetimeBounded(Spawned(mouse, pmouse, mag, d), frameCount);
  }

  /** Once airDrag to the `n`th power is at most 0.0061, `n` moves leave a launched particle too slow. */
  lemma SlowAfterMoves(b: Body, frameCount: nat, n: nat)
    requires MagSq(b.vel) < SPAWN_DISTANCE * SPAWN_DISTANCE
    requires 0.0 <= Pow(b.airDrag, n) <= 0.0061
    ensures !Alive(MovedTimes(b, frameCount, n))
  {
    VelocityAfterMoves(b, frameCount, n);
    var p := Pow(b.airDrag, n);
    MagSqScale(b.vel, p);
    TinySquareTimes(p, MagSq(b.vel));
  }

  /** A square of something at most 0.0061, times something below 100, is below 0.01. */
  lemma TinySquareTimes(p: real, m: real)
    requires 0.0 <= p <= 0.0061 && 0.0 <= m < 100.0
    ensures p * p * m < MIN_SPEED * MIN_SPEED
  {
    SquareAtMost(p, 0.0061);
    assert p * p * m <= 0.00003721 * m;
  }

  /** A particle object; `move` updates its position, velocity and hue in place. */
  class Particle {
    var pos: Vec
    var vel: Vec
    const mass: real
    const airDrag: real
    const initialHue: real
    var currentHue: real

    function State(): Body
      reads this
    {
      Body(pos, vel, mass, airDrag, initialHue, currentHue)
    }

    ghost predicate Valid()
      reads this
    {
      WellFormed(State())
    }

    /**
     * `new Particle(x, y, vx, vy)`, where (vx, vy) is the normalised pointer
     * displacement and `d` holds the constructor's random draws.
     */
    constructor (x: real, y: real, vx: real, vy: real, d: Draws)
      requires DrawsInRange(d)
      ensures Valid()
      ensures State() == Body(Vec(x, y), Launch(Vec(vx, vy), d), d.mass, d.airDrag, d.initialHue, d.initialHue)
    {
      pos := Vec(x, y);
      vel := Rotate(Scale(Vec(vx, vy), d.speed), d.turn);
      mass := d.mass;
      airDrag := d.airDrag;
      initialHue := d.initialHue;
      currentHue := d.initialHue;
    }

    /** `move()`: one frame of drag and motion. */
    method Move(frameCount: nat)
      modifies this
      ensures State() == Moved(old(State()), frameCount)
      ensures old(Valid()) ==> Valid()
    {
      vel := Scale(vel, airDrag);
      pos := Add(pos, vel);
      currentHue := JsRem360(initialHue + frameCount as real);
    }
  }

  /** The states of a list of particle objects, in list order. */
  function States(ps: seq<Particle>): (bs: seq<Body>)
    reads ps
    ensures |bs| == |ps|
  {
    if ps == [] then [] else [ps[0].State()] + States(ps[1..])
  }

  lemma {:induction false} StatesAt(ps: seq<Particle>, i: nat)
    requires i < |ps|
    ensures States(ps)[i] == ps[i].State()
  {
    if i > 0 {
      StatesAt(ps[1..], i - 1);
    }
  }

  /** The states of two lists one after the other are the states of the joined list. */
  lemma {:induction false} StatesAppend(a: seq<Particle>, b: seq<Particle>)
    ensures States(a + b) == States(a) + States(b)
  {
    if a != [] {
      StatesAppend(a[1..], b);
      assert (a + b)[1..] == a[1..] + b;
    } else {
      assert a + b == b;
    }
  }

  /** No object appears twice in the list: the head is not in the tail, and so on down. */
  predicate Distinct<T(==)>(s: seq<T>) {
    s == [] || (s[0] !in s[1..] && Distinct(s[1..]))
  }

  /** In a list without repeats, the entry at `i` differs from every other entry. */
  lemma {:induction false} DistinctAt<T>(s: seq<T>, i: nat)
    requires Distinct(s) && i < |s|
    ensures forall k :: 0 <= k < |s| && k != i ==> s[k] != s[i]
  {
    if i == 0 {
      forall k | 0 < k < |s|
        ensures s[k] != s[0]
      {
        assert s[k] == s[1..][k - 1];
      }
    } else {
      DistinctAt(s[1..], i - 1);
      assert s[i] == s[1..][i - 1];
      forall k | 0 < k < |s| && k != i
        ensures s[k] != s[i]
      {
        assert s[k] == s[1..][k - 1];
      }
    }
  }

  /** Distinct is the pairwise statement: any two positions hold different entries. */
  lemma DistinctPairwise<T>(s: seq<T>)
    ensures Distinct(s) <==> forall i, j :: 0 <= i < j < |s| ==> s[i] != s[j]
  {
  }

  /** Appending an entry not yet in the list keeps it free of repeats. */
  lemma {:induction false} DistinctAppend<T>(s: seq<T>, x: T)
    requires Distinct(s) && x !in s
    ensures Distinct(s + [x])
  {
    if s != [] {
      assert (s + [x])[1..] == s[1..] + [x];
      DistinctAppend(s[1..], x);
    }
  }

  /** The entries of `xs` whose flag in `kept` is set, in list order. */
  function Keep<T>(xs: seq<T>, kept: seq<bool>): seq<T>
    requires |xs| == |kept|
  {
    if xs == [] then []
    else (if kept[0] then [xs[0]] else []) + Keep(xs[1..], kept[1..])
  }

  /** Which particles pass the kill check. */
  function AliveFlags(bs: seq<Body>): (r: seq<bool>)
    ensures |r| == |bs|
    ensures forall k :: 0 <= k < |bs| ==> r[k] == Alive(bs[k])
  {
    seq(|bs|, k requires 0 <= k < |bs| => Alive(bs[k]))
  }

  /**
   * One step of the tail-to-head pass: with entries i + 1 onwards already
   * filtered, keeping entry i or splicing it out (`splice(i, 1)`) leaves
   * entries i onwards filtered and everything before i untouched.
   */
  lemma KeepSpliceStep<T>(xs: seq<T>, kept: seq<bool>, i: nat, cur: seq<T>)
    requires |xs| == |kept| && i < |xs|
    requires cur == xs[..i + 1] + Keep(xs[i + 1..], kept[i + 1..])
    ensures i < |cur|
    ensures kept[i] ==> cur == xs[..i] + Keep(xs[i..], kept[i..])
    ensures !kept[i] ==> cur[..i] + cur[i + 1..] == xs[..i] + Keep(xs[i..], kept[i..])
  {
    assert xs[i..][1..] == xs[i + 1..] && kept[i..][1..] == kept[i + 1..];
    var rest := Keep(xs[i + 1..], kept[i + 1..]);
    assert xs[..i + 1] == xs[..i] + [xs[i]];
    if !kept[i] {
      assert cur[..i] == xs[..i];
      assert cur[i + 1..] == rest;
    }
  }

  /** What is kept is drawn from the list, no more of it, and without new repeats. */
  lemma {:induction false} KeepSublist<T>(xs: seq<T>, kept: seq<bool>)
    requires |xs| == |kept|
    ensures forall x :: x in Keep(xs, kept) ==> x in xs
    ensures |Keep(xs, kept)| <= |xs|
    ensures Distinct(xs) ==> Distinct(Keep(xs, kept))
  {
    if xs != [] {
      var rest := Keep(xs[1..], kept[1..]);
      KeepSublist(xs[1..], kept[1..]);
      var all := Keep(xs, kept);
      assert all == (if kept[0] then [xs[0]] else []) + rest;
      forall x | x in all
        ensures x in xs
      {
        if x != xs[0] {
          assert x in rest && x in xs[1..];
        }
      }
      if Distinct(xs) {
        assert Distinct(xs[1..]) && Distinct(rest);
        if kept[0] {
          assert xs[0] !in rest;
          assert all[0] == xs[0] && all[1..] == rest;
        } else {
          assert all == rest;
        }
      }
    }
  }

  /**
   * When the objects' states are `bs` and an object is kept exactly when
   * its state is Alive, the states of the kept objects are the filtered `bs`.
   */
  lemma {:induction false} KeepStates(ps: seq<Particle>, bs: seq<Body>)
    requires |ps| == |bs|
    requires forall k :: 0 <= k < |ps| ==> ps[k].State() == bs[k]
    ensures States(Keep(ps, AliveFlags(bs))) == FilterAlive(bs)
  {
    if ps != [] {
      var kept := AliveFlags(bs);
      assert kept[1..] == AliveFlags(bs[1..]);
      var rest := Keep(ps[1..], kept[1..]);
      KeepStates(ps[1..], bs[1..]);
      if Alive(bs[0]) {
        var all := [ps[0]] + rest;
        assert Keep(ps, kept) == all;
        assert all[0] == ps[0] && all[1..] == rest;
        assert States(all) == [ps[0].State()] + States(rest);
      } else {
        assert Keep(ps, kept) == rest;
      }
    }
  }

  /** Objects whose states are, one by one, `bs` have States `bs`. */
  lemma {:induction false} StatesMatch(ps: seq<Particle>, bs: seq<Body>)
    requires |ps| == |bs|
    requires forall k :: 0 <= k < |ps| ==> ps[k].State() == bs[k]
    ensures States(ps) == bs
  {
    if ps != [] {
      StatesMatch(ps[1..], bs[1..]);
      assert bs == [bs[0]] + bs[1..];
    }
  }

  /**
   * The outcome of the move-and-kill pass: once every object of a list of
   * distinct, well-formed particles has been moved and the walk has reached
   * the head, every object's state is the moved one, and the list is what
   * Keep leaves of the Alive ones; its objects are distinct, come from the
   * list and are well-formed, and their states are the value-level Step of
   * the states before the pass.
   */
  lemma KeepAfterPass(ps: seq<Particle>, before: seq<Body>, frameCount: nat, cur: seq<Particle>)
    requires |before| == |ps| && Distinct(ps)
    requires forall k :: 0 <= k < |ps| ==> WellFormed(before[k])
    requires forall k :: 0 <= k < |ps| ==> ps[k].State() == MoveAll(before, frameCount)[k]
    requires cur == ps[..0] + Keep(ps[0..], AliveFlags(MoveAll(before, frameCount))[0..])
    ensures States(ps) == MoveAll(before, frameCount)
    ensures cur == Keep(ps, AliveFlags(MoveAll(before, frameCount)))
    ensures Distinct(cur) && |cur| <= |ps|
    ensures forall p :: p in cur ==> p in ps && WellFormed(p.State())
    ensures States(cur) == Step(before, frameCount)
  {
    var after := MoveAll(before, frameCount);
    var kept := AliveFlags(after);
    StatesMatch(ps, after);
    assert ps[..0] == [] && ps[0..] == ps && kept[0..] == kept;
    KeepSublist(ps, kept);
    KeepStates(ps, after);
    forall p | p in cur
      ensures WellFormed(p.State())
    {
      var k :| 0 <= k < |ps| && ps[k] == p;
      assert after[k] == Moved(before[k], frameCount);
    }
  }
}
