/**
 * The per-frame simulation state of canvas.js (the globals `trail`,
 * `particles` and `huemue`) and the steps of `draw` and `serializeSketch`
 * that update it in place.
 *
 * The pointer positions (`mouseX`, `mouseY`, `pmouseX`, `pmouseY`), the
 * frame counter, the canvas size, the constructor's random draws, the
 * square root behind `mag()` and the HSL colour conversion are supplied by
 * the caller of each step.
 */
module Canvas {
  import opened Geometry
  import opened TrailBuffer
  import opened Particles
  import opened SceneSerializer

  class Sketch {
    var trail: seq<Vec>
    var particles: seq<Particle>
    var huemue: int

    /**
     * The bounds `draw` and `serializeSketch` keep: a trail within
     * capacity, at most MAX_PARTICLE_COUNT particles, each object once and
     * each within its ranges, and the hue counter within 0 .. 359.
     */
    ghost predicate Valid()
      reads this, particles
    {
      && |trail| <= MAX_TRAIL_COUNT
      && |particles| <= MAX_PARTICLE_COUNT
      && 0 <= huemue < HUE_COUNT
      && Distinct(particles)
      && forall p :: p in particles ==> p.Valid()
    }

    /** The state when the page loads: no trail, no particles, `huemue = 0`. */
    constructor ()
      ensures Valid()
      ensures trail == [] && particles == [] && huemue == 0
    {
      trail := [];
      particles := [];
      huemue := 0;
    }

    /**
     * The head of `draw`: push the pointer sample, then run the one-pass
     * eviction loop (`removeCount = 1`). The empty-trail break cannot fire,
     * since the push has just happened.
     */
    method PushTrail(mouse: Vec)
      requires Valid()
      modifies this`trail
      ensures Valid()
      ensures trail == PushTrim(old(trail), mouse)
    {
      trail := trail + [mouse];
      var removeCount := 1;
      for i := 0 to removeCount
        invariant trail == if i == 0 then old(trail) + [mouse] else PushTrim(old(trail), mouse)
      {
        if |trail| == 0 {
          break;
        }
        if |trail| > MAX_TRAIL_COUNT {
          trail := trail[1..];
        }
      }
    }

    /**
     * The spawn of `draw`: when SpawnGuard holds, one new particle at the
     * previous pointer position, launched along the normalised pointer
     * displacement, joins the end of the list; otherwise nothing changes.
     */
    method Spawn(mouse: Vec, pmouse: Vec, mag: Vec -> real, d: Draws)
      requires Valid() && IsMagnitude(mag) && DrawsInRange(d)
      modifies this`particles
      ensures Valid()
      ensures SpawnGuard(|trail|, |old(particles)|, mouse, pmouse) ==>
        && |particles| == |old(particles)| + 1
        && particles[..|old(particles)|] == old(particles)
        && fresh(particles[|old(particles)|])
        && particles[|old(particles)|].State() == Spawned(mouse, pmouse, mag, d)
      ensures !SpawnGuard(|trail|, |old(particles)|, mouse, pmouse) ==> particles == old(particles)
    {
      if |trail| > 1 && |particles| < MAX_PARTICLE_COUNT {
        var dir := Sub(mouse, pmouse);
        CompareMagnitude(mag, dir, SPAWN_DISTANCE);
        if mag(dir) > SPAWN_DISTANCE {
          dir := Normalize(dir, mag);
          var p := new Particle(pmouse.x, pmouse.y, dir.x, dir.y, d);
          DistinctAppend(particles, p);
          particles := particles + [p];
          assert particles[..|old(particles)|] == old(particles);
        }
      }
    }

    /**
     * The move-and-kill pass of `draw`, over the sketch's particle list:
     * every particle is moved once, and the list keeps, in order, the ones
     * whose new speed passes the kill check.
     */
    method MoveAndKill(frameCount: nat, mag: Vec -> real)
      requires Valid() && IsMagnitude(mag)
      modifies this`particles, particles
      ensures Valid()
      ensures States(old(particles)) == MoveAll(old(States(particles)), frameCount)
      ensures particles == Keep(old(particles), AliveFlags(MoveAll(old(States(particles)), frameCount)))
      ensures States(particles) == Step(old(States(particles)), frameCount)
    {
      particles := MoveAndKillPass(particles, frameCount, mag);
    }

    /**
     * `serializeSketch`: advance the hue counter, then build the three flat
     * arrays. Every particle gets the colour of the advanced counter.
     */
    method SerializeSketch(width: real, height: real, mag: Vec -> real, colorOf: int -> Rgb) returns (data: SceneData)
      requires Valid() && width > 0.0 && height > 0.0
      modifies this`huemue
      ensures Valid()
      ensures huemue == NextHue(old(huemue))
      ensures data.trails == TrailArray(trail, width, height)
      ensures data.particles == ParticleArray(States(particles), width, height, mag)
      ensures data.colors == ColorArray(|particles|, colorOf(huemue))
    {
      huemue := huemue + 1;
      if huemue >= HUE_COUNT {
        huemue := 0;
      }
      var trails := SerializeTrail(trail, width, height);
      var parts, colors := SerializeParticles(particles, width, height, mag, colorOf, huemue);
      data := SceneData(trails, parts, colors);
    }

    /**
     * The simulation part of one frame of `draw`: push and trim the trail,
     * maybe spawn, then move and kill. A particle born in this frame is
     * moved in the same frame.
     */
    method Advance(mouse: Vec, pmouse: Vec, frameCount: nat, mag: Vec -> real, d: Draws)
      requires Valid() && IsMagnitude(mag) && DrawsInRange(d)
      modifies this`trail, this`particles, particles
      ensures Valid()
      ensures trail == PushTrim(old(trail), mouse)
      ensures States(particles) == Step(old(States(particles)) +
        (if SpawnGuard(|trail|, |old(particles)|, mouse, pmouse) then [Spawned(mouse, pmouse, mag, d)] else []), frameCount)
    {
      ghost var population, before := particles, States(particles);
      PushTrail(mouse);
      ghost var born := SpawnGuard(|trail|, |population|, mouse, pmouse);
      Spawn(mouse, pmouse, mag, d);
      assert States(population) == before;
      if born {
        assert particles == population + [particles[|population|]];
        StatesAppend(population, [particles[|population|]]);
      }
      assert States(particles) == before + if born then [Spawned(mouse, pmouse, mag, d)] else [];
      MoveAndKill(frameCount, mag);
    }

    /** One frame of `draw`: Advance, then `serializeSketch`. */
    method Draw(mouse: Vec, pmouse: Vec, frameCount: nat, mag: Vec -> real, d: Draws,
                width: real, height: real, colorOf: int -> Rgb) returns (data: SceneData)
      requires Valid() && IsMagnitude(mag) && DrawsInRange(d) && width > 0.0 && height > 0.0
      modifies this, particles
      ensures Valid()
      ensures trail == PushTrim(old(trail), mouse)
      ensures huemue == NextHue(old(huemue))
      ensures States(particles) == Step(old(States(particles)) +
        (if SpawnGuard(|trail|, |old(particles)|, mouse, pmouse) then [Spawned(mouse, pmouse, mag, d)] else []), frameCount)
      ensures data.trails == TrailArray(trail, width, height)
      ensures data.particles == ParticleArray(States(particles), width, height, mag)
      ensures data.colors == ColorArray(|particles|, colorOf(huemue))
    {
      Advance(mouse, pmouse, frameCount, mag, d);
      data := SerializeSketch(width, height, mag, colorOf);
    }
  }

  /**
   * The move-and-kill loop: walk the list from its tail to its head, move
   * each particle once, and splice it out when its new speed is below
   * MIN_SPEED. Because the walk goes backwards, a splice only shifts
   * particles already visited, so none is skipped and none moved twice.
   */
  method MoveAndKillPass(ps: seq<Particle>, frameCount: nat, mag: Vec -> real) returns (live: seq<Particle>)
    requires IsMagnitude(mag) && Distinct(ps)
    requires forall p :: p in ps ==> p.Valid()
    modifies ps
    ensures States(ps) == MoveAll(old(States(ps)), frameCount)
    ensures live == Keep(ps, AliveFlags(MoveAll(old(States(ps)), frameCount)))
    ensures States(live) == Step(old(States(ps)), frameCount)
    ensures Distinct(live) && |live| <= |ps|
    ensures forall p :: p in live ==> p in ps && p.Valid()
  {
    ghost var before := States(ps);
    ghost var after := MoveAll(before, frameCount);
    ghost var kept := AliveFlags(after);
    forall k | 0 <= k < |ps|
      ensures before[k] == ps[k].State() && WellFormed(before[k])
    {
      StatesAt(ps, k);
      assert ps[k] in ps;
    }
    live := ps;
    var i := |live| - 1;
    while i > -1
      invariant -1 <= i < |ps|
      invariant live == ps[..i + 1] + Keep(ps[i + 1..], kept[i + 1..])
      invariant forall k :: 0 <= k < |ps| ==> ps[k].State() == if k <= i then before[k] else after[k]
    {
      KeepSpliceStep(ps, kept, i, live);
      DistinctAt(ps, i);
      var p := live[i];
      assert p == ps[i];
      p.Move(frameCount);
      TooSlowIffNotAlive(p.State(), mag);
      if TooSlow(p.State(), mag) {
        live := live[..i] + live[i + 1..];
      }
      i := i - 1;
    }
    KeepAfterPass(ps, before, frameCount, live);
  }
}
