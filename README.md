# canvas.js particle trail, modelled in Dafny

`canvas.js` is a p5.js sketch. Every frame, its `draw` function runs the
following steps:

1. It appends the pointer position to a global `trail` array.
2. It evicts at most one sample from the head of the trail, and only when
   the trail is longer than `MAX_TRAIL_COUNT` (32). The trim loop runs
   once (`removeCount = 1`); its `trail.length == 0` break is part of the
   model and can never fire, because a push has just happened.
3. It may spawn one `Particle` at the previous pointer position, launched
   along the pointer's displacement.
4. It walks the global `particles` array from tail to head, moving each
   particle once and splicing out the ones slower than 0.1.
5. It calls `serializeSketch`. That function advances a global hue counter
   `huemue`, which wraps at 360, and flattens the trail and the particles
   into three number arrays for a fragment shader.

The project models this per-frame simulation. Its modules are:

- `Geometry` (geometry.dfy): plane vectors over the reals. Magnitudes are
  compared through their squares. Where the true magnitude is needed, it is
  a parameter `mag`, and `IsMagnitude(mag)` pins it to the Euclidean norm.
- `TrailBuffer` (trail.dfy): the push-and-trim step as a function on
  sequences, plus what any run of frames does to the trail.
- `Particles` (particles.dfy) holds:
  - the `Particle` class, with its constructor and `move`;
  - the particle's fields as a value (`Body`);
  - the spawn guard;
  - the move-and-kill pass on values (`Step`: move all, then keep those
    still fast enough);
  - the facts linking the tail-to-head splice loop to that pass;
  - a lifetime bound.
- `SceneSerializer` (serializer.dfy): the hue counter, the three flat
  arrays as functions, and the two push loops that build them.
- `Canvas` (canvas.dfy): the class `Sketch`, which holds `trail`,
  `particles` and `huemue`. Its methods are the steps of `draw` and
  `serializeSketch`, plus `Draw`, which runs one whole frame. The
  move-and-kill loop itself is `MoveAndKillPass`.

The caller of each step supplies these inputs:
- the pointer positions (`mouseX`, `mouseY`, `pmouseX`, `pmouseY`);
- p5's `frameCount`;
- the canvas size;
- the constructor's random draws;
- the square root behind `mag()`;
- the HSL colour conversion.

Two consequences of the trim code are worth stating:

- Eviction is limited to one sample per frame, so a trail longer than 32
  keeps its length (`TrailBuffer.PushAllOverCapacity`). From the empty
  start the trail never exceeds 32.
- After 40 pushes from empty, the trail holds pushes 8..39, counting from 0
  (`TrailBuffer.TrailAfterFrames`).

## Model

| member | source | states |
|---|---|---|
| TrailBuffer.PushTrim | canvas.js:164-176 | one frame's push and trim; a trail within 32 stays within 32 |
| TrailBuffer.PushTrimFifo | canvas.js:164-176 | the new sample is last; the result is a suffix of old trail + sample; at most one sample goes, always the oldest, and one goes exactly when the trail was at capacity |
| TrailBuffer.PushAll | canvas.js:164-176 | a run of frames, one push and trim per sample; a trail within 32 stays within 32, and after any sample that sample is last |
| TrailBuffer.PushAllWithinCapacity | canvas.js:164-176 | from a trail within capacity, any run of frames leaves exactly the newest min(n, 32) of all samples, oldest first |
| TrailBuffer.TrailAfterFrames | canvas.js:110 | from the empty trail, n frames leave the last min(n, 32) samples |
| TrailBuffer.PushAllOverCapacity | canvas.js:166-176 | a trail over capacity keeps its length: each frame drops the oldest sample and appends the new one |
| Canvas.Sketch.PushTrail | canvas.js:164-176 | the in-place push and one-pass trim loop leave exactly PushTrim of the old trail |
| Canvas.Sketch.constructor | canvas.js:110-111 | the sketch starts with an empty trail, no particles and `huemue = 0`, which satisfies the invariant |
| Particles.SpawnGuardMagnitude | canvas.js:179-181 | the guard with `mouse.mag() > 10` is the guard on squared magnitudes |
| Particles.Particle.constructor | canvas.js:87-96 | the fields are the position, the launched velocity and the drawn mass, drag and hue, and lie in their ranges |
| Particles.Launch | canvas.js:89 | the constructor's velocity; its squared speed is the squared turn times the squared draw times the squared direction, so a unit direction and a unit turn give speed exactly the draw |
| Particles.SpawnGuard | canvas.js:179-181 | the spawn condition; when it holds the population after the push is at most 100 and the displacement is non-zero, so normalising it is well defined |
| Particles.Spawned | canvas.js:180-183 | the particle a qualifying pointer move creates; with draws in range it is well-formed and its current hue is its initial hue |
| Particles.SpawnedSpeed | canvas.js:180-183 | a spawned particle is well-formed and starts with speed equal to the draw, below 10 |
| Canvas.Sketch.Spawn | canvas.js:179-185 | if the guard holds, one fresh particle in the spawned state is appended and the earlier ones are untouched; otherwise nothing changes; the population stays within 100 |
| Particles.JsRem360 | canvas.js:103 | JavaScript's `%` by 360: in [0, 360) for non-negative input, sign of the input otherwise, identity on [0, 360) |
| Particles.JsRem360Periodic | canvas.js:103 | the hue repeats every 360 frames |
| Particles.Moved | canvas.js:98-104 | `move` on values; mass, drag and initial hue stay, and every field stays in its range, `currentHue` in [0, 360) included |
| Particles.MovedFields | canvas.js:98-100 | the position moves by the new (dragged) velocity, not the old one, and the velocity keeps its direction: parallel to the old one and pointing the same way |
| Particles.Particle.Move | canvas.js:98-104 | the object's new fields are Moved of its old fields, and a valid particle stays valid |
| Particles.MoveSlowsDown | canvas.js:91 | each move multiplies the squared speed by drag squared, so the speed never rises and strictly falls unless it is zero |
| Particles.VelocityAfterMoves | canvas.js:99 | after n moves the velocity is the initial one scaled by drag to the n-th power |
| Particles.LifetimeBounded | canvas.js:91 | a well-formed particle slower than 10 is below the kill speed after 256 moves |
| Particles.SpawnedDies | canvas.js:183-192 | every spawned particle is killed within 256 frames |
| Particles.Alive | canvas.js:190 | a particle that passes the kill check is moving: its velocity is non-zero |
| Particles.TooSlowIffNotAlive | canvas.js:190 | the kill check `vel.mag() < 0.1` holds exactly when the particle is not Alive |
| Particles.MoveAll | canvas.js:188-189 | every particle state moved once; the length and the ranges of the fields are kept |
| Particles.FilterAlive | canvas.js:190-192 | the kill on values: no longer than the input, and only Alive members of the input |
| Particles.Step | canvas.js:188-193 | the move-and-kill pass on values: no more particles than before, all Alive, all still in range when they started in range |
| Particles.FilterAliveMembers | canvas.js:190-191 | the filter keeps exactly the particles that pass the check |
| Particles.FilterAliveAppend | canvas.js:188-193 | the filter distributes over concatenation: survivors keep their relative order |
| Particles.StepSurvivors | canvas.js:188-193 | after the pass the list holds exactly the Alive moved particles: none is lost and none is invented |
| Particles.DistinctPairwise | canvas.js:183 | the sketch's no-repeats invariant on the particle list (each entry is a `new Particle`) is the pairwise statement that any two positions hold different objects |
| Particles.KeepSpliceStep | canvas.js:190-192 | splicing out entry i, or keeping it, extends the filtered tail by one without touching entries before i |
| Particles.KeepSublist | canvas.js:191 | splicing keeps only list members, never lengthens, and keeps the objects distinct |
| Particles.KeepStates | canvas.js:188-193 | the objects kept by the alive flags have exactly the filtered states |
| Particles.KeepAfterPass | canvas.js:188-193 | once the walk reaches the head, every object has been moved once and the list is the alive ones in order, with states Step of the old states |
| Canvas.MoveAndKillPass | canvas.js:188-193 | the tail-to-head loop moves every object once and returns the Alive ones in order, their states Step of the old states |
| Canvas.Sketch.MoveAndKill | canvas.js:188-193 | the sketch's list becomes the survivors of the pass, the invariant is kept, and every old particle was moved |
| SceneSerializer.NextHue | canvas.js:222-225 | the counter update; from within [0, 359] it stays within [0, 359] |
| SceneSerializer.NextHueWraps | canvas.js:222-225 | the counter stays in [0, 359] and advances by one modulo 360, wrapping from 359 and from nowhere else |
| SceneSerializer.HueAfterCalls | canvas.js:215-225 | n calls advance the counter by n modulo 360 |
| SceneSerializer.HueCycle | canvas.js:222-225 | 360 calls bring the counter back where it was |
| SceneSerializer.NormX | canvas.js:228 | the x coordinate as a fraction of the width; multiplying back by the width gives the pixel coordinate |
| SceneSerializer.NormY | canvas.js:229 | the y coordinate as a fraction of the height from the bottom; one minus it, times the height, gives the pixel coordinate |
| SceneSerializer.NormalizeRoundTrip | canvas.js:228-229 | (x / width, 1 - y / height) loses nothing: the point can be recovered |
| SceneSerializer.NormalizedInUnit | canvas.js:228-229 | both normalised coordinates are in [0, 1] exactly when the point is on the canvas |
| SceneSerializer.TrailArray | canvas.js:226-230 | `data.trails` has two numbers per trail point |
| SceneSerializer.TrailArrayRecovers | canvas.js:226-230 | each trail point is read back from entries 2i and 2i + 1 |
| SceneSerializer.SerializeTrail | canvas.js:226-230 | the push loop builds exactly TrailArray |
| SceneSerializer.IntensityMeaning | canvas.js:236 | the third particle number is non-negative, its square is mass² × speed² / 10000, and a surviving particle shows at least 0.001 |
| SceneSerializer.ParticleArray | canvas.js:232-236 | `data.particles` has three numbers per particle |
| SceneSerializer.ParticleArrayAt | canvas.js:233-236 | entries 3i, 3i + 1 and 3i + 2 are particle i's normalised position and intensity |
| SceneSerializer.ParticleArrayRecovers | canvas.js:233-235 | each particle position is read back from entries 3i and 3i + 1 |
| SceneSerializer.ColorArray | canvas.js:238-239 | `data.colors` has three numbers per particle |
| SceneSerializer.ColorsShared | canvas.js:238-239 | every particle's triple is the colour of the frame's `huemue`, whatever its own hue |
| SceneSerializer.SerializeParticles | canvas.js:232-240 | the push loop builds exactly ParticleArray and ColorArray, reading the particles only |
| Canvas.Sketch.SerializeSketch | canvas.js:216-243 | the counter advances by NextHue, the three arrays are TrailArray, ParticleArray and ColorArray of the unchanged trail and particles, and the invariant is kept |
| Canvas.Sketch.Advance | canvas.js:164-193 | one frame's simulation: the trail is PushTrim of the old one, and the particle states are Step of the old states plus the spawned particle when the guard held |
| Canvas.Sketch.Draw | canvas.js:159-197 | one frame: Advance, then `serializeSketch` over the new state |
| Geometry.CompareMagnitude | canvas.js:181 | comparing a magnitude with a constant is comparing squares |
| Geometry.NormalizeUnit | canvas.js:182 | normalising a non-zero vector gives magnitude one |
| Geometry.MagSqRotate | canvas.js:89 | rotating by a unit (cos, sin) pair keeps the magnitude |

## Left out

- The vertex and fragment shaders (canvas.js:6-83). They are GPU
  floating-point code, not simulation logic.
- `preload`, `setup` and `windowResized` (canvas.js:118-156, 253-277).
  They are canvas creation, DOM lookup and resize plumbing.
- `background`, `noStroke`, the uniform uploads and the drawing calls of
  `draw` (canvas.js:160-161, 195-208). They are rendering side effects.
- Floating point: every coordinate, speed and hue is an exact real. IEEE
  rounding, overflow and NaN are not modelled.
- The square root behind `vel.mag()` and `mouse.mag()` is the parameter
  `mag`. Dafny's reals have no square root.
- Trigonometry: `rotate(radians(random(-25, 25)))` is a rotation by a unit
  (cos, sin) pair with a cosine of at least 0.9. Its angle is not computed.
- Randomness: the constructor's draws arrive as a `Draws` value, and
  `DrawsInRange` states the documented ranges.
- The HSL-to-RGB conversion through p5's `color`, `red`, `green` and `blue`
  is the parameter `colorOf`. It is library code.
- `colorIndex` (canvas.js:92) is not modelled. It is drawn but never read.
- Canvas.Sketch.SerializeSketch: requires a positive canvas size. The
  source divides by `width` and `height` unguarded. A zero-size canvas
  would give JavaScript's Infinity or NaN, which the reals cannot express.
- Canvas.MoveAndKillPass: splices a sequence value that
  Canvas.Sketch.MoveAndKill then stores back in the sketch. The source
  splices the global array in place. Nothing reads the array between the
  splices, so the outcome is the same, but aliasing of the array is not
  modelled.
