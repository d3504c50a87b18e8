/**
 * `serializeSketch` in canvas.js: the hue counter `huemue` it advances, and
 * the three flat number arrays it hands to the fragment shader. This module
 * holds the value-level specification of those arrays; the push loops that
 * build them are SceneSerializer.SerializeTrail and
 * SceneSerializer.SerializeParticles, which Canvas.Sketch.SerializeSketch calls.
 *
 * The canvas is `width` by `height` pixels, both positive. The colour of a
 * hue (p5's `color("hsl(h, 90%, 70%)")` read back through `red`, `green` and
 * `blue`) is library code and arrives as a function `colorOf`.
 */
module SceneSerializer {
  import opened Geometry
  import opened Particles

  datatype Rgb = Rgb(r: real, g: real, b: real)

  /** What `serializeSketch` returns: `data.trails`, `data.particles`, `data.colors`. */
  datatype SceneData = SceneData(trails: seq<real>, particles: seq<real>, colors: seq<real>)

  /** The counter update at the head of `serializeSketch`: add one, reset to 0 at 360. */
  function NextHue(h: int): (r: int)
    ensures 0 <= h < HUE_COUNT ==> 0 <= r < HUE_COUNT
  {
    if h + 1 >= HUE_COUNT then 0 else h + 1
  }

  /**
   * From anywhere in range the counter stays in range, and the update is
   * addition of one modulo 360: it wraps from 359 to 0 and from nowhere else.
   */
  lemma NextHueWraps(h: int)
    requires 0 <= h < HUE_COUNT
    ensures 0 <= NextHue(h) < HUE_COUNT
    ensures NextHue(h) == (h + 1) % HUE_COUNT
    ensures NextHue(h) == 0 <==> h == HUE_COUNT - 1
  {
  }

  /** The counter after `n` calls of `serializeSketch`. */
  function HueAfter(h: int, n: nat): int {
    if n == 0 then h else NextHue(HueAfter(h, n - 1))
  }

  /** `n` calls advance the counter by `n` modulo 360. */
  lemma {:induction false} HueAfterCalls(h: int, n: nat)
    requires 0 <= h < HUE_COUNT
    ensures HueAfter(h, n) == (h + n) % HUE_COUNT
  {
    if n > 0 {
      HueAfterCalls(h, n - 1);
      var k := (h + n - 1) / HUE_COUNT;
      assert h + n - 1 == k * HUE_COUNT + HueAfter(h, n - 1);
      if HueAfter(h, n - 1) + 1 == HUE_COUNT {
        assert h + n == (k + 1) * HUE_COUNT;
      } else {
        assert h + n == k * HUE_COUNT + (HueAfter(h, n - 1) + 1);
      }
    }
  }

  /** So the counter is periodic: 360 calls bring it back to where it was. */
  lemma HueCycle(h: int)
    requires 0 <= h < HUE_COUNT
    ensures HueAfter(h, HUE_COUNT as nat) == h
  {
    HueAfterCalls(h, HUE_COUNT as nat);
    assert h + HUE_COUNT == 1 * HUE_COUNT + h;
  }

  /** The x coordinate as the shader wants it: a fraction of the width. */
  function NormX(x: real, width: real): (u: real)
    requires width > 0.0
    ensures u * width == x
  {
    x / width
  }

  /** The y coordinate as the shader wants it: a fraction of the height, measured from the bottom. */
  function NormY(y: real, height: real): (v: real)
    requires height > 0.0
    ensures (1.0 - v) * height == y
  {
    1.0 - y / height
  }

  /** Back from the shader's unit square to canvas pixels. */
  function Denormalize(u: real, v: real, width: real, height: real): Vec {
    Vec(u * width, (1.0 - v) * height)
  }

  /** Normalising loses nothing: denormalising gives the point back. */
  lemma NormalizeRoundTrip(p: Vec, width: real, height: real)
    requires width > 0.0 && height > 0.0
    ensures Denormalize(NormX(p.x, width), NormY(p.y, height), width, height) == p
  {
    assert (p.x / width) * width == p.x;
    assert (1.0 - (1.0 - p.y / height)) * height == (p.y / height) * height == p.y;
  }

  /** A point lies on the canvas exactly when both of its coordinates normalise into [0, 1]. */
  lemma NormalizedInUnit(p: Vec, width: real, height: real)
    requires width > 0.0 && height > 0.0
    ensures 0.0 <= NormX(p.x, width) <= 1.0 <==> 0.0 <= p.x <= width
    ensures 0.0 <= NormY(p.y, height) <= 1.0 <==> 0.0 <= p.y <= height
  {
    var u, v := p.x / width, p.y / height;
    assert u * width == p.x && v * height == p.y;
    if 0.0 <= u <= 1.0 {
      assert 0.0 * width <= u * width <= 1.0 * width;
    }
    if 0.0 <= v <= 1.0 {
      assert 0.0 * height <= v * height <= 1.0 * height;
    }
  }

  /** `data.trails`: two numbers per trail point, in trail order. */
  function TrailArray(t: seq<Vec>, width: real, height: real): (r: seq<real>)
    requires width > 0.0 && height > 0.0
    ensures |r| == 2 * |t|
    decreases |t|
  {
    if t == [] then []
    else
      var p := t[|t| - 1];
      TrailArray(t[..|t| - 1], width, height) + [NormX(p.x, width), NormY(p.y, height)]
  }

  /** Entries 2i and 2i + 1 of `data.trails` are trail point i, normalised. */
  lemma {:induction false} TrailArrayAt(t: seq<Vec>, width: real, height: real, i: nat)
    requires width > 0.0 && height > 0.0 && i < |t|
    ensures TrailArray(t, width, height)[2 * i] == NormX(t[i].x, width)
    ensures TrailArray(t, width, height)[2 * i + 1] == NormY(t[i].y, height)
    decreases |t|
  {
    if i < |t| - 1 {
      TrailArrayAt(t[..|t| - 1], width, height, i);
    }
  }

  /** The trail can be read back from `data.trails`, point by point and in order. */
  lemma TrailArrayRecovers(t: seq<Vec>, width: real, height: real)
    requires width > 0.0 && height > 0.0
    ensures forall i :: 0 <= i < |t| ==>
      Denormalize(TrailArray(t, width, height)[2 * i], TrailArray(t, width, height)[2 * i + 1], width, height) == t[i]
  {
    forall i | 0 <= i < |t|
      ensures Denormalize(TrailArray(t, width, height)[2 * i], TrailArray(t, width, height)[2 * i + 1], width, height) == t[i]
    {
      TrailArrayAt(t, width, height, i);
      NormalizeRoundTrip(t[i], width, height);
    }
  }

  /** The third number of a particle: its mass times its speed, over 100. */
  function Intensity(b: Body, mag: Vec -> real): real {
    b.mass * mag(b.vel) / 100.0
  }

  /**
   * With the true magnitude the intensity is never negative, its square is
   * fixed by mass and squared speed alone, and a particle that survived the
   * kill check shows at least 0.001.
   */
  lemma IntensityMeaning(b: Body, mag: Vec -> real)
    requires IsMagnitude(mag) && WellFormed(b)
    ensures Intensity(b, mag) >= 0.0
    ensures 10000.0 * (Intensity(b, mag) * Intensity(b, mag)) == b.mass * b.mass * MagSq(b.vel)
    ensures Alive(b) ==> Intensity(b, mag) >= 0.001
  {
    var m, s := b.mass, mag(b.vel);
    assert s >= 0.0 && s * s == MagSq(b.vel);
    assert m * s >= 0.0;
    var i := Intensity(b, mag);
    assert 100.0 * i == m * s;
    assert (100.0 * i) * (100.0 * i) == (m * m) * (s * s);
    if Alive(b) {
      CompareMagnitude(mag, b.vel, MIN_SPEED);
      assert s >= 0.1;
      assert m * s >= 1.0 * s;
    }
  }

  /** `data.particles`: three numbers per particle, in list order. */
  function ParticleArray(bs: seq<Body>, width: real, height: real, mag: Vec -> real): (r: seq<real>)
    requires width > 0.0 && height > 0.0
    ensures |r| == 3 * |bs|
    decreases |bs|
  {
    if bs == [] then []
    else
      var b := bs[|bs| - 1];
      ParticleArray(bs[..|bs| - 1], width, height, mag)
        + [NormX(b.pos.x, width), NormY(b.pos.y, height), Intensity(b, mag)]
  }

  /** Entries 3i, 3i + 1 and 3i + 2 of `data.particles` are particle i's position and intensity. */
  lemma {:induction false} ParticleArrayAt(bs: seq<Body>, width: real, height: real, mag: Vec -> real, i: nat)
    requires width > 0.0 && height > 0.0 && i < |bs|
    ensures ParticleArray(bs, width, height, mag)[3 * i] == NormX(bs[i].pos.x, width)
    ensures ParticleArray(bs, width, height, mag)[3 * i + 1] == NormY(bs[i].pos.y, height)
    ensures ParticleArray(bs, width, height, mag)[3 * i + 2] == Intensity(bs[i], mag)
    decreases |bs|
  {
    if i < |bs| - 1 {
      ParticleArrayAt(bs[..|bs| - 1], width, height, mag, i);
    }
  }

  /** Positions can be read back from `data.particles`, particle by particle and in order. */
  lemma ParticleArrayRecovers(bs: seq<Body>, width: real, height: real, mag: Vec -> real)
    requires width > 0.0 && height > 0.0
    ensures forall i :: 0 <= i < |bs| ==>
      Denormalize(ParticleArray(bs, width, height, mag)[3 * i], ParticleArray(bs, width, height, mag)[3 * i + 1], width, height) == bs[i].pos
  {
    forall i | 0 <= i < |bs|
      ensures Denormalize(ParticleArray(bs, width, height, mag)[3 * i], ParticleArray(bs, width, height, mag)[3 * i + 1], width, height) == bs[i].pos
    {
      ParticleArrayAt(bs, width, height, mag, i);
      NormalizeRoundTrip(bs[i].pos, width, height);
    }
  }

  /** `data.colors`: one copy of the frame's colour per particle. */
  function ColorArray(n: nat, c: Rgb): (r: seq<real>)
    ensures |r| == 3 * n
  {
    if n == 0 then [] else ColorArray(n - 1, c) + [c.r, c.g, c.b]
  }

  /**
   * Every particle gets the same colour triple: the one of the frame's hue,
   * whatever the particle's own hue is.
   */
  lemma {:induction false} ColorsShared(n: nat, c: Rgb, i: nat)
    requires i < n
    ensures ColorArray(n, c)[3 * i..3 * i + 3] == [c.r, c.g, c.b]
  {
    if i < n - 1 {
      ColorsShared(n - 1, c, i);
      assert ColorArray(n, c)[3 * i..3 * i + 3] == ColorArray(n - 1, c)[3 * i..3 * i + 3];
    } else {
      assert ColorArray(n, c)[3 * i..3 * i + 3] == ColorArray(n, c)[3 * (n - 1)..];
    }
  }

  /** The first loop of `serializeSketch`: one pair of pushes per trail point, head first. */
  method SerializeTrail(trail: seq<Vec>, width: real, height: real) returns (trails: seq<real>)
    requires width > 0.0 && height > 0.0
    ensures trails == TrailArray(trail, width, height)
  {
    trails := [];
    for i := 0 to |trail|
      invariant trails == TrailArray(trail[..i], width, height)
    {
      assert trail[..i + 1][..i] == trail[..i];
      trails := trails + [NormX(trail[i].x, width), NormY(trail[i].y, height)];
    }
    assert trail[..|trail|] == trail;
  }

  /**
   * The second loop of `serializeSketch`: per particle, a triple of
   * position and intensity, and the triple of the colour of hue `hue`.
   * The particles are only read.
   */
  method SerializeParticles(ps: seq<Particle>, width: real, height: real, mag: Vec -> real, colorOf: int -> Rgb, hue: int)
    returns (parts: seq<real>, colors: seq<real>)
    requires width > 0.0 && height > 0.0
    ensures parts == ParticleArray(States(ps), width, height, mag)
    ensures colors == ColorArray(|ps|, colorOf(hue))
  {
    parts, colors := [], [];
    for i := 0 to |ps|
      invariant parts == ParticleArray(States(ps[..i]), width, height, mag)
      invariant colors == ColorArray(i, colorOf(hue))
    {
      var p := ps[i];
      StatesAppend(ps[..i], [p]);
      assert ps[..i + 1] == ps[..i] + [p];
      assert States(ps[..i + 1])[..i] == States(ps[..i]);
      parts := parts + [NormX(p.pos.x, width), NormY(p.pos.y, height), Intensity(p.State(), mag)];
      var itsColor := colorOf(hue);
      colors := colors + [itsColor.r, itsColor.g, itsColor.b];
    }
    assert ps[..|ps|] == ps;
  }
}
