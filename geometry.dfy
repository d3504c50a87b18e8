/**
 * Plane vectors over the reals, standing in for the p5.Vector values that
 * canvas.js uses for positions, velocities and pointer displacements.
 * Coordinates are exact reals rather than IEEE doubles.
 *
 * p5's `mag()` is a square root, which Dafny's reals do not have. Wherever
 * the sketch compares a magnitude with a constant, the model compares the
 * squared magnitude with the squared constant; where the sketch needs the
 * magnitude itself (normalising a vector, the intensity it hands to the
 * shader) the square root is a parameter `mag`, and `IsMagnitude(mag)`
 * says that it is the Euclidean norm.
 */
module Geometry {

  datatype Vec = Vec(x: real, y: real)

  function Add(a: Vec, b: Vec): Vec {
    Vec(a.x + b.x, a.y + b.y)
  }

  function Sub(a: Vec, b: Vec): Vec {
    Vec(a.x - b.x, a.y - b.y)
  }

  /** p5's `v.mult(k)`. */
  function Scale(v: Vec, k: real): Vec {
    Vec(k * v.x, k * v.y)
  }

  /**
   * p5's `v.rotate(a)`, with the angle given by its cosine and sine as the
   * two components of `turn`.
   */
  function Rotate(v: Vec, turn: Vec): Vec {
    Vec(turn.x * v.x - turn.y * v.y, turn.y * v.x + turn.x * v.y)
  }

  /** The squared Euclidean magnitude; never negative. */
  function MagSq(v: Vec): (m: real)
    ensures m >= 0.0
  {
    v.x * v.x + v.y * v.y
  }

  /** `mag` is the Euclidean norm: non-negative, and its square is MagSq. */
  ghost predicate IsMagnitude(mag: Vec -> real) {
    forall v :: mag(v) >= 0.0 && mag(v) * mag(v) == MagSq(v)
  }

  /** p5's `v.normalize()`: divide by the magnitude unless it is zero. */
  function Normalize(v: Vec, mag: Vec -> real): Vec {
    var m := mag(v);
    if m == 0.0 then v else Scale(v, 1.0 / m)
  }

  lemma MagSqScale(v: Vec, k: real)
    ensures MagSq(Scale(v, k)) == k * k * MagSq(v)
  {
    calc {
      MagSq(Scale(v, k));
      (k * v.x) * (k * v.x) + (k * v.y) * (k * v.y);
      k * k * (v.x * v.x) + k * k * (v.y * v.y);
      k * k * MagSq(v);
    }
  }

  /** Rotation by a unit (cosine, sine) pair keeps the magnitude. */
  lemma MagSqRotate(v: Vec, turn: Vec)
    ensures MagSq(Rotate(v, turn)) == MagSq(turn) * MagSq(v)
  {
    var c, s := turn.x, turn.y;
    calc {
      MagSq(Rotate(v, turn));
      (c * v.x - s * v.y) * (c * v.x - s * v.y) + (s * v.x + c * v.y) * (s * v.x + c * v.y);
      c * c * (v.x * v.x) + s * s * (v.y * v.y) + s * s * (v.x * v.x) + c * c * (v.y * v.y);
      (c * c + s * s) * (v.x * v.x + v.y * v.y);
    }
  }

  /** A non-zero vector normalised by the true magnitude has magnitude one. */
  lemma NormalizeUnit(v: Vec, mag: Vec -> real)
    requires IsMagnitude(mag)
    requires MagSq(v) > 0.0
    ensures MagSq(Normalize(v, mag)) == 1.0
  {
    var m := mag(v);
    assert m * m == MagSq(v);
    assert m != 0.0;
    MagSqScale(v, 1.0 / m);
    calc {
      MagSq(Normalize(v, mag));
      (1.0 / m) * (1.0 / m) * MagSq(v);
      (1.0 / m) * (1.0 / m) * (m * m);
      ((1.0 / m) * m) * ((1.0 / m) * m);
      1.0;
    }
  }

  /** Squaring is strictly increasing on the non-negative reals. */
  lemma SquareLess(a: real, b: real)
    requires 0.0 <= a < b
    ensures a * a < b * b
  {
    var d := b - a;
    assert a * d >= 0.0;
    assert d * d > 0.0;
    assert b * b == a * a + 2.0 * (a * d) + d * d;
  }

  /** A square of something below `b` is below `b * b`. */
  lemma SquareBelow(x: real, a: real, b: real)
    requires x == a * a && 0.0 <= a < b
    ensures x < b * b
  {
    SquareLess(a, b);
  }

  /**
   * Comparing a magnitude with a non-negative constant is comparing the
   * squared magnitude with the squared constant, so `|v| < 0.1` and
   * `|v| > 10` can be decided without a square root.
   */
  lemma CompareMagnitude(mag: Vec -> real, v: Vec, c: real)
    requires IsMagnitude(mag)
    requires c >= 0.0
    ensures mag(v) < c <==> MagSq(v) < c * c
    ensures mag(v) > c <==> MagSq(v) > c * c
  {
    var m := mag(v);
    assert m >= 0.0 && m * m == MagSq(v);
    if m < c {
      SquareLess(m, c);
    } else if c < m {
      SquareLess(c, m);
    }
  }
}
