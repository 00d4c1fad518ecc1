/**
 * The small part of glm that the renderer and the scene use: two-, three- and
 * four-component vectors over the reals, the componentwise operators, the dot
 * product, and normalisation.
 *
 * Floating point is replaced by exact real arithmetic. glm::sqrt is a foreign
 * call that Dafny cannot define on the reals, so every operation that needs it
 * takes the square root as a parameter `sqrt`; the properties that depend on it
 * assume only `IsSqrt(sqrt)`, i.e. that it returns the non-negative root.
 */
module Geometry {

  datatype Vec2 = Vec2(x: real, y: real)

  datatype Vec3 = Vec3(x: real, y: real, z: real)

  datatype Vec4 = Vec4(x: real, y: real, z: real, w: real)

  /** A ray as Intersect reads it: a start point and a direction. */
  datatype Ray = Ray(origin: Vec3, direction: Vec3)

  const Zero := Vec3(0.0, 0.0, 0.0)

  function Add(u: Vec3, v: Vec3): Vec3 {
    Vec3(u.x + v.x, u.y + v.y, u.z + v.z)
  }

  function Sub(u: Vec3, v: Vec3): Vec3 {
    Vec3(u.x - v.x, u.y - v.y, u.z - v.z)
  }

  /** glm's `vec3 * float`. */
  function Scale(v: Vec3, k: real): Vec3 {
    Vec3(v.x * k, v.y * k, v.z * k)
  }

  function Dot(u: Vec3, v: Vec3): real {
    u.x * v.x + u.y * v.y + u.z * v.z
  }

  /** The point reached after travelling `t` along the ray. */
  function At(ray: Ray, t: real): Vec3 {
    Add(ray.origin, Scale(ray.direction, t))
  }

  /** `sqrt` returns the non-negative square root of every non-negative real. */
  ghost predicate IsSqrt(sqrt: real -> real) {
    forall v :: 0.0 <= v ==> 0.0 <= sqrt(v) && sqrt(v) * sqrt(v) == v
  }

  /*
   * Sign facts about products. Z3 reasons poorly about the sign of a square
   * once the square has been named or passed through a call, so these facts
   * are stated about the function applications `Mul(a, b)` and `Sq(a)`, which
   * the solver treats as opaque atoms until it unfolds them.
   */

  function Mul(a: real, b: real): real { a * b }

  function Sq(a: real): real { a * a }

  lemma MulPositive(a: real, b: real)
    requires 0.0 < a && 0.0 < b
    ensures 0.0 < Mul(a, b)
  {
  }

  lemma MulZero(a: real, b: real)
    requires Mul(a, b) == 0.0 && b != 0.0
    ensures a == 0.0
  {
  }

  lemma SqPositive(a: real)
    requires a != 0.0
    ensures 0.0 < Sq(a)
  {
    if 0.0 < a {
      MulPositive(a, a);
    } else {
      MulPositive(-a, -a);
      assert Sq(a) == Mul(-a, -a);
    }
  }

  lemma SqNonNegative(a: real)
    ensures 0.0 <= Sq(a)
  {
  }

  /** The square root is determined by its two defining properties. */
  lemma SqrtUnique(sqrt: real -> real, v: real, r: real)
    requires IsSqrt(sqrt)
    requires 0.0 <= r && r * r == v
    ensures sqrt(v) == r
  {
    var s := sqrt(v);
    assert 0.0 <= s && s * s == v;
    assert Mul(s - r, s + r) == 0.0;
    if s + r != 0.0 {
      MulZero(s - r, s + r);
    }
  }

  lemma DotSelfPositive(v: Vec3)
    requires v != Zero
    ensures 0.0 < Dot(v, v)
  {
    assert Dot(v, v) == Sq(v.x) + Sq(v.y) + Sq(v.z);
    SqNonNegative(v.x);
    SqNonNegative(v.y);
    SqNonNegative(v.z);
    if v.x != 0.0 {
      SqPositive(v.x);
    } else if v.y != 0.0 {
      SqPositive(v.y);
    } else {
      SqPositive(v.z);
    }
  }

  lemma DotScale(u: Vec3, v: Vec3, k: real)
    ensures Dot(Scale(u, k), v) == k * Dot(u, v)
    ensures Dot(u, Scale(v, k)) == k * Dot(u, v)
  {
  }

  /** A vector is determined by its dot products with all vectors. */
  lemma DotDetermines(u: Vec3, v: Vec3)
    requires forall k :: Dot(u, k) == Dot(v, k)
    ensures u == v
  {
    assert Dot(u, Vec3(1.0, 0.0, 0.0)) == Dot(v, Vec3(1.0, 0.0, 0.0));
    assert Dot(u, Vec3(0.0, 1.0, 0.0)) == Dot(v, Vec3(0.0, 1.0, 0.0));
    assert Dot(u, Vec3(0.0, 0.0, 1.0)) == Dot(v, Vec3(0.0, 0.0, 1.0));
  }

  /** The Euclidean length of `v`. */
  function Length(sqrt: real -> real, v: Vec3): (len: real)
    requires IsSqrt(sqrt)
    ensures 0.0 <= len && len * len == Dot(v, v)
    ensures v != Zero ==> 0.0 < len
  {
    assert v != Zero ==> Dot(v, v) > 0.0 by {
      if v != Zero { DotSelfPositive(v); }
    }
    sqrt(Dot(v, v))
  }

  /**
   * glm::normalize: `v` divided by its length. The result has length one
   * and, scaled back by that length, gives `v` again.
   */
  function Normalize(sqrt: real -> real, v: Vec3): (n: Vec3)
    requires IsSqrt(sqrt)
    requires v != Zero
    ensures Dot(n, n) == 1.0
    ensures Scale(n, Length(sqrt, v)) == v
  {
    var len := Length(sqrt, v);
    var n := Scale(v, 1.0 / len);
    assert Dot(n, n) == Dot(v, v) / (len * len) by {
      assert Dot(n, n) == Dot(v, v) * ((1.0 / len) * (1.0 / len));
    }
    n
  }
}
