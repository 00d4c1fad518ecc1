/**
 * The scene description: materials, the hittable objects (spheres) and the
 * scene record that holds both, with the sphere's analytic ray intersection.
 */
module Scenes {
  import opened Geometry

  /**
   * Surface attributes. Hittables refer to a material by its index in the
   * scene's material list.
   */
  datatype Material = Material(
    albedo: Vec3,
    roughness: real,
    metallic: real,
    emissionPower: real,
    emissionColor: Vec3)

  /** The material a default-initialised Material holds. */
  const DefaultMaterial := Material(Vec3(1.0, 1.0, 1.0), 1.0, 0.0, 0.0, Zero)

  /**
   * The light the material gives off: its emission colour scaled by its
   * emission power. With no power or no colour it gives off nothing. Its
   * component along every direction is the power times the colour's, which
   * pins it down to colour * power (DotDetermines).
   */
  function GetEmission(m: Material): (e: Vec3)
    ensures m.emissionPower == 0.0 || m.emissionColor == Zero ==> e == Zero
    ensures forall k :: Dot(e, k) == m.emissionPower * Dot(m.emissionColor, k)
  {
    Scale(m.emissionColor, m.emissionPower)
  }

  /** GetEmission's contract leaves no freedom: any vector meeting it is the emission. */
  lemma EmissionDeterminedByContract(m: Material, e: Vec3)
    requires forall k :: Dot(e, k) == m.emissionPower * Dot(m.emissionColor, k)
    ensures e == GetEmission(m)
  {
    DotDetermines(e, GetEmission(m));
  }

  lemma DefaultMaterialIsWhiteDiffuse()
    ensures DefaultMaterial.albedo == Vec3(1.0, 1.0, 1.0)
    ensures DefaultMaterial.roughness == 1.0 && DefaultMaterial.metallic == 0.0
    ensures GetEmission(DefaultMaterial) == Zero
  {
  }

  /** Emission is linear in the emission power. */
  lemma EmissionLinearInPower(m: Material, p: real, q: real)
    ensures GetEmission(m.(emissionPower := p + q))
         == Add(GetEmission(m.(emissionPower := p)), GetEmission(m.(emissionPower := q)))
  {
    var c := m.emissionColor;
    assert Scale(c, p + q) == Add(Scale(c, p), Scale(c, q));
  }

  /**
   * A hittable object of the scene. Spheres are the only kind; the material
   * index and the position are the fields every hittable shares.
   */
  datatype Hittable = Sphere(materialIndex: int, position: Vec3, radius: real)

  /** The objects of a scene and the materials they refer to by index. */
  datatype Scene = Scene(hittables: seq<Hittable>, materials: seq<Material>)

  /** The ray origin, seen from the sphere's centre. */
  function Offset(h: Hittable, ray: Ray): Vec3 {
    Sub(ray.origin, h.position)
  }

  // The coefficients of a*t*t + b*t + c = 0, exactly as Intersect computes them.

  function QuadA(ray: Ray): real {
    Dot(ray.direction, ray.direction)
  }

  function QuadB(h: Hittable, ray: Ray): real {
    2.0 * Dot(Offset(h, ray), ray.direction)
  }

  function QuadC(h: Hittable, ray: Ray): real {
    Dot(Offset(h, ray), Offset(h, ray)) - h.radius * h.radius
  }

  function Discriminant(h: Hittable, ray: Ray): real {
    QuadB(h, ray) * QuadB(h, ray) - 4.0 * QuadA(ray) * QuadC(h, ray)
  }

  /** The point at distance `t` along the ray lies on the sphere's surface. */
  ghost predicate OnSurface(h: Hittable, ray: Ray, t: real) {
    var p := Sub(At(ray, t), h.position);
    Dot(p, p) == h.radius * h.radius
  }

  /**
   * Sphere::Intersect: -1 when the discriminant is negative, otherwise the
   * nearer root of the quadratic.
   */
  function Intersect(sqrt: real -> real, h: Hittable, ray: Ray): (t: real)
    requires ray.direction != Zero
    ensures Discriminant(h, ray) < 0.0 ==> t == -1.0
  {
    DotSelfPositive(ray.direction);
    var a := QuadA(ray);
    var b := QuadB(h, ray);
    var c := QuadC(h, ray);
    var disc := Discriminant(h, ray);
    if disc < 0.0 then
      -1.0
    else
      (-b - sqrt(disc)) / (2.0 * a)
  }

  /**
   * The further root t0, which the source computes and leaves unused. With a
   * genuine square root it lies on the sphere too, no nearer than Intersect's.
   */
  function FarRoot(sqrt: real -> real, h: Hittable, ray: Ray): (t0: real)
    requires ray.direction != Zero && 0.0 <= Discriminant(h, ray)
    ensures IsSqrt(sqrt) ==> OnSurface(h, ray, t0) && Intersect(sqrt, h, ray) <= t0
  {
    DotSelfPositive(ray.direction);
    var a, b, c := QuadA(ray), QuadB(h, ray), QuadC(h, ray);
    var disc := Discriminant(h, ray);
    var s := sqrt(disc);
    var t0 := (-b + s) / (2.0 * a);
    assert IsSqrt(sqrt) ==> OnSurface(h, ray, t0) && Intersect(sqrt, h, ray) <= t0 by {
      if IsSqrt(sqrt) {
        assert disc == b * b - 4.0 * a * c;
        assert 0.0 <= s && s * s == disc;
        QuadraticFactors(a, b, c, s, t0);
        assert Mul(t0 - (-b + s) / (2.0 * a), t0 - (-b - s) / (2.0 * a)) == 0.0;
        SurfaceQuadratic(h, ray, t0);
        NearerRootFirst(a, b, s);
      }
    }
    t0
  }

  // ---- Quadratic equations over the reals ----

  lemma QuadraticFactors(a: real, b: real, c: real, s: real, t: real)
    requires a != 0.0 && s * s == b * b - 4.0 * a * c
    ensures a * t * t + b * t + c
         == a * Mul(t - (-b + s) / (2.0 * a), t - (-b - s) / (2.0 * a))
  {
  }

  /** With a non-negative discriminant, the two roots are the only solutions. */
  lemma QuadraticRoots(a: real, b: real, c: real, s: real, t: real)
    requires 0.0 < a && s * s == b * b - 4.0 * a * c
    requires a * t * t + b * t + c == 0.0
    ensures t == (-b - s) / (2.0 * a) || t == (-b + s) / (2.0 * a)
  {
    QuadraticFactors(a, b, c, s, t);
    var far, near := t - (-b + s) / (2.0 * a), t - (-b - s) / (2.0 * a);
    assert a * Mul(far, near) == 0.0;
    MulZero(Mul(far, near), a);
    if near != 0.0 {
      MulZero(far, near);
    }
  }

  lemma NearerRootFirst(a: real, b: real, s: real)
    requires 0.0 < a && 0.0 <= s
    ensures (-b - s) / (2.0 * a) <= (-b + s) / (2.0 * a)
  {
    assert (-b + s) / (2.0 * a) - (-b - s) / (2.0 * a) == s / a;
  }

  /** With a negative discriminant, the quadratic has no solution. */
  lemma QuadraticHasNoRoot(a: real, b: real, c: real, t: real)
    requires 0.0 < a && b * b - 4.0 * a * c < 0.0
    ensures a * t * t + b * t + c != 0.0
  {
    assert 4.0 * a * (a * t * t + b * t + c) == Sq(2.0 * a * t + b) - (b * b - 4.0 * a * c);
    SqNonNegative(2.0 * a * t + b);
  }

  // ---- The sphere intersection ----

  /** A point on the ray lies on the sphere exactly when `t` solves the quadratic. */
  lemma SurfaceQuadratic(h: Hittable, ray: Ray, t: real)
    ensures OnSurface(h, ray, t)
        <==> QuadA(ray) * t * t + QuadB(h, ray) * t + QuadC(h, ray) == 0.0
  {
    var o, d := Offset(h, ray), ray.direction;
    assert Sub(At(ray, t), h.position) == Add(o, Scale(d, t));
  }

  /**
   * With a non-negative discriminant the returned distance is a crossing of
   * the surface, solves the quadratic exactly as the code states it (with
   * b = 2 * dot(origin - position, direction)), is no further than the other
   * root, and is no further than any crossing at all.
   */
  lemma IntersectIsNearestCrossing(sqrt: real -> real, h: Hittable, ray: Ray)
    requires IsSqrt(sqrt) && ray.direction != Zero && 0.0 <= Discriminant(h, ray)
    ensures var t := Intersect(sqrt, h, ray);
      && QuadA(ray) * t * t + QuadB(h, ray) * t + QuadC(h, ray) == 0.0
      && OnSurface(h, ray, t)
      && t <= FarRoot(sqrt, h, ray)
      && forall u :: OnSurface(h, ray, u) ==> t <= u
  {
    DotSelfPositive(ray.direction);
    var a, b, c := QuadA(ray), QuadB(h, ray), QuadC(h, ray);
    var disc := Discriminant(h, ray);
    assert disc == b * b - 4.0 * a * c;
    var s := sqrt(disc);
    assert 0.0 <= s && s * s == disc;
    var t := Intersect(sqrt, h, ray);
    assert t == (-b - s) / (2.0 * a);
    QuadraticFactors(a, b, c, s, t);
    assert Mul(t - (-b + s) / (2.0 * a), t - (-b - s) / (2.0 * a)) == 0.0;
    SurfaceQuadratic(h, ray, t);
    NearerRootFirst(a, b, s);
    forall u | OnSurface(h, ray, u)
      ensures t <= u
    {
      SurfaceQuadratic(h, ray, u);
      QuadraticRoots(a, b, c, s, u);
    }
  }

  /** A negative discriminant means the ray's line never meets the surface. */
  lemma IntersectMissIsGenuine(sqrt: real -> real, h: Hittable, ray: Ray)
    requires ray.direction != Zero && Discriminant(h, ray) < 0.0
    ensures Intersect(sqrt, h, ray) == -1.0
    ensures forall u :: !OnSurface(h, ray, u)
  {
    DotSelfPositive(ray.direction);
    forall u
      ensures !OnSurface(h, ray, u)
    {
      SurfaceQuadratic(h, ray, u);
      QuadraticHasNoRoot(QuadA(ray), QuadB(h, ray), QuadC(h, ray), u);
    }
  }

  /** The discriminant test is exact: it passes if and only if the line meets the sphere. */
  lemma DiscriminantDecidesHit(sqrt: real -> real, h: Hittable, ray: Ray)
    requires IsSqrt(sqrt) && ray.direction != Zero
    ensures (exists u :: OnSurface(h, ray, u)) <==> 0.0 <= Discriminant(h, ray)
  {
    if 0.0 <= Discriminant(h, ray) {
      IntersectIsNearestCrossing(sqrt, h, ray);
      assert OnSurface(h, ray, Intersect(sqrt, h, ray));
    } else {
      IntersectMissIsGenuine(sqrt, h, ray);
    }
  }

  /**
   * A unit direction aimed at the centre from `dist` away along it: the
   * nearer crossing is `dist - radius` in front of the start point. With a
   * negative `dist` the sphere lies behind the start point and the result
   * is a negative distance, not the -1 sentinel.
   */
  lemma IntersectAimedAtCentre(sqrt: real -> real, h: Hittable, d: Vec3, dist: real)
    requires IsSqrt(sqrt) && Dot(d, d) == 1.0 && 0.0 <= h.radius
    ensures d != Zero
    ensures Intersect(sqrt, h, Ray(Sub(h.position, Scale(d, dist)), d)) == dist - h.radius
  {
    var ray := Ray(Sub(h.position, Scale(d, dist)), d);
    var r := h.radius;
    assert Offset(h, ray) == Scale(d, -dist);
    DotScale(d, d, -dist);
    DotScale(d, Scale(d, -dist), -dist);
    assert QuadA(ray) == 1.0;
    assert QuadB(h, ray) == -2.0 * dist;
    assert QuadC(h, ray) == dist * dist - r * r;
    assert Discriminant(h, ray) == (2.0 * r) * (2.0 * r);
    SqrtUnique(sqrt, Discriminant(h, ray), 2.0 * r);
  }

  /** Only the origin relative to the centre matters: moving both by `v` changes nothing. */
  lemma IntersectTranslationInvariant(sqrt: real -> real, h: Hittable, ray: Ray, v: Vec3)
    requires ray.direction != Zero
    ensures Intersect(sqrt, h.(position := Add(h.position, v)), Ray(Add(ray.origin, v), ray.direction))
         == Intersect(sqrt, h, ray)
  {
    var h', ray' := h.(position := Add(h.position, v)), Ray(Add(ray.origin, v), ray.direction);
    assert Offset(h', ray') == Offset(h, ray);
    assert QuadB(h', ray') == QuadB(h, ray);
    assert QuadC(h', ray') == QuadC(h, ray);
    assert Discriminant(h', ray') == Discriminant(h, ray);
  }
}
