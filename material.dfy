/**
 * Materials and their scattering rules (src/material.rs). The random unit
 * vector and the uniform number a scatter draws are passed in as a `Draw`.
 */
module Materials {
  import opened Options
  import opened Vectors
  import opened Rays
  import opened HitRecords

  /** The closed set of materials: diffuse, metal and glass. */
  datatype Material =
    | Lambertian(albedo: Vec3)
    | Metal(albedo: Vec3, fuzz: real)
    | Dielectric(refractionIndex: real)
  {
    /** The divisions in the glass rule are defined: index not 0 and not -1. */
    predicate Valid()
    {
      Dielectric? ==> refractionIndex != 0.0 && refractionIndex != -1.0
    }
  }

  /** The random values one scatter may use: a random unit vector and a uniform number. */
  datatype Draw = Draw(unitVector: Vec3, uniform: real)

  const White: Vec3 := Vec3(1.0, 1.0, 1.0)

  /**
   * `Material::scatter`: the attenuation and the scattered ray. Every material
   * scatters; the ray leaves from the hit point and keeps the incoming ray's time.
   */
  function Scatter(m: Material, rayIn: Ray, rec: Hit, draw: Draw, num: Numerics): (r: Option<(Vec3, Ray)>)
    requires m.Valid()
    ensures r.Some?
    ensures r.value.1.origin == rec.point && r.value.1.time == rayIn.time
    ensures r.value.0 == if m.Dielectric? then White else m.albedo
  {
    match m
    case Lambertian(albedo) => LambertianScatter(albedo, rayIn, rec, draw.unitVector)
    case Metal(albedo, fuzz) => MetalScatter(albedo, fuzz, rayIn, rec, draw.unitVector, num)
    case Dielectric(index) => DielectricScatter(index, rayIn, rec, draw.uniform, num)
  }

  /** The diffuse direction `normal + r`, or the bare normal when that is nearly zero. */
  function LambertianDirection(normal: Vec3, r: Vec3): (d: Vec3)
    ensures d == Add(normal, r) || d == normal
    ensures !Add(normal, r).NearZero() ==> d == Add(normal, r)
    ensures d.NearZero() ==> d == normal
  {
    var scatterDirection := Add(normal, r);
    if scatterDirection.NearZero() then normal else scatterDirection
  }

  /**
   * `Lambertian::scatter`: the albedo, and a ray from the hit point along the
   * diffuse direction, which is `normal + r` unless that is nearly zero and
   * is never degenerate when the normal has unit length.
   */
  function LambertianScatter(albedo: Vec3, rayIn: Ray, rec: Hit, r: Vec3): (res: Option<(Vec3, Ray)>)
    ensures res.Some? && res.value.0 == albedo
    ensures res.value.1.origin == rec.point && res.value.1.time == rayIn.time
    ensures res.value.1.direction == Add(rec.normal, r) || res.value.1.direction == rec.normal
    ensures !Add(rec.normal, r).NearZero() ==> res.value.1.direction == Add(rec.normal, r)
    ensures Add(rec.normal, r).NearZero() ==> res.value.1.direction == rec.normal
    ensures rec.normal.LengthSquared() == 1.0 ==> !res.value.1.direction.NearZero()
  {
    NearZeroMeaning(rec.normal);
    var scattered := Ray(rec.point, LambertianDirection(rec.normal, r), rayIn.time);
    Some((albedo, scattered))
  }

  /** With a unit normal, the diffuse direction is never degenerate, whatever was drawn. */
  lemma LambertianNotDegenerate(normal: Vec3, r: Vec3)
    requires normal.LengthSquared() == 1.0
    ensures !LambertianDirection(normal, r).NearZero()
  {
    NearZeroMeaning(normal);
  }

  /**
   * `Metal::scatter`: the albedo, and a ray from the hit point whose direction
   * is the mirror image of the unit incoming direction, moved by `fuzz` times
   * the draw. With fuzz 0 and a unit normal it is a pure mirror: the normal
   * component is negated and the length kept.
   */
  function MetalScatter(albedo: Vec3, fuzz: real, rayIn: Ray, rec: Hit, r: Vec3, num: Numerics): (res: Option<(Vec3, Ray)>)
    ensures res.Some? && res.value.0 == albedo
    ensures res.value.1.origin == rec.point && res.value.1.time == rayIn.time
    ensures Sub(res.value.1.direction, Scale(r, fuzz)) == Reflect(num.unitVector(rayIn.direction), rec.normal)
    ensures fuzz == 0.0 ==> res.value.1.direction == Reflect(num.unitVector(rayIn.direction), rec.normal)
    ensures var d, u := res.value.1.direction, num.unitVector(rayIn.direction);
      fuzz == 0.0 && rec.normal.LengthSquared() == 1.0 ==>
        Dot(d, rec.normal) == -Dot(u, rec.normal) && d.LengthSquared() == u.LengthSquared()
  {
    var unitDirection := num.unitVector(rayIn.direction);
    var reflected := Reflect(unitDirection, rec.normal);
    assert rec.normal.LengthSquared() == 1.0 ==>
      Dot(reflected, rec.normal) == -Dot(unitDirection, rec.normal) && reflected.LengthSquared() == unitDirection.LengthSquared() by {
      if rec.normal.LengthSquared() == 1.0 { ReflectUnitNormal(unitDirection, rec.normal); }
    }
    var scattered := Ray(rec.point, Add(reflected, Scale(r, fuzz)), rayIn.time);
    assert Add(reflected, Scale(r, 0.0)) == reflected;
    assert Sub(scattered.direction, Scale(r, fuzz)) == reflected by { AddSubInverse(reflected, Scale(r, fuzz)); }
    Some((albedo, scattered))
  }

  /** Entering the glass (front face) the ratio is `1 / index`, leaving it is `index`. */
  function RefractionRatio(frontFace: bool, refractionIndex: real): (ratio: real)
    requires refractionIndex != 0.0
    ensures frontFace ==> ratio * refractionIndex == 1.0
    ensures !frontFace ==> ratio == refractionIndex
    ensures refractionIndex != -1.0 ==> ratio != -1.0
  {
    if frontFace then 1.0 / refractionIndex else refractionIndex
  }

  /** The cosine the glass rule uses: `min(-unit_direction . normal, 1)`. */
  function CosTheta(unitDirection: Vec3, normal: Vec3): real
  {
    Min(Dot(Neg(unitDirection), normal), 1.0)
  }

  /** Total internal reflection: `ratio * sin_theta > 1`. */
  predicate CannotRefract(ratio: real, cosTheta: real, sqrt: real -> real)
  {
    ratio * sqrt(1.0 - cosTheta * cosTheta) > 1.0
  }

  /** The direction the glass rule picks for the uniform draw `u`. */
  function DielectricDirection(unitDirection: Vec3, normal: Vec3, ratio: real, u: real, sqrt: real -> real): Vec3
    requires ratio != -1.0
  {
    var cosTheta := CosTheta(unitDirection, normal);
    if CannotRefract(ratio, cosTheta, sqrt) || Reflectance(cosTheta, ratio) > u then Reflect(unitDirection, normal)
    else Refract(unitDirection, normal, ratio, sqrt)
  }

  /**
   * `Dielectric::scatter`: white attenuation, and a ray from the hit point that
   * reflects when refraction is impossible or the draw falls below Schlick's
   * reflectance, and refracts otherwise, with the ratio of the face it crosses.
   */
  function DielectricScatter(refractionIndex: real, rayIn: Ray, rec: Hit, u: real, num: Numerics): (res: Option<(Vec3, Ray)>)
    requires refractionIndex != 0.0 && refractionIndex != -1.0
    ensures res.Some? && res.value.0 == White
    ensures res.value.1.origin == rec.point && res.value.1.time == rayIn.time
    ensures var ratio, unitDirection := RefractionRatio(rec.frontFace, refractionIndex), num.unitVector(rayIn.direction);
      var cosTheta := CosTheta(unitDirection, rec.normal);
      CannotRefract(ratio, cosTheta, num.sqrt) || Reflectance(cosTheta, ratio) > u ==>
        res.value.1.direction == Reflect(unitDirection, rec.normal)
    ensures var ratio, unitDirection := RefractionRatio(rec.frontFace, refractionIndex), num.unitVector(rayIn.direction);
      var cosTheta := CosTheta(unitDirection, rec.normal);
      !CannotRefract(ratio, cosTheta, num.sqrt) && u >= Reflectance(cosTheta, ratio) ==>
        res.value.1.direction == Refract(unitDirection, rec.normal, ratio, num.sqrt)
  {
    var refractionRatio := RefractionRatio(rec.frontFace, refractionIndex);
    var unitDirection := num.unitVector(rayIn.direction);
    var direction := DielectricDirection(unitDirection, rec.normal, refractionRatio, u, num.sqrt);
    var scattered := Ray(rec.point, direction, rayIn.time);
    Some((White, scattered))
  }

  /**
   * When refraction is impossible the glass reflects, whatever the draw; a
   * draw below the reflectance also reflects, and otherwise it refracts.
   */
  lemma DielectricChoice(unitDirection: Vec3, normal: Vec3, ratio: real, u: real, sqrt: real -> real)
    requires ratio != -1.0
    ensures var cosTheta := CosTheta(unitDirection, normal);
      CannotRefract(ratio, cosTheta, sqrt) ==>
        forall v :: DielectricDirection(unitDirection, normal, ratio, v, sqrt) == Reflect(unitDirection, normal)
    ensures var cosTheta := CosTheta(unitDirection, normal);
      !CannotRefract(ratio, cosTheta, sqrt) && u >= Reflectance(cosTheta, ratio) ==>
        DielectricDirection(unitDirection, normal, ratio, u, sqrt) == Refract(unitDirection, normal, ratio, sqrt)
  {
  }

  // ---------------------------------------------------------------------
  // Schlick's approximation (C. Schlick, "An Inexpensive BRDF Model for
  // Physically-based Rendering", 1994).
  // ---------------------------------------------------------------------

  function Pow(x: real, n: nat): real
  {
    if n == 0 then 1.0 else x * Pow(x, n - 1)
  }

  /** Reflectance at normal incidence, `((1 - n) / (1 + n))^2`. */
  function R0(refractionIndex: real): real
    requires refractionIndex != -1.0
  {
    var r := (1.0 - refractionIndex) / (1.0 + refractionIndex);
    r * r
  }

  function Reflectance(cosine: real, refractionIndex: real): real
    requires refractionIndex != -1.0
  {
    var r0 := R0(refractionIndex);
    r0 + (1.0 - r0) * Pow(1.0 - cosine, 5)
  }

  lemma ProductNonNegative(a: real, b: real)
    requires a >= 0.0 && b >= 0.0
    ensures a * b >= 0.0
  {
  }

  lemma {:induction false} PowUnitInterval(x: real, n: nat)
    requires 0.0 <= x <= 1.0
    ensures 0.0 <= Pow(x, n) <= 1.0
  {
    if n > 0 {
      PowUnitInterval(x, n - 1);
      var p := Pow(x, n - 1);
      var xp := x * p;
      assert xp <= p by {
        assert p - xp == (1.0 - x) * p;
        ProductNonNegative(1.0 - x, p);
      }
      ProductNonNegative(x, p);
    }
  }

  /** For a non-negative index the normal-incidence reflectance lies in [0, 1]. */
  lemma R0UnitInterval(n: real)
    requires n >= 0.0
    ensures 0.0 <= R0(n) <= 1.0
  {
    var r := (1.0 - n) / (1.0 + n);
    assert -1.0 <= r <= 1.0 by {
      var d := 1.0 + n;
      assert d > 0.0;
      assert r * d == 1.0 - n;
      assert -d <= r * d <= d;
    }
    var rr := r * r;
    assert rr <= 1.0 by {
      var a := Abs(r);
      assert rr == a * a;
      var aa := a * a;
      assert a <= 1.0;
      assert aa <= a by { assert a - aa == a * (1.0 - a); ProductNonNegative(a, 1.0 - a); }
    }
  }

  /**
   * Schlick's polynomial: `r0` at normal incidence (cosine 1), 1 at grazing
   * incidence (cosine 0), and between the two for cosines in [0, 1].
   */
  lemma ReflectanceRange(cosine: real, n: real)
    requires n >= 0.0
    ensures Reflectance(1.0, n) == R0(n)
    ensures Reflectance(0.0, n) == 1.0
    ensures 0.0 <= cosine <= 1.0 ==> R0(n) <= Reflectance(cosine, n) <= 1.0
  {
    assert Pow(0.0, 5) == 0.0;
    assert Pow(1.0, 5) == 1.0;
    if 0.0 <= cosine <= 1.0 {
      PowUnitInterval(1.0 - cosine, 5);
      R0UnitInterval(n);
      var r0, p := R0(n), Pow(1.0 - cosine, 5);
      var k := (1.0 - r0) * p;
      assert 0.0 <= k by { assert 1.0 - r0 >= 0.0; }
      assert k <= 1.0 - r0 by {
        assert (1.0 - r0) - k == (1.0 - r0) * (1.0 - p);
        ProductNonNegative(1.0 - r0, 1.0 - p);
      }
    }
  }
}
