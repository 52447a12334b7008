/**
 * Ray-sphere intersection (src/sphere.rs). The square root of the discriminant
 * is taken with the `sqrt` function the caller supplies.
 */
module Spheres {
  import opened Options
  import opened Vectors
  import opened Rays
  import opened Intervals
  import opened HitRecords

  /** The sphere's acceptance test for a root: `!(root < t_min || t_max < root)`. */
  predicate Accepted(root: real, lo: Bound, hi: Bound)
  {
    !(Lt(Finite(root), lo) || Lt(hi, Finite(root)))
  }

  lemma AcceptedIsContains(root: real, lo: Bound, hi: Bound)
    ensures Accepted(root, lo, hi) <==> Interval(lo, hi).Contains(root)
    ensures Accepted(root, lo, hi) <==> InWindow(root, lo, hi)
  {
  }

  /** Square root values the geometry needs: exact, and non-negative. */
  predicate ExactSqrtAt(sqrt: real -> real, x: real)
  {
    x >= 0.0 ==> sqrt(x) >= 0.0 && sqrt(x) * sqrt(x) == x
  }

  /**
   * A sphere's radius: any non-zero real. A negative radius is allowed and
   * turns the outward normal inwards (hollow shells); a zero radius would
   * divide by zero when the outward normal is formed.
   */
  type Radius = r: real | r != 0.0 witness 1.0

  /**
   * A sphere with its material index. The material is an addition to the
   * source's struct, so that a hit can report which material it struck.
   */
  datatype Sphere = Sphere(center: Vec3, radius: Radius, material: nat) {

    function Oc(ray: Ray): Vec3 { Sub(ray.origin, center) }

    function A(ray: Ray): real { ray.direction.LengthSquared() }

    function HalfB(ray: Ray): real { Dot(Oc(ray), ray.direction) }

    function C(ray: Ray): real { Oc(ray).LengthSquared() - radius * radius }

    function Discriminant(ray: Ray): real { HalfB(ray) * HalfB(ray) - A(ray) * C(ray) }

    function NearRoot(ray: Ray, sqrtd: real): real
      requires A(ray) != 0.0
    {
      (-HalfB(ray) - sqrtd) / A(ray)
    }

    function FarRoot(ray: Ray, sqrtd: real): real
      requires A(ray) != 0.0
    {
      (-HalfB(ray) + sqrtd) / A(ray)
    }

    predicate OnSurface(p: Vec3)
    {
      Sub(p, center).LengthSquared() == radius * radius
    }

    /** The record written for an accepted root `t` (src/sphere.rs:36-40). */
    function RecordAt(ray: Ray, t: real): (h: Hit)
      ensures h.t == t && h.point == ray.At(t) && h.material == material
      ensures h.frontFace <==> Dot(ray.direction, Div(Sub(h.point, center), radius)) < 0.0
      ensures Dot(ray.direction, h.normal) <= 0.0
      ensures h.normal.LengthSquared() == Div(Sub(h.point, center), radius).LengthSquared()
    {
      var p := ray.At(t);
      var face := FaceNormal(ray.direction, Div(Sub(p, center), radius));
      HitRecords.Hit(p, face.1, t, face.0, material)
    }

    /**
     * What `hit` reports for the window `[lo, hi]`. A zero direction (`a == 0`)
     * divides by zero in the source; here it is a miss.
     */
    function HitSpec(ray: Ray, lo: Bound, hi: Bound, sqrt: real -> real): (r: Option<Hit>)
      ensures RespectsWindow(r, lo, hi)
      ensures r.Some? ==> r.value.point == ray.At(r.value.t) && r.value.material == material
      ensures Discriminant(ray) < 0.0 ==> r.None?
    {
      var disc := Discriminant(ray);
      if disc < 0.0 || A(ray) == 0.0 then None
      else
        var near := NearRoot(ray, sqrt(disc));
        var far := FarRoot(ray, sqrt(disc));
        if Accepted(near, lo, hi) then Some(RecordAt(ray, near))
        else if Accepted(far, lo, hi) then Some(RecordAt(ray, far))
        else None
    }

    /**
     * `Sphere::hit`: writes `rec` only when a root lies in `[lo, hi]`, and
     * then with the value `HitSpec` describes.
     */
    method Hit(ray: Ray, lo: Bound, hi: Bound, sqrt: real -> real, rec: HitRecord) returns (hit: bool)
      modifies rec
      ensures hit == HitSpec(ray, lo, hi, sqrt).Some?
      ensures hit ==> rec.Value() == HitSpec(ray, lo, hi, sqrt).value
      ensures !hit ==> unchanged(rec)
    {
      var oc := Sub(ray.origin, center);
      var a := ray.direction.LengthSquared();
      var halfB := Dot(oc, ray.direction);
      var c := oc.LengthSquared() - radius * radius;
      var discriminant := halfB * halfB - a * c;
      assert discriminant == Discriminant(ray);
      if discriminant < 0.0 {
        return false;
      }
      if a == 0.0 {
        return false;
      }
      var sqrtd := sqrt(discriminant);

      var root := (-halfB - sqrtd) / a;
      assert root == NearRoot(ray, sqrtd);
      if Lt(Finite(root), lo) || Lt(hi, Finite(root)) {
        root := (-halfB + sqrtd) / a;
        assert root == FarRoot(ray, sqrtd);
        if Lt(Finite(root), lo) || Lt(hi, Finite(root)) {
          return false;
        }
      }
      ghost var expected := RecordAt(ray, root);
      assert HitSpec(ray, lo, hi, sqrt) == Some(expected);
      rec.t := root;
      rec.point := ray.At(rec.t);

      var outwardNormal := Div(Sub(rec.point, center), radius);
      rec.SetFaceNormal(ray, outwardNormal);
      rec.material := material;
      assert rec.Value() == expected;
      return true;
    }

    // -------------------------------------------------------------------
    // Geometry of the root selection.
    // -------------------------------------------------------------------

    /** |ray.At(t) - center|^2 - radius^2 is the quadratic `a t^2 + 2 half_b t + c`. */
    lemma OffsetQuadratic(ray: Ray, t: real)
      ensures Sub(ray.At(t), center).LengthSquared() - radius * radius
           == A(ray) * t * t + 2.0 * HalfB(ray) * t + C(ray)
    {
      var o, d := Oc(ray), ray.direction;
      var q := Sub(ray.At(t), center);
      assert q == Vec3(o.x + d.x * t, o.y + d.y * t, o.z + d.z * t);
      assert q.x * q.x == o.x * o.x + 2.0 * t * (o.x * d.x) + t * t * (d.x * d.x);
      assert q.y * q.y == o.y * o.y + 2.0 * t * (o.y * d.y) + t * t * (d.y * d.y);
      assert q.z * q.z == o.z * o.z + 2.0 * t * (o.z * d.z) + t * t * (d.z * d.z);
      var tt := t * t;
      assert A(ray) * tt == tt * (d.x * d.x) + tt * (d.y * d.y) + tt * (d.z * d.z);
      assert 2.0 * HalfB(ray) * t == 2.0 * t * (o.x * d.x) + 2.0 * t * (o.y * d.y) + 2.0 * t * (o.z * d.z);
      assert A(ray) * t * t == A(ray) * tt;
    }

    /** With `a > 0` and a non-negative root of the discriminant, the near root comes first. */
    lemma NearBeforeFar(ray: Ray, sqrtd: real)
      requires A(ray) != 0.0 && sqrtd >= 0.0
      ensures NearRoot(ray, sqrtd) <= FarRoot(ray, sqrtd)
    {
      var a := A(ray);
      assert a > 0.0;
      var inv := 1.0 / a;
      assert inv > 0.0;
      assert NearRoot(ray, sqrtd) == (-HalfB(ray) - sqrtd) * inv;
      assert FarRoot(ray, sqrtd) == (-HalfB(ray) + sqrtd) * inv;
      var gap := FarRoot(ray, sqrtd) - NearRoot(ray, sqrtd);
      assert gap == (2.0 * sqrtd) * inv;
    }

    /**
     * No real root: the ray misses. Otherwise the near root wins whenever it is
     * accepted, the far root is tried only after it is rejected, and the near
     * root never lies beyond the far one.
     */
    lemma RootSelection(ray: Ray, lo: Bound, hi: Bound, sqrt: real -> real)
      ensures Discriminant(ray) < 0.0 ==> HitSpec(ray, lo, hi, sqrt) == None
      ensures Discriminant(ray) >= 0.0 && A(ray) != 0.0 ==>
        var s := sqrt(Discriminant(ray));
        HitSpec(ray, lo, hi, sqrt) ==
          if Accepted(NearRoot(ray, s), lo, hi) then Some(RecordAt(ray, NearRoot(ray, s)))
          else if Accepted(FarRoot(ray, s), lo, hi) then Some(RecordAt(ray, FarRoot(ray, s)))
          else None
      ensures Discriminant(ray) >= 0.0 && A(ray) != 0.0 && ExactSqrtAt(sqrt, Discriminant(ray)) ==>
        NearRoot(ray, sqrt(Discriminant(ray))) <= FarRoot(ray, sqrt(Discriminant(ray)))
    {
      if Discriminant(ray) >= 0.0 && A(ray) != 0.0 && ExactSqrtAt(sqrt, Discriminant(ray)) {
        NearBeforeFar(ray, sqrt(Discriminant(ray)));
      }
    }

    /** The points the ray shares with the sphere are exactly its two roots. */
    lemma SurfaceParameters(ray: Ray, sqrtd: real, t: real)
      requires A(ray) != 0.0
      requires sqrtd * sqrtd == Discriminant(ray)
      ensures OnSurface(ray.At(t)) <==> t == NearRoot(ray, sqrtd) || t == FarRoot(ray, sqrtd)
    {
      var a, hb, c := A(ray), HalfB(ray), C(ray);
      assert OnSurface(ray.At(t)) <==> a * t * t + 2.0 * hb * t + c == 0.0 by {
        OffsetQuadratic(ray, t);
      }
      QuadraticRoots(a, hb, c, sqrtd, t);
    }

    /** On the surface, the outward normal `(p - center) / radius` has unit length. */
    lemma UnitOutwardNormal(p: Vec3)
      requires OnSurface(p)
      ensures Div(Sub(p, center), radius).LengthSquared() == 1.0
    {
      var v := Sub(p, center);
      var k := 1.0 / radius;
      ScaleLengthSquared(v, k);
      var rr, kr := radius * radius, k * radius;
      assert kr == 1.0;
      assert k * k * rr == kr * kr;
    }

    /**
     * With an exact square root, a reported hit lies on the sphere, and the
     * outward normal `(point - center) / radius` has unit length, as
     * `set_face_normal` assumes; the stored normal keeps that length and
     * opposes the ray.
     */
    lemma HitOnSurface(ray: Ray, lo: Bound, hi: Bound, sqrt: real -> real)
      requires ExactSqrtAt(sqrt, Discriminant(ray))
      ensures var r := HitSpec(ray, lo, hi, sqrt);
        r.Some? ==>
          && OnSurface(r.value.point)
          && Div(Sub(r.value.point, center), radius).LengthSquared() == 1.0
          && r.value.normal.LengthSquared() == 1.0
          && Dot(ray.direction, r.value.normal) <= 0.0
    {
      var r := HitSpec(ray, lo, hi, sqrt);
      if r.Some? {
        var t := r.value.t;
        HitIsRoot(ray, lo, hi, sqrt);
        assert r.value == RecordAt(ray, t);
        SurfaceParameters(ray, sqrt(Discriminant(ray)), t);
        UnitOutwardNormal(ray.At(t));
      }
    }

    /** A reported hit is the record of one of the two roots. */
    lemma HitIsRoot(ray: Ray, lo: Bound, hi: Bound, sqrt: real -> real)
      ensures var r := HitSpec(ray, lo, hi, sqrt);
        r.Some? ==>
          && A(ray) != 0.0 && Discriminant(ray) >= 0.0
          && (r.value.t == NearRoot(ray, sqrt(Discriminant(ray))) || r.value.t == FarRoot(ray, sqrt(Discriminant(ray))))
          && r.value == RecordAt(ray, r.value.t)
    {
    }

    /**
     * The root `hit` reports is the nearest parameter in `[lo, hi]` at which
     * the ray meets the sphere: a miss means there is none.
     */
    lemma HitIsNearestSurfacePoint(ray: Ray, lo: Bound, hi: Bound, sqrt: real -> real, t: real)
      requires A(ray) != 0.0
      requires ExactSqrtAt(sqrt, Discriminant(ray))
      requires InWindow(t, lo, hi) && OnSurface(ray.At(t))
      ensures HitSpec(ray, lo, hi, sqrt).Some?
      ensures HitSpec(ray, lo, hi, sqrt).value.t <= t
    {
      OffsetQuadratic(ray, t);
      var a, hb, c := A(ray), HalfB(ray), C(ray);
      assert a * t * t + 2.0 * hb * t + c == 0.0;
      var disc := Discriminant(ray);
      NonNegativeDiscriminant(a, hb, c, t);
      var s := sqrt(disc);
      SurfaceParameters(ray, s, t);
      NearBeforeFar(ray, s);
      AcceptedIsContains(t, lo, hi);
    }

    /**
     * Shrinking the upper end of the window from `hi` to `c` keeps the
     * answer when it still fits, and can only lose hits, never gain nearer ones.
     */
    lemma WindowShrink(ray: Ray, lo: Bound, c: Bound, hi: Bound, sqrt: real -> real)
      requires Le(c, hi)
      requires Discriminant(ray) >= 0.0 ==> sqrt(Discriminant(ray)) >= 0.0
      ensures var narrow, wide := HitSpec(ray, lo, c, sqrt), HitSpec(ray, lo, hi, sqrt);
        narrow.Some? ==> wide.Some? && wide.value.t <= narrow.value.t
      ensures var narrow, wide := HitSpec(ray, lo, c, sqrt), HitSpec(ray, lo, hi, sqrt);
        wide.Some? && Le(Finite(wide.value.t), c) ==> narrow == wide
    {
      if Discriminant(ray) >= 0.0 && A(ray) != 0.0 {
        var s := sqrt(Discriminant(ray));
        NearBeforeFar(ray, s);
        LeTotalOrder(Finite(NearRoot(ray, s)), c, hi);
        LeTotalOrder(Finite(FarRoot(ray, s)), c, hi);
      }
    }
  }

  /** The hit query of a sphere for a fixed ray, as the aggregate calls it. */
  function SphereQuery(ray: Ray, sqrt: real -> real): (T: (Sphere, Bound, Bound) -> Option<Hit>)
  {
    (s: Sphere, lo: Bound, hi: Bound) => s.HitSpec(ray, lo, hi, sqrt)
  }

  /** A sphere keeps the `Hittable` contract, given a non-negative square root. */
  lemma SphereKeepsContract(s: Sphere, ray: Ray, lo: Bound, hi: Bound, sqrt: real -> real)
    requires s.Discriminant(ray) >= 0.0 ==> sqrt(s.Discriminant(ray)) >= 0.0
    ensures HitContract(SphereQuery(ray, sqrt), s, lo, hi)
  {
    forall c | Le(c, hi)
      ensures RespectsWindow(s.HitSpec(ray, lo, c, sqrt), lo, c)
      ensures var narrow, wide := s.HitSpec(ray, lo, c, sqrt), s.HitSpec(ray, lo, hi, sqrt);
        && (narrow.Some? ==> wide.Some? && wide.value.t <= narrow.value.t)
        && (wide.Some? && Le(Finite(wide.value.t), c) ==> narrow == wide)
    {
      s.WindowShrink(ray, lo, c, hi, sqrt);
    }
  }

  /** A real quadratic with a root has a non-negative discriminant. */
  lemma NonNegativeDiscriminant(a: real, hb: real, c: real, t: real)
    requires a * t * t + 2.0 * hb * t + c == 0.0
    ensures hb * hb - a * c >= 0.0
  {
    var u := a * t + hb;
    var q := a * t * t + 2.0 * hb * t + c;
    var uu, aq := u * u, a * q;
    assert uu == a * a * t * t + 2.0 * a * hb * t + hb * hb;
    assert aq == a * a * t * t + 2.0 * a * hb * t + a * c;
    assert aq == 0.0;
    assert uu - aq == hb * hb - a * c;
    assert uu >= 0.0;
  }

  /** The roots of `a t^2 + 2 hb t + c` are `(-hb -+ s) / a` when `s^2` is the discriminant. */
  lemma QuadraticRoots(a: real, hb: real, c: real, s: real, t: real)
    requires a != 0.0 && s * s == hb * hb - a * c
    ensures a * t * t + 2.0 * hb * t + c == 0.0 <==> t == (-hb - s) / a || t == (-hb + s) / a
  {
    var u := a * t + hb;
    var q := a * t * t + 2.0 * hb * t + c;
    var aq, uu, ss := a * q, u * u, s * s;
    assert aq == a * a * t * t + 2.0 * a * hb * t + a * c;
    assert uu == a * a * t * t + 2.0 * a * hb * t + hb * hb;
    assert aq == uu - ss;
    var lo, hi := u - s, u + s;
    var prod := lo * hi;
    assert prod == uu - ss;
    assert q == 0.0 <==> aq == 0.0;
    assert prod == 0.0 <==> lo == 0.0 || hi == 0.0;
    assert lo == 0.0 <==> t == (-hb + s) / a;
    assert hi == 0.0 <==> t == (-hb - s) / a;
  }
}
