/**
 * The hit record and the contract every hittable object keeps (src/hittable.rs).
 */
module HitRecords {
  import opened Options
  import opened Vectors
  import opened Rays
  import opened Intervals

  /**
   * The value held by a hit record. `material` is an index into the scene's
   * material sequence; it stands for the material reference the renderer reads.
   */
  datatype Hit = Hit(point: Vec3, normal: Vec3, t: real, frontFace: bool, material: nat)

  /**
   * The orientation rule of `set_face_normal`: the front-face flag and the
   * normal to store for a ray travelling along `direction`.
   */
  function FaceNormal(direction: Vec3, outward: Vec3): (r: (bool, Vec3))
    ensures r.0 <==> Dot(direction, outward) < 0.0
    ensures r.1 == outward || r.1 == Neg(outward)
    ensures r.0 ==> r.1 == outward
    ensures Dot(direction, r.1) <= 0.0
    ensures r.1.LengthSquared() == outward.LengthSquared()
  {
    var front := Dot(direction, outward) < 0.0;
    (front, if front then outward else Neg(outward))
  }

  /** The Hittable contract: a reported hit lies inside the query window `[lo, hi]`. */
  predicate InWindow(t: real, lo: Bound, hi: Bound)
  {
    Le(lo, Finite(t)) && Le(Finite(t), hi)
  }

  predicate RespectsWindow(result: Option<Hit>, lo: Bound, hi: Bound)
  {
    result.Some? ==> InWindow(result.value.t, lo, hi)
  }

  /**
   * The `Hittable` contract of an object `o` whose answer to the window
   * `[lo, c]` is `hit(o, lo, c)`, for every upper end `c` up to `hi`: the
   * answer lies in the window; a narrower window never finds a nearer hit
   * than the wider one; and when the wider answer fits in the narrower
   * window, both give the same record. Every surface that reports the
   * nearest hit in the window keeps it.
   */
  ghost predicate HitContract<T>(hit: (T, Bound, Bound) -> Option<Hit>, o: T, lo: Bound, hi: Bound)
  {
    forall c :: Le(c, hi) ==>
      && RespectsWindow(hit(o, lo, c), lo, c)
      && (hit(o, lo, c).Some? ==> hit(o, lo, hi).Some? && hit(o, lo, hi).value.t <= hit(o, lo, c).value.t)
      && (hit(o, lo, hi).Some? && Le(Finite(hit(o, lo, hi).value.t), c) ==> hit(o, lo, c) == hit(o, lo, hi))
  }

  class HitRecord {
    var point: Vec3
    var normal: Vec3
    var t: real
    var frontFace: bool
    var material: nat

    /** `HitRecord::new`; the material index starts at 0 until a surface writes it. */
    constructor (point: Vec3, normal: Vec3, t: real, frontFace: bool)
      ensures this.point == point && this.normal == normal
      ensures this.t == t && this.frontFace == frontFace
      ensures this.material == 0
    {
      this.point := point;
      this.normal := normal;
      this.t := t;
      this.frontFace := frontFace;
      this.material := 0;
    }

    function Value(): Hit
      reads this
    {
      Hit(point, normal, t, frontFace, material)
    }

    /** Store `outward` or its negation so that the stored normal opposes the ray. */
    method SetFaceNormal(ray: Ray, outward: Vec3)
      modifies this
      ensures frontFace == (Dot(ray.direction, outward) < 0.0)
      ensures normal == if frontFace then outward else Neg(outward)
      ensures (frontFace, normal) == FaceNormal(ray.direction, outward)
      ensures Dot(ray.direction, normal) <= 0.0
      ensures point == old(point) && t == old(t) && material == old(material)
    {
      frontFace := Dot(ray.direction, outward) < 0.0;
      normal := if frontFace then outward else Neg(outward);
    }

    /** `*record = temp_record.clone()`: take over every field of `other`. */
    method CopyFrom(other: HitRecord)
      modifies this
      ensures Value() == old(other.Value())
    {
      point, normal, t, frontFace, material := other.point, other.normal, other.t, other.frontFace, other.material;
    }
  }
}
