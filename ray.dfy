/** Rays `origin + t * direction`, stamped with a time (src/ray.rs). */
module Rays {
  import opened Vectors

  datatype Ray = Ray(origin: Vec3, direction: Vec3, time: real) {

    /** The point at parameter `t`: its offset from the origin is `t` times the direction. */
    function At(t: real): (p: Vec3)
      ensures Sub(p, origin) == Scale(direction, t)
    {
      Add(origin, Scale(direction, t))
    }
  }

  /** `Ray::new` followed by the accessors gives back the three arguments. */
  lemma AccessorsReturnArguments(origin: Vec3, direction: Vec3, time: real)
    ensures Ray(origin, direction, time).origin == origin
    ensures Ray(origin, direction, time).direction == direction
    ensures Ray(origin, direction, time).time == time
  {
  }

  lemma AtZeroIsOrigin(r: Ray)
    ensures r.At(0.0) == r.origin
  {
  }

  /** Advancing the parameter by `t` moves the point by `t` directions. */
  lemma AtShift(r: Ray, s: real, t: real)
    ensures r.At(s + t) == Add(r.At(s), Scale(r.direction, t))
  {
  }
}
