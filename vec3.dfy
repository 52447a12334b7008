/**
 * Three-component vectors (src/vec3.rs), used for points, directions and
 * colours alike. Components are exact reals; the square root behind
 * `length` and `unit_vector` is not modelled and is passed in where needed.
 */
module Vectors {
  import opened Options

  /** Magnitude below which a component counts as zero in `near_zero`. */
  const NearZeroBound: real := 0.00000001

  datatype Vec3 = Vec3(x: real, y: real, z: real) {

    /** Squared Euclidean length, never negative. */
    function LengthSquared(): (r: real)
      ensures r >= 0.0
    {
      x * x + y * y + z * z
    }

    /** True when every component is smaller in magnitude than `NearZeroBound`. */
    predicate NearZero()
    {
      Abs(x) < NearZeroBound && Abs(y) < NearZeroBound && Abs(z) < NearZeroBound
    }
  }

  /**
   * The floating-point functions the model does not define: the square root
   * behind `length`, and `unit_vector`. They are supplied by the caller.
   */
  datatype Numerics = Numerics(sqrt: real -> real, unitVector: Vec3 -> Vec3)

  function Zero(): Vec3 { Vec3(0.0, 0.0, 0.0) }

  function Abs(r: real): real { if r < 0.0 then -r else r }

  /** `-v`, the additive inverse. */
  function Neg(v: Vec3): (r: Vec3)
    ensures Add(v, r) == Zero()
  {
    Vec3(-v.x, -v.y, -v.z)
  }

  function Add(u: Vec3, v: Vec3): Vec3 { Vec3(u.x + v.x, u.y + v.y, u.z + v.z) }

  function Sub(u: Vec3, v: Vec3): Vec3 { Vec3(u.x - v.x, u.y - v.y, u.z - v.z) }

  /** `v * t` and `t * v`. */
  function Scale(v: Vec3, t: real): Vec3 { Vec3(v.x * t, v.y * t, v.z * t) }

  /** Component-wise product `u * v`, used to attenuate colours. */
  function Mul(u: Vec3, v: Vec3): Vec3 { Vec3(u.x * v.x, u.y * v.y, u.z * v.z) }

  /** `v / t`, written as in the source as a product with `1 / t`. */
  function Div(v: Vec3, t: real): (r: Vec3)
    requires t != 0.0
    ensures Scale(r, t) == v
  {
    Scale(v, 1.0 / t)
  }

  function Dot(u: Vec3, v: Vec3): real { u.x * v.x + u.y * v.y + u.z * v.z }

  /** The cross product, orthogonal to both of its arguments. */
  function Cross(u: Vec3, v: Vec3): (r: Vec3)
    ensures Dot(r, u) == 0.0 && Dot(r, v) == 0.0
  {
    Vec3(u.y * v.z - u.z * v.y,
         u.z * v.x - u.x * v.z,
         u.x * v.y - u.y * v.x)
  }

  /** Mirror `v` about the plane whose normal is `n`. */
  function Reflect(v: Vec3, n: Vec3): Vec3 { Sub(v, Scale(Scale(n, 2.0), Dot(v, n))) }

  function Min(a: real, b: real): real { if a <= b then a else b }

  /**
   * Snell refraction of the unit direction `uv` at unit normal `n`.
   * `sqrt` stands for the square root the source takes.
   */
  function Refract(uv: Vec3, n: Vec3, etaiOverEtat: real, sqrt: real -> real): Vec3
  {
    var perp := RefractPerp(uv, n, etaiOverEtat);
    var parallel := Scale(n, -sqrt(Abs(1.0 - perp.LengthSquared())));
    Add(perp, parallel)
  }

  /** The perpendicular part of `Refract`: `eta (uv + cos_theta n)`, with the cosine clamped at 1. */
  function RefractPerp(uv: Vec3, n: Vec3, etaiOverEtat: real): Vec3
  {
    var cosTheta := Min(Dot(Neg(uv), n), 1.0);
    Scale(Add(uv, Scale(n, cosTheta)), etaiOverEtat)
  }

  /**
   * `random_in_hemisphere`: the drawn unit vector, flipped when it does not
   * point into the hemisphere of `normal`.
   */
  function RandomInHemisphere(normal: Vec3, drawn: Vec3): (r: Vec3)
    ensures Dot(r, normal) >= 0.0
    ensures r == drawn || r == Neg(drawn)
    ensures Dot(drawn, normal) > 0.0 ==> r == drawn
  {
    assert Dot(Neg(drawn), normal) == -Dot(drawn, normal);
    if Dot(drawn, normal) > 0.0 then drawn else Neg(drawn)
  }

  // ---------------------------------------------------------------------
  // Rejection sampling for random_in_unit_sphere. The source loops over
  // fresh draws from the cube [-1,1)^3; here the draws are a sequence, and
  // `None` means the supplied draws ran out before one was accepted.
  // ---------------------------------------------------------------------

  /** The first draw of `draws` the source's test accepts: one with `|p|^2 >= 1`. */
  function FirstOutsideUnitSphere(draws: seq<Vec3>): Option<Vec3>
  {
    if draws == [] then None
    else if draws[0].LengthSquared() < 1.0 then FirstOutsideUnitSphere(draws[1..])
    else Some(draws[0])
  }

  /** The first draw strictly inside the unit sphere, as the name promises. */
  function FirstInsideUnitSphere(draws: seq<Vec3>): Option<Vec3>
  {
    if draws == [] then None
    else if draws[0].LengthSquared() < 1.0 then Some(draws[0])
    else FirstInsideUnitSphere(draws[1..])
  }

  /** `random_in_unit_sphere` as written: skips every draw with `|p|^2 < 1`. */
  method RandomInUnitSphere(draws: seq<Vec3>) returns (p: Option<Vec3>, tries: nat)
    ensures p == FirstOutsideUnitSphere(draws)
    ensures p.Some? ==> tries < |draws| && p.value == draws[tries]
    ensures forall k :: 0 <= k < tries && k < |draws| ==> draws[k].LengthSquared() < 1.0
    ensures p.None? ==> tries == |draws|
  {
    tries := 0;
    while tries < |draws|
      invariant tries <= |draws|
      invariant forall k :: 0 <= k < tries ==> draws[k].LengthSquared() < 1.0
      invariant FirstOutsideUnitSphere(draws) == FirstOutsideUnitSphere(draws[tries..])
    {
      var candidate := draws[tries];
      if candidate.LengthSquared() < 1.0 {
        assert draws[tries..][1..] == draws[tries + 1..];
        tries := tries + 1;
        continue;
      }
      return Some(candidate), tries;
    }
    return None, tries;
  }

  /** `random_in_unit_sphere` with the acceptance test the name calls for. */
  method RandomInUnitSphereCorrected(draws: seq<Vec3>) returns (p: Option<Vec3>, tries: nat)
    ensures p == FirstInsideUnitSphere(draws)
    ensures p.Some? ==> tries < |draws| && p.value == draws[tries]
    ensures forall k :: 0 <= k < tries && k < |draws| ==> draws[k].LengthSquared() >= 1.0
    ensures p.None? ==> tries == |draws|
  {
    tries := 0;
    while tries < |draws|
      invariant tries <= |draws|
      invariant forall k :: 0 <= k < tries ==> draws[k].LengthSquared() >= 1.0
      invariant FirstInsideUnitSphere(draws) == FirstInsideUnitSphere(draws[tries..])
    {
      var candidate := draws[tries];
      if candidate.LengthSquared() >= 1.0 {
        assert draws[tries..][1..] == draws[tries + 1..];
        tries := tries + 1;
        continue;
      }
      return Some(candidate), tries;
    }
    return None, tries;
  }

  /** As written, every accepted point lies on or outside the unit sphere. */
  lemma {:induction false} AsWrittenNeverInside(draws: seq<Vec3>)
    ensures FirstOutsideUnitSphere(draws).Some? ==> FirstOutsideUnitSphere(draws).value.LengthSquared() >= 1.0
    ensures FirstOutsideUnitSphere(draws).None? <==> forall k :: 0 <= k < |draws| ==> draws[k].LengthSquared() < 1.0
  {
    if draws != [] && draws[0].LengthSquared() < 1.0 {
      AsWrittenNeverInside(draws[1..]);
      assert forall k :: 1 <= k < |draws| ==> draws[k] == draws[1..][k - 1];
    }
  }

  /** The corrected sampler only ever accepts points strictly inside the unit sphere. */
  lemma {:induction false} CorrectedAlwaysInside(draws: seq<Vec3>)
    ensures FirstInsideUnitSphere(draws).Some? ==> FirstInsideUnitSphere(draws).value.LengthSquared() < 1.0
    ensures FirstInsideUnitSphere(draws).None? <==> forall k :: 0 <= k < |draws| ==> draws[k].LengthSquared() >= 1.0
  {
    if draws != [] && draws[0].LengthSquared() >= 1.0 {
      var rest := draws[1..];
      CorrectedAlwaysInside(rest);
      assert FirstInsideUnitSphere(draws) == FirstInsideUnitSphere(rest);
      if forall k :: 0 <= k < |rest| ==> rest[k].LengthSquared() >= 1.0 {
        forall k | 0 <= k < |draws| ensures draws[k].LengthSquared() >= 1.0 {
          if k > 0 { assert draws[k] == rest[k - 1]; }
        }
      }
    }
  }

  /** A single draw strictly inside the unit sphere, (0.5, 0, 0): the source rejects it, the corrected sampler accepts it. */
  lemma InsideDrawRejected()
    ensures FirstOutsideUnitSphere([Vec3(0.5, 0.0, 0.0)]) == None
    ensures FirstInsideUnitSphere([Vec3(0.5, 0.0, 0.0)]) == Some(Vec3(0.5, 0.0, 0.0))
  {
    assert [Vec3(0.5, 0.0, 0.0)][1..] == [];
  }

  // ---------------------------------------------------------------------
  // Algebraic identities of the operators.
  // ---------------------------------------------------------------------

  lemma DotSymmetric(u: Vec3, v: Vec3)
    ensures Dot(u, v) == Dot(v, u)
  {
  }

  lemma LengthSquaredIsDot(v: Vec3)
    ensures v.LengthSquared() == Dot(v, v)
    ensures v.LengthSquared() >= 0.0
  {
  }

  lemma CrossAnticommutative(u: Vec3, v: Vec3)
    ensures Cross(u, v) == Neg(Cross(v, u))
  {
  }

  lemma AddSubInverse(u: Vec3, v: Vec3)
    ensures Sub(Add(u, v), v) == u
    ensures Add(Sub(u, v), v) == u
  {
  }

  lemma NegInvolution(v: Vec3)
    ensures Neg(Neg(v)) == v
    ensures Add(v, Neg(v)) == Zero()
  {
  }

  lemma NearZeroMeaning(v: Vec3)
    ensures v.NearZero() <==> Abs(v.x) < NearZeroBound && Abs(v.y) < NearZeroBound && Abs(v.z) < NearZeroBound
    ensures Zero().NearZero()
    ensures v.NearZero() ==> v.LengthSquared() < 3.0 * NearZeroBound * NearZeroBound
  {
    if v.NearZero() {
      SquareBelow(v.x, NearZeroBound);
      SquareBelow(v.y, NearZeroBound);
      SquareBelow(v.z, NearZeroBound);
    }
  }

  lemma SquareBelow(a: real, b: real)
    requires Abs(a) < b
    ensures a * a < b * b
  {
    var m := Abs(a);
    assert 0.0 <= m < b;
    var mm, mb, bb := m * m, m * b, b * b;
    assert a * a == mm;
    assert mm <= mb;
    var gap := b - m;
    assert gap > 0.0 && b > 0.0;
    assert gap * b > 0.0;
    assert gap * b == bb - mb;
  }

  /** Dot product distributes over `Sub` and pulls out scalars. */
  lemma DotLinear(u: Vec3, w: Vec3, n: Vec3, k: real)
    ensures Dot(Sub(u, Scale(w, k)), n) == Dot(u, n) - k * Dot(w, n)
  {
  }

  /** For a unit normal, reflection negates the normal component and keeps the length. */
  lemma ReflectUnitNormal(v: Vec3, n: Vec3)
    requires n.LengthSquared() == 1.0
    ensures Dot(Reflect(v, n), n) == -Dot(v, n)
    ensures Reflect(v, n).LengthSquared() == v.LengthSquared()
  {
    var d := Dot(v, n);
    var k := 2.0 * d;
    var w := Scale(n, k);
    assert Reflect(v, n) == Sub(v, w) by { ScaleTwice(n, 2.0, d); }
    assert Dot(n, n) == 1.0;
    assert Dot(Sub(v, w), n) == d - k * 1.0 by { DotLinear(v, n, n, k); }
    assert Sub(v, w).LengthSquared() == v.LengthSquared() - 2.0 * k * d + k * k * 1.0 by {
      SubScaleLength(v, n, k);
    }
    assert k * k == 2.0 * k * d;
  }

  /** Scaling twice is scaling by the product. */
  lemma ScaleTwice(n: Vec3, a: real, b: real)
    ensures Scale(Scale(n, a), b) == Scale(n, a * b)
  {
    assert (n.x * a) * b == n.x * (a * b);
    assert (n.y * a) * b == n.y * (a * b);
    assert (n.z * a) * b == n.z * (a * b);
  }

  /** |v - k n|^2 = |v|^2 - 2 k (v.n) + k^2 |n|^2. */
  lemma SubScaleLength(v: Vec3, n: Vec3, k: real)
    ensures Sub(v, Scale(n, k)).LengthSquared()
         == v.LengthSquared() - 2.0 * k * Dot(v, n) + k * k * n.LengthSquared()
  {
    SquareOfDifference(v.x, n.x, k);
    SquareOfDifference(v.y, n.y, k);
    SquareOfDifference(v.z, n.z, k);
  }

  /** One coordinate of `SubScaleLength`: (a - b k)^2 = a^2 - 2 k a b + k^2 b^2. */
  lemma SquareOfDifference(a: real, b: real, k: real)
    ensures (a - b * k) * (a - b * k) == a * a - 2.0 * k * (a * b) + k * k * (b * b)
  {
  }

  /** |k v|^2 = k^2 |v|^2. */
  lemma ScaleLengthSquared(v: Vec3, k: real)
    ensures Scale(v, k).LengthSquared() == k * k * v.LengthSquared()
  {
  }

  /** With `-uv . n <= 1` (so the clamp does not bite) and a unit normal, the perpendicular part of `refract` is orthogonal to `n`. */
  lemma RefractPerpOrthogonal(uv: Vec3, n: Vec3, eta: real)
    requires n.LengthSquared() == 1.0
    requires Dot(Neg(uv), n) <= 1.0
    ensures Dot(RefractPerp(uv, n, eta), n) == 0.0
  {
    var c := Dot(Neg(uv), n);
    var inner := Add(uv, Scale(n, c));
    assert Dot(inner, n) == Dot(uv, n) + c * Dot(n, n);
    assert Dot(n, n) == 1.0;
    assert Dot(inner, n) == 0.0;
    assert RefractPerp(uv, n, eta) == Scale(inner, eta);
    DotScale(inner, n, eta);
  }

  lemma DotScale(u: Vec3, n: Vec3, k: real)
    ensures Dot(Scale(u, k), n) == k * Dot(u, n)
  {
  }

  /**
   * Under the same conditions, with an exact square root and no total internal
   * reflection (`|perp|^2 <= 1`), the refracted direction has unit length.
   */
  lemma RefractUnitLength(uv: Vec3, n: Vec3, eta: real, sqrt: real -> real)
    requires n.LengthSquared() == 1.0
    requires Dot(Neg(uv), n) <= 1.0
    requires RefractPerp(uv, n, eta).LengthSquared() <= 1.0
    requires var q := 1.0 - RefractPerp(uv, n, eta).LengthSquared(); sqrt(q) * sqrt(q) == q
    ensures Refract(uv, n, eta, sqrt).LengthSquared() == 1.0
  {
    var perp := RefractPerp(uv, n, eta);
    RefractPerpOrthogonal(uv, n, eta);
    var p := perp.LengthSquared();
    var s := sqrt(Abs(1.0 - p));
    assert Abs(1.0 - p) == 1.0 - p;
    assert s * s == 1.0 - p;
    assert Refract(uv, n, eta, sqrt) == Sub(perp, Scale(n, s)) by { AddNegScale(perp, n, s); }
    SubScaleLength(perp, n, s);
    assert Sub(perp, Scale(n, s)).LengthSquared() == p - 2.0 * s * 0.0 + s * s * 1.0;
  }

  /** Adding `-x` times `n` subtracts `x` times `n`. */
  lemma AddNegScale(p: Vec3, n: Vec3, x: real)
    ensures Add(p, Scale(n, -x)) == Sub(p, Scale(n, x))
  {
  }
}
