/**
 * The camera (src/camera.rs): light transport along a ray (`ray_color`), the
 * viewport set-up (`initialize`), primary rays (`get_ray`) and the render
 * loops that sum the samples of every pixel.
 */
module Cameras {
  import opened Options
  import opened Vectors
  import opened Rays
  import opened Intervals
  import opened HitRecords
  import opened Spheres
  import opened Scenes
  import opened Materials

  // ---------------------------------------------------------------------
  // 32-bit integers and Rust's float-to-integer cast
  // ---------------------------------------------------------------------

  const I32Min: int := -0x8000_0000
  const I32Max: int := 0x7fff_ffff

  type I32 = x: int | I32Min <= x <= I32Max

  /** Rust's `as i32` on a finite `f64`: rounds toward zero, then saturates. */
  function AsI32(x: real): (r: I32)
    ensures 0.0 <= x < I32Max as real + 1.0 ==> r >= 0 && r as real <= x < r as real + 1.0
    ensures I32Min as real - 1.0 < x <= 0.0 ==> r <= 0 && r as real - 1.0 < x <= r as real
    ensures x >= I32Max as real + 1.0 ==> r == I32Max
    ensures x <= I32Min as real - 1.0 ==> r == I32Min
  {
    var t := if x >= 0.0 then x.Floor else -((-x).Floor);
    if t < I32Min then I32Min else if t > I32Max then I32Max else t
  }

  /** `image_height`: the width over the aspect ratio, cast to `i32`, and at least 1. */
  function ImageHeight(imageWidth: real, aspectRatio: real): (h: I32)
    requires aspectRatio != 0.0
    ensures h >= 1
    ensures 1.0 <= imageWidth / aspectRatio < I32Max as real + 1.0 ==>
              h as real <= imageWidth / aspectRatio < h as real + 1.0
    ensures imageWidth / aspectRatio < 1.0 ==> h == 1
  {
    var h := AsI32(imageWidth / aspectRatio);
    if h < 1 then 1 else h
  }

  // ---------------------------------------------------------------------
  // Light transport
  // ---------------------------------------------------------------------

  const Black: Vec3 := Vec3(0.0, 0.0, 0.0)
  const SkyBlue: Vec3 := Vec3(0.5, 0.7, 1.0)

  /** Lower end of the window the world is queried with, against shadow acne. */
  const HitLowerBound: real := 0.001

  /** The sky: white blended into blue by the height of the unit direction. */
  function Sky(unitDirection: Vec3): (c: Vec3)
    ensures -1.0 <= unitDirection.y <= 1.0 ==>
              c.z == 1.0 && 0.5 <= c.x <= 1.0 && 0.7 <= c.y <= 1.0
    ensures unitDirection.y == -1.0 ==> c == White
    ensures unitDirection.y == 1.0 ==> c == SkyBlue
  {
    var delta := 0.5 * (unitDirection.y + 1.0);
    Add(Scale(White, 1.0 - delta), Scale(SkyBlue, delta))
  }

  /** The world a camera renders: spheres and the materials they index. */
  datatype Scene = Scene(objects: seq<Sphere>, materials: seq<Material>)
  {
    predicate Valid()
    {
      && (forall k :: 0 <= k < |objects| ==> objects[k].material < |materials|)
      && (forall m :: 0 <= m < |materials| ==> materials[m].Valid())
    }
  }

  type ValidScene = s: Scene | s.Valid() witness Scene([], [])

  /**
   * The query `ray_color` makes: the window `[0.001, +infinity]`. A hit
   * carries some sphere's material, so its index names one of the scene's
   * materials.
   */
  function WorldHit(scene: ValidScene, ray: Ray, sqrt: real -> real): (r: Option<Hit>)
    ensures r.Some? ==> r.value.material < |scene.materials|
  {
    ListHitMaterial(scene.objects, ray, Finite(HitLowerBound), PosInf, sqrt);
    ListHit(scene.objects, ray, Finite(HitLowerBound), PosInf, sqrt)
  }

  /**
   * `Camera::ray_color`: black once the bounce budget is spent; on a hit, the
   * material's attenuation times the colour of the scattered ray with one
   * bounce less (black if the material absorbs); on a miss, the sky. The
   * bounce at depth `d` uses the random values `draws(d)`.
   */
  function RayColor(ray: Ray, depth: int, scene: ValidScene, num: Numerics, draws: int -> Draw): Vec3
    decreases depth, 1
  {
    if depth <= 0 then Black else Bounce(ray, depth, scene, num, draws)
  }

  /** The part of `ray_color` after the depth test: the world hit, the scatter and the sky. */
  function Bounce(ray: Ray, depth: int, scene: ValidScene, num: Numerics, draws: int -> Draw): Vec3
    requires depth > 0
    decreases depth, 0
  {
    var found := WorldHit(scene, ray, num.sqrt);
    if found.Some? then
      var rec := found.value;
      match Scatter(scene.materials[rec.material], ray, rec, draws(depth), num)
      case Some((attenuation, scattered)) => Mul(attenuation, RayColor(scattered, depth - 1, scene, num, draws))
      case None => Black
    else
      Sky(num.unitVector(ray.direction))
  }

  lemma RayColorDepthExhausted(ray: Ray, depth: int, scene: ValidScene, num: Numerics, draws: int -> Draw)
    requires depth <= 0
    ensures RayColor(ray, depth, scene, num, draws) == Black
  {
  }

  /** A ray that no sphere, queried alone with `[0.001, +infinity]`, would hit sees the sky. */
  lemma RayColorMiss(ray: Ray, depth: int, scene: ValidScene, num: Numerics, draws: int -> Draw)
    requires depth > 0 && NonNegativeRoots(scene.objects, ray, num.sqrt)
    requires forall k :: 0 <= k < |scene.objects| ==>
               scene.objects[k].HitSpec(ray, Finite(HitLowerBound), PosInf, num.sqrt).None?
    ensures RayColor(ray, depth, scene, num, draws) == Sky(num.unitVector(ray.direction))
  {
    ListNearestWins(scene.objects, ray, Finite(HitLowerBound), PosInf, num.sqrt);
  }

  /** With no objects every ray with bounces left sees the sky. */
  lemma EmptySceneIsSky(ray: Ray, depth: int, scene: ValidScene, num: Numerics, draws: int -> Draw)
    requires scene.objects == [] && depth > 0
    ensures RayColor(ray, depth, scene, num, draws) == Sky(num.unitVector(ray.direction))
  {
    EmptyListMisses(SphereQuery(ray, num.sqrt), Finite(HitLowerBound), PosInf);
  }

  /**
   * A ray that some sphere would hit: the world reports the nearest such hit,
   * beyond 0.001, and the colour is the component-wise product of its
   * material's attenuation and the colour of the scattered ray one bounce lower.
   */
  lemma RayColorHit(ray: Ray, depth: int, scene: ValidScene, num: Numerics, draws: int -> Draw)
    requires depth > 0 && NonNegativeRoots(scene.objects, ray, num.sqrt)
    requires exists k :: 0 <= k < |scene.objects| &&
               scene.objects[k].HitSpec(ray, Finite(HitLowerBound), PosInf, num.sqrt).Some?
    ensures var found := WorldHit(scene, ray, num.sqrt);
      && found.Some?
      && found.value.t >= HitLowerBound
      && (forall k :: 0 <= k < |scene.objects| ==>
            var alone := scene.objects[k].HitSpec(ray, Finite(HitLowerBound), PosInf, num.sqrt);
            alone.Some? ==> found.value.t <= alone.value.t)
      && found.value.material < |scene.materials|
      && var scatter := Scatter(scene.materials[found.value.material], ray, found.value, draws(depth), num).value;
         RayColor(ray, depth, scene, num, draws) == Mul(scatter.0, RayColor(scatter.1, depth - 1, scene, num, draws))
  {
    ListNearestWins(scene.objects, ray, Finite(HitLowerBound), PosInf, num.sqrt);
    ListHitMaterial(scene.objects, ray, Finite(HitLowerBound), PosInf, num.sqrt);
  }

  predicate InUnitCube(c: Vec3)
  {
    0.0 <= c.x <= 1.0 && 0.0 <= c.y <= 1.0 && 0.0 <= c.z <= 1.0
  }

  /** Every diffuse and metal albedo lies in [0, 1] per channel. */
  predicate AlbedosInUnitCube(materials: seq<Material>)
  {
    forall m :: 0 <= m < |materials| && !materials[m].Dielectric? ==> InUnitCube(materials[m].albedo)
  }

  /** The supplied `unit_vector` yields a height in [-1, 1], as a unit vector does. */
  ghost predicate UnitHeights(num: Numerics)
  {
    forall v :: -1.0 <= num.unitVector(v).y <= 1.0
  }

  lemma UnitProduct(a: real, b: real)
    requires 0.0 <= a <= 1.0 && 0.0 <= b <= 1.0
    ensures 0.0 <= a * b <= 1.0
  {
    var ab := a * b;
    assert ab <= b by { assert b - ab == (1.0 - a) * b; ProductNonNegative(1.0 - a, b); }
    ProductNonNegative(a, b);
  }

  lemma MulInUnitCube(u: Vec3, v: Vec3)
    requires InUnitCube(u) && InUnitCube(v)
    ensures InUnitCube(Mul(u, v))
  {
    UnitProduct(u.x, v.x);
    UnitProduct(u.y, v.y);
    UnitProduct(u.z, v.z);
  }

  /** One step of `ray_color` on a world hit, for any square root. */
  lemma RayColorStep(ray: Ray, depth: int, scene: ValidScene, num: Numerics, draws: int -> Draw)
    requires depth > 0 && WorldHit(scene, ray, num.sqrt).Some?
    ensures var rec := WorldHit(scene, ray, num.sqrt).value;
      && rec.material < |scene.materials|
      && var scatter := Scatter(scene.materials[rec.material], ray, rec, draws(depth), num).value;
         RayColor(ray, depth, scene, num, draws) == Mul(scatter.0, RayColor(scatter.1, depth - 1, scene, num, draws))
  {
    ListHitMaterial(scene.objects, ray, Finite(HitLowerBound), PosInf, num.sqrt);
  }

  /**
   * Energy is never created: with albedos in [0, 1] every colour `ray_color`
   * returns lies in [0, 1] per channel, at every depth.
   */
  lemma {:induction false} RayColorInUnitCube(ray: Ray, depth: int, scene: ValidScene, num: Numerics, draws: int -> Draw)
    requires AlbedosInUnitCube(scene.materials) && UnitHeights(num)
    ensures InUnitCube(RayColor(ray, depth, scene, num, draws))
    decreases depth
  {
    if depth > 0 {
      var found := WorldHit(scene, ray, num.sqrt);
      if found.Some? {
        RayColorStep(ray, depth, scene, num, draws);
        var m := scene.materials[found.value.material];
        var scatter := Scatter(m, ray, found.value, draws(depth), num).value;
        RayColorInUnitCube(scatter.1, depth - 1, scene, num, draws);
        MulInUnitCube(scatter.0, RayColor(scatter.1, depth - 1, scene, num, draws));
      } else {
        assert -1.0 <= num.unitVector(ray.direction).y <= 1.0;
      }
    }
  }

  // ---------------------------------------------------------------------
  // The camera
  // ---------------------------------------------------------------------

  /** `tan` and the constant pi, which the viewport set-up takes from `f64`. */
  datatype Trig = Trig(tan: real -> real, pi: real)

  /** Degrees to radians: 180 degrees is `pi`, and the map is linear. */
  function DegreesToRadians(degrees: real, pi: real): (r: real)
    ensures degrees == 180.0 ==> r == pi
    ensures r * 180.0 == degrees * pi
  {
    degrees * pi / 180.0
  }

  /** `tan(radians(angle) / 2)`, the half-angle tangent `initialize` takes of both angles. */
  function HalfAngleTan(trig: Trig, degrees: real): real
  {
    trig.tan(DegreesToRadians(degrees, trig.pi) / 2.0)
  }

  /** The random values one primary ray uses: the two pixel offsets, a disk point and the time. */
  datatype CameraDraw = CameraDraw(px: real, py: real, disk: Vec3, time: real)

  /** The random values one sample uses: its primary ray and the bounces after it. */
  datatype SampleDraw = SampleDraw(camera: CameraDraw, bounces: int -> Draw)

  /** What a render reads besides the camera: the scene, the numerics and the draw of each sample. */
  datatype RenderInput = RenderInput(scene: ValidScene, num: Numerics, draws: (int, int, int) -> SampleDraw)

  /** One coordinate of the pixel grid: halfway across it lies the viewport's centre `c`. */
  lemma GridCentred(c: real, vu: real, vv: real, width: real, height: real)
    requires width != 0.0 && height != 0.0
    ensures var du, dv := vu * (1.0 / width), vv * (1.0 / height);
      c - vu * (1.0 / 2.0) - vv * (1.0 / 2.0) + (du + dv) * 0.5
        + (du * ((width - 1.0) / 2.0) + dv * ((height - 1.0) / 2.0))
      == c
  {
    var du, dv := vu * (1.0 / width), vv * (1.0 / height);
    assert du * width == vu;
    assert dv * height == vv;
    assert du * ((width - 1.0) / 2.0) == (du * width - du) / 2.0;
    assert dv * ((height - 1.0) / 2.0) == (dv * height - dv) / 2.0;
  }

  /** The pixel deltas and the centre of pixel (0, 0). */
  datatype Grid = Grid(du: Vec3, dv: Vec3, pixel00: Vec3)

  /**
   * The grid `initialize` lays over a viewport with centre `focus` and edges
   * `viewportU`, `viewportV`: `width` by `height` pixels, the first pixel's
   * centre half a pixel in from the upper-left corner.
   */
  function PixelGrid(focus: Vec3, viewportU: Vec3, viewportV: Vec3, width: real, height: real): Grid
    requires width != 0.0 && height != 0.0
  {
    var du := Div(viewportU, width);
    var dv := Div(viewportV, height);
    var upperLeft := Sub(Sub(focus, Div(viewportU, 2.0)), Div(viewportV, 2.0));
    Grid(du, dv, Add(upperLeft, Scale(Add(du, dv), 0.5)))
  }

  /** The grid is centred: halfway between the first and the last pixel centres lies `focus`. */
  lemma PixelGridCentred(focus: Vec3, viewportU: Vec3, viewportV: Vec3, width: real, height: real)
    requires width != 0.0 && height != 0.0
    ensures var g := PixelGrid(focus, viewportU, viewportV, width, height);
      Add(g.pixel00, Add(Scale(g.du, (width - 1.0) / 2.0), Scale(g.dv, (height - 1.0) / 2.0))) == focus
  {
    var g := PixelGrid(focus, viewportU, viewportV, width, height);
    var m := Add(g.pixel00, Add(Scale(g.du, (width - 1.0) / 2.0), Scale(g.dv, (height - 1.0) / 2.0)));
    assert m.x == focus.x by { GridCentred(focus.x, viewportU.x, viewportV.x, width, height); }
    assert m.y == focus.y by { GridCentred(focus.y, viewportU.y, viewportV.y, width, height); }
    assert m.z == focus.z by { GridCentred(focus.z, viewportU.z, viewportV.z, width, height); }
  }

  /** The settings a camera is built with, which `initialize` and `render` only read. */
  datatype CameraSettings = CameraSettings(
    aspectRatio: real, imageWidth: real, samplesPerPixel: I32, maxDepth: I32, vfov: real,
    lookFrom: Vec3, lookAt: Vec3, vup: Vec3, defocusAngle: real, focusDistance: real)

  /** The fields `initialize` derives from the settings. */
  datatype View = View(
    imageHeight: I32, center: Vec3, pixel00Loc: Vec3, pixelDeltaU: Vec3, pixelDeltaV: Vec3,
    u: Vec3, v: Vec3, w: Vec3, defocusDiskU: Vec3, defocusDiskV: Vec3)

  /**
   * What `initialize` derives once the image height is known: the centre at
   * `look_from`, the frame `w, u, v`, the pixel deltas, the centre of pixel
   * (0, 0) half a pixel in from the viewport's upper-left corner, and the
   * defocus disk basis.
   */
  function ViewFor(s: CameraSettings, imageHeight: I32, num: Numerics, trig: Trig): (r: View)
    requires s.imageWidth != 0.0 && imageHeight >= 1
    ensures r.imageHeight == imageHeight && r.center == s.lookFrom
  {
    var center := s.lookFrom;
    var viewportHeight := ViewportHeight(s, trig);
    var viewportWidth := ViewportWidth(s, imageHeight, trig);
    var w := num.unitVector(Sub(s.lookFrom, s.lookAt));
    var u := num.unitVector(Cross(s.vup, w));
    var v := Cross(w, u);
    var viewportU := Scale(u, viewportWidth);
    var viewportV := Scale(Neg(v), viewportHeight);
    var grid := PixelGrid(Sub(center, Scale(w, s.focusDistance)), viewportU, viewportV, s.imageWidth, imageHeight as real);
    var defocusRadius := s.focusDistance * HalfAngleTan(trig, s.defocusAngle);
    View(imageHeight, center, grid.pixel00, grid.du, grid.dv, u, v, w,
         Scale(u, defocusRadius), Scale(v, defocusRadius))
  }

  /** The centre of pixel `(i, j)`: pixel (0, 0) moved by `i` columns and `j` rows. */
  function PixelCenter(view: View, i: real, j: real): Vec3
  {
    Add(view.pixel00Loc, Add(Scale(view.pixelDeltaU, i), Scale(view.pixelDeltaV, j)))
  }

  /** The third frame vector is orthogonal to the other two, whatever `unit_vector` returns. */
  lemma ViewFrameOrthogonal(s: CameraSettings, imageHeight: I32, num: Numerics, trig: Trig)
    requires s.imageWidth != 0.0 && imageHeight >= 1
    ensures var view := ViewFor(s, imageHeight, num, trig);
      Dot(view.v, view.w) == 0.0 && Dot(view.v, view.u) == 0.0
  {
    var view := ViewFor(s, imageHeight, num, trig);
    assert view.v == Cross(view.w, view.u);
    DotSymmetric(view.w, view.v);
    DotSymmetric(view.u, view.v);
  }

  /** The viewport height `initialize` computes: `2 tan(vfov / 2)` times the focus distance. */
  function ViewportHeight(s: CameraSettings, trig: Trig): real
  {
    2.0 * HalfAngleTan(trig, s.vfov) * s.focusDistance
  }

  /** The viewport width `initialize` computes: the height stretched by the image's pixel ratio. */
  function ViewportWidth(s: CameraSettings, imageHeight: I32, trig: Trig): real
    requires imageHeight >= 1
  {
    ViewportHeight(s, trig) * (s.imageWidth / imageHeight as real)
  }

  /** The grid `ViewFor` stores, with the viewport edges spelled out. */
  lemma ViewForGrid(s: CameraSettings, imageHeight: I32, num: Numerics, trig: Trig)
    requires s.imageWidth != 0.0 && imageHeight >= 1
    ensures var view := ViewFor(s, imageHeight, num, trig);
      var grid := PixelGrid(Sub(view.center, Scale(view.w, s.focusDistance)), Scale(view.u, ViewportWidth(s, imageHeight, trig)),
                            Scale(Neg(view.v), ViewportHeight(s, trig)), s.imageWidth, imageHeight as real);
      view.pixelDeltaU == grid.du && view.pixelDeltaV == grid.dv && view.pixel00Loc == grid.pixel00
  {
  }

  /**
   * The pixel grid is centred in the viewport: halfway between the first and
   * the last pixel centres lies the point `focus_distance` along `-w`.
   */
  lemma ViewGridCentred(s: CameraSettings, imageHeight: I32, num: Numerics, trig: Trig)
    requires s.imageWidth != 0.0 && imageHeight >= 1
    ensures var view := ViewFor(s, imageHeight, num, trig);
      PixelCenter(view, (s.imageWidth - 1.0) / 2.0, (imageHeight as real - 1.0) / 2.0)
        == Sub(view.center, Scale(view.w, s.focusDistance))
  {
    var view := ViewFor(s, imageHeight, num, trig);
    var focus := Sub(view.center, Scale(view.w, s.focusDistance));
    var viewportU := Scale(view.u, ViewportWidth(s, imageHeight, trig));
    var viewportV := Scale(Neg(view.v), ViewportHeight(s, trig));
    ViewForGrid(s, imageHeight, num, trig);
    PixelGridCentred(focus, viewportU, viewportV, s.imageWidth, imageHeight as real);
    CentredFromGrid(view, PixelGrid(focus, viewportU, viewportV, s.imageWidth, imageHeight as real),
                    focus, s.imageWidth, imageHeight as real);
  }

  /** A view that stores a centred grid has its middle pixel centre at the grid's focus. */
  lemma CentredFromGrid(view: View, g: Grid, focus: Vec3, width: real, height: real)
    requires view.pixelDeltaU == g.du && view.pixelDeltaV == g.dv && view.pixel00Loc == g.pixel00
    requires Add(g.pixel00, Add(Scale(g.du, (width - 1.0) / 2.0), Scale(g.dv, (height - 1.0) / 2.0))) == focus
    ensures PixelCenter(view, (width - 1.0) / 2.0, (height - 1.0) / 2.0) == focus
  {
  }

  // ---------------------------------------------------------------------
  // Primary rays
  // ---------------------------------------------------------------------

  /** `pixel_sample_square`: the offset `px * delta_u + py * delta_v` with `px, py` the draws shifted by -0.5. */
  function PixelSampleSquare(view: View, d: CameraDraw): Vec3
  {
    var px := -0.5 + d.px;
    var py := -0.5 + d.py;
    Add(Scale(view.pixelDeltaU, px), Scale(view.pixelDeltaV, py))
  }

  /** Draws in [0, 1) give offsets within half a pixel in each direction, in [-0.5, 0.5). */
  lemma PixelSampleInSquare(view: View, d: CameraDraw)
    requires 0.0 <= d.px < 1.0 && 0.0 <= d.py < 1.0
    ensures exists px, py :: -0.5 <= px < 0.5 && -0.5 <= py < 0.5 &&
              PixelSampleSquare(view, d) == Add(Scale(view.pixelDeltaU, px), Scale(view.pixelDeltaV, py))
  {
    var px, py := -0.5 + d.px, -0.5 + d.py;
    assert PixelSampleSquare(view, d) == Add(Scale(view.pixelDeltaU, px), Scale(view.pixelDeltaV, py));
  }

  /** `defocus_disk_sample`: the camera centre moved by a disk point in the defocus basis. */
  function DefocusDiskSample(view: View, d: CameraDraw): Vec3
  {
    Add(view.center, Add(Scale(view.defocusDiskU, d.disk.x), Scale(view.defocusDiskV, d.disk.y)))
  }

  /**
   * `get_ray(i, j)`: from the centre (or a defocus-disk point when the defocus
   * angle is positive) to a random point of pixel `(i, j)`, which the ray
   * reaches at `t = 1`; the time is the drawn one.
   */
  function GetRay(view: View, defocusAngle: real, i: int, j: int, d: CameraDraw): (r: Ray)
    ensures defocusAngle <= 0.0 ==> r.origin == view.center
    ensures defocusAngle > 0.0 ==> r.origin == DefocusDiskSample(view, d)
    ensures r.At(1.0) == Add(PixelCenter(view, i as real, j as real), PixelSampleSquare(view, d))
    ensures r.time == d.time
  {
    var pixelCenter := Add(view.pixel00Loc, Add(Scale(view.pixelDeltaU, i as real), Scale(view.pixelDeltaV, j as real)));
    var pixelSample := Add(pixelCenter, PixelSampleSquare(view, d));
    var rayOrigin := if defocusAngle <= 0.0 then view.center else DefocusDiskSample(view, d);
    var rayDirection := Sub(pixelSample, rayOrigin);
    Ray(rayOrigin, rayDirection, d.time)
  }

  // ---------------------------------------------------------------------
  // The image `render` accumulates
  // ---------------------------------------------------------------------

  /** Columns per row: `0..image_width as i32`, empty when the cast is negative. */
  function Columns(s: CameraSettings): nat
  {
    var c := AsI32(s.imageWidth);
    if c < 0 then 0 else c
  }

  /** Samples per pixel: `0..samples_per_pixel`, empty when negative. */
  function Samples(s: CameraSettings): nat
  {
    if s.samplesPerPixel < 0 then 0 else s.samplesPerPixel
  }

  /** The colour of sample `k` of the pixel in row `h`, column `c`. */
  function SampleColor(s: CameraSettings, view: View, input: RenderInput, h: int, c: int, k: int): Vec3
  {
    var d := input.draws(h, c, k);
    RayColor(GetRay(view, s.defocusAngle, c, h, d.camera), s.maxDepth, input.scene, input.num, d.bounces)
  }

  /** The colour of every sample, indexed by row, column and sample number. */
  function Sampler(s: CameraSettings, view: View, input: RenderInput): (int, int, int) -> Vec3
  {
    (h: int, c: int, k: int) => SampleColor(s, view, input, h, c, k)
  }

  /** The sum of the first `n` samples of a pixel. */
  function PixelSum(sample: (int, int, int) -> Vec3, h: int, c: int, n: nat): Vec3
  {
    if n == 0 then Black else Add(PixelSum(sample, h, c, n - 1), sample(h, c, n - 1))
  }

  /** The first `n` pixel sums of row `h`, left to right. */
  function Row(sample: (int, int, int) -> Vec3, samples: nat, h: int, n: nat): seq<Vec3>
  {
    if n == 0 then [] else Row(sample, samples, h, n - 1) + [PixelSum(sample, h, n - 1, samples)]
  }

  /** The first `n` rows, top to bottom. */
  function Image(sample: (int, int, int) -> Vec3, samples: nat, columns: nat, n: nat): seq<Vec3>
  {
    if n == 0 then [] else Image(sample, samples, columns, n - 1) + Row(sample, samples, n - 1, columns)
  }

  lemma {:induction false} RowLayout(sample: (int, int, int) -> Vec3, samples: nat, h: int, n: nat)
    ensures |Row(sample, samples, h, n)| == n
    ensures forall c :: 0 <= c < n ==> Row(sample, samples, h, n)[c] == PixelSum(sample, h, c, samples)
  {
    if n > 0 {
      RowLayout(sample, samples, h, n - 1);
    }
  }

  /** `n` rows of `columns` pixels each. */
  lemma {:induction false} ImageLength(sample: (int, int, int) -> Vec3, samples: nat, columns: nat, n: nat)
    ensures |Image(sample, samples, columns, n)| == n * columns
  {
    if n > 0 {
      ImageLength(sample, samples, columns, n - 1);
      RowLayout(sample, samples, n - 1, columns);
      assert (n - 1) * columns + columns == n * columns;
    }
  }

  /** Row-major indices: row `h` of `n` rows of `cols` pixels occupies `[h * cols, (h + 1) * cols)`. */
  lemma RowMajorIndex(h: int, c: int, n: int, cols: int)
    requires 0 <= h < n && 0 <= c < cols
    ensures 0 <= h * cols + c < n * cols
    ensures h < n - 1 ==> h * cols + c < (n - 1) * cols
    ensures h == n - 1 ==> h * cols + c == (n - 1) * cols + c
  {
    var d := n - 1 - h;
    assert (n - 1) * cols == h * cols + d * cols;
    assert n * cols == (n - 1) * cols + cols;
    assert h * cols >= 0;
    assert d * cols >= 0;
    if h < n - 1 {
      assert d * cols >= cols by { assert d * cols == cols + (d - 1) * cols; assert (d - 1) * cols >= 0; }
    }
  }

  /**
   * The image is in row-major order: pixel `(h, c)` of the first `n` rows
   * sits at index `h * columns + c` and holds the sum of its samples.
   */
  lemma {:induction false} ImagePixel(sample: (int, int, int) -> Vec3, samples: nat, columns: nat, n: nat, h: int, c: int)
    requires 0 <= h < n && 0 <= c < columns
    ensures h * columns + c < |Image(sample, samples, columns, n)|
    ensures Image(sample, samples, columns, n)[h * columns + c] == PixelSum(sample, h, c, samples)
  {
    var before, row := Image(sample, samples, columns, n - 1), Row(sample, samples, n - 1, columns);
    ImageLength(sample, samples, columns, n);
    ImageLength(sample, samples, columns, n - 1);
    RowLayout(sample, samples, n - 1, columns);
    RowMajorIndex(h, c, n, columns);
    var i := h * columns + c;
    if h < n - 1 {
      ImagePixel(sample, samples, columns, n - 1, h, c);
      assert (before + row)[i] == before[i];
    } else {
      assert (before + row)[i] == row[c];
    }
  }

  /** With no objects and bounces left, every sample is the sky seen along its primary ray. */
  lemma EmptySceneSample(s: CameraSettings, view: View, input: RenderInput, h: int, c: int, k: int)
    requires input.scene.objects == [] && s.maxDepth > 0
    ensures SampleColor(s, view, input, h, c, k)
            == Sky(input.num.unitVector(GetRay(view, s.defocusAngle, c, h, input.draws(h, c, k).camera).direction))
  {
    var d := input.draws(h, c, k);
    EmptySceneIsSky(GetRay(view, s.defocusAngle, c, h, d.camera), s.maxDepth, input.scene, input.num, d.bounces);
  }

  /** With albedos in [0, 1], every sample lies in [0, 1] per channel. */
  lemma SamplerInUnitCube(s: CameraSettings, view: View, input: RenderInput)
    requires AlbedosInUnitCube(input.scene.materials) && UnitHeights(input.num)
    ensures forall h, c, k :: InUnitCube(Sampler(s, view, input)(h, c, k))
  {
    forall h, c, k ensures InUnitCube(Sampler(s, view, input)(h, c, k)) {
      var d := input.draws(h, c, k);
      RayColorInUnitCube(GetRay(view, s.defocusAngle, c, h, d.camera), s.maxDepth, input.scene, input.num, d.bounces);
    }
  }

  /** Samples in [0, 1] per channel sum to at most `n` per channel over `n` samples. */
  lemma {:induction false} PixelSumBounded(sample: (int, int, int) -> Vec3, h: int, c: int, n: nat)
    requires forall h', c', k :: InUnitCube(sample(h', c', k))
    ensures var p := PixelSum(sample, h, c, n);
      0.0 <= p.x <= n as real && 0.0 <= p.y <= n as real && 0.0 <= p.z <= n as real
  {
    if n > 0 {
      PixelSumBounded(sample, h, c, n - 1);
      assert InUnitCube(sample(h, c, n - 1));
    }
  }

  class Camera {
    var aspectRatio: real
    var imageWidth: real
    var samplesPerPixel: I32
    var maxDepth: I32
    var vfov: real
    var lookFrom: Vec3
    var lookAt: Vec3
    var vup: Vec3
    var defocusAngle: real
    var focusDistance: real

    var imageHeight: I32
    var center: Vec3
    var pixel00Loc: Vec3
    var pixelDeltaU: Vec3
    var pixelDeltaV: Vec3
    var u: Vec3
    var v: Vec3
    var w: Vec3
    var defocusDiskU: Vec3
    var defocusDiskV: Vec3

    /** `Camera::new`: the settings as given, every derived field zero. */
    constructor (aspectRatio: real, imageWidth: real, samplesPerPixel: I32, maxDepth: I32, vfov: real,
                 lookFrom: Vec3, lookAt: Vec3, vup: Vec3, defocusAngle: real, focusDistance: real)
      ensures Settings() == CameraSettings(aspectRatio, imageWidth, samplesPerPixel, maxDepth, vfov,
                                           lookFrom, lookAt, vup, defocusAngle, focusDistance)
      ensures CurrentView() == View(0, Zero(), Zero(), Zero(), Zero(), Zero(), Zero(), Zero(), Zero(), Zero())
    {
      this.aspectRatio := aspectRatio;
      this.imageWidth := imageWidth;
      this.samplesPerPixel := samplesPerPixel;
      this.maxDepth := maxDepth;
      this.vfov := vfov;
      this.lookFrom := lookFrom;
      this.lookAt := lookAt;
      this.vup := vup;
      this.defocusAngle := defocusAngle;
      this.focusDistance := focusDistance;
      u := Zero();
      v := Zero();
      w := Zero();
      imageHeight := 0;
      center := Zero();
      pixel00Loc := Zero();
      pixelDeltaU := Zero();
      pixelDeltaV := Zero();
      defocusDiskU := Zero();
      defocusDiskV := Zero();
    }

    /** The public settings. */
    function Settings(): CameraSettings
      reads this
    {
      CameraSettings(aspectRatio, imageWidth, samplesPerPixel, maxDepth, vfov,
                     lookFrom, lookAt, vup, defocusAngle, focusDistance)
    }

    /** The derived fields. */
    function CurrentView(): View
      reads this
    {
      View(imageHeight, center, pixel00Loc, pixelDeltaU, pixelDeltaV, u, v, w, defocusDiskU, defocusDiskV)
    }

    /** The derived fields are the ones `initialize` derives from the current settings. */
    predicate Initialized(num: Numerics, trig: Trig)
      reads this
    {
      aspectRatio != 0.0 && imageWidth != 0.0 && CurrentView() == ViewFor(Settings(), ImageHeight(imageWidth, aspectRatio), num, trig)
    }

    /** `Camera::initialize`: stores the image height, the camera frame and the pixel grid. */
    method Initialize(num: Numerics, trig: Trig)
      requires aspectRatio != 0.0 && imageWidth != 0.0
      modifies this
      ensures Settings() == old(Settings())
      ensures Initialized(num, trig)
    {
      var view := ViewFor(Settings(), ImageHeight(imageWidth, aspectRatio), num, trig);
      imageHeight := view.imageHeight;
      center := view.center;
      w := view.w;
      u := view.u;
      v := view.v;
      pixelDeltaU := view.pixelDeltaU;
      pixelDeltaV := view.pixelDeltaV;
      pixel00Loc := view.pixel00Loc;
      defocusDiskU := view.defocusDiskU;
      defocusDiskV := view.defocusDiskV;
    }

    /** The innermost loop of `render`: the sum of the colours of the samples of pixel `(h, c)`. */
    method SamplePixel(h: int, c: int, view: View, input: RenderInput) returns (pixelColor: Vec3)
      ensures pixelColor == PixelSum(Sampler(Settings(), view, input), h, c, Samples(Settings()))
    {
      ghost var sample := Sampler(Settings(), view, input);
      pixelColor := Black;
      var s := 0;
      while s < samplesPerPixel
        invariant 0 <= s <= Samples(Settings())
        invariant pixelColor == PixelSum(sample, h, c, s)
      {
        var d := input.draws(h, c, s);
        var ray := GetRay(view, defocusAngle, c, h, d.camera);
        var rayColor := RayColor(ray, maxDepth, input.scene, input.num, d.bounces);
        assert sample(h, c, s) == rayColor;
        pixelColor := Add(pixelColor, rayColor);
        s := s + 1;
      }
    }

    /**
     * `Camera::render`: initializes, then for every row top to bottom and every
     * column left to right sums the colours of the pixel's samples. The sums
     * are returned in that order instead of being written out.
     */
    method Render(world: HittableList, materials: seq<Material>, num: Numerics, trig: Trig,
                  draws: (int, int, int) -> SampleDraw) returns (pixels: seq<Vec3>)
      requires aspectRatio != 0.0 && imageWidth != 0.0
      requires Scene(world.objects, materials).Valid()
      modifies this
      ensures Settings() == old(Settings())
      ensures Initialized(num, trig)
      ensures pixels == Image(Sampler(Settings(), CurrentView(), RenderInput(Scene(world.objects, materials), num, draws)),
                              Samples(Settings()), Columns(Settings()), imageHeight)
    {
      Initialize(num, trig);
      var input := RenderInput(Scene(world.objects, materials), num, draws);
      var view := CurrentView();
      ghost var settings := Settings();
      ghost var sample := Sampler(settings, view, input);
      ghost var samples, columns := Samples(settings), Columns(settings);
      pixels := [];
      var h := 0;
      while h < imageHeight
        invariant Settings() == settings && CurrentView() == view
        invariant 0 <= h <= imageHeight
        invariant pixels == Image(sample, samples, columns, h)
      {
        var c := 0;
        while c < AsI32(imageWidth)
          invariant Settings() == settings && CurrentView() == view
          invariant 0 <= c <= columns
          invariant pixels == Image(sample, samples, columns, h) + Row(sample, samples, h, c)
        {
          var pixelColor := SamplePixel(h, c, view, input);
          pixels := pixels + [pixelColor];
          c := c + 1;
        }
        h := h + 1;
      }
    }
  }
}
