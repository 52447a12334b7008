# A verified model of the core of a small Rust ray tracer

This project models the core of "Ray Tracing in One Weekend" as written in
Rust (gariasf/ray-tracing-in-one-weekend) and proves properties of that model
in Dafny. It covers:

- three-component vectors and their operators;
- rays and the `[min, max]` intervals of ray parameters;
- the hit record and its face-normal rule;
- the sphere intersection, with its discriminant test, root selection and record writes;
- the scene list's nearest-hit search;
- the three scattering materials and Schlick's reflectance;
- the camera: `ray_color`, `initialize`, `get_ray` and the render loops.

Every `f64` is an exact `real`. The functions whose values the model does not
define are passed in as parameters: `sqrt`, `unit_vector` (`Vectors.Numerics`),
`tan` and pi (`Cameras.Trig`). Each random draw is a parameter too
(`Materials.Draw`, `Cameras.CameraDraw`, `Cameras.SampleDraw`).

The files follow the source modules:

| file | module | source |
|---|---|---|
| vec3.dfy | `Vectors` | src/vec3.rs |
| ray.dfy | `Rays` | src/ray.rs |
| interval.dfy | `Intervals` | src/interval.rs |
| hittable.dfy | `HitRecords` | src/hittable.rs |
| sphere.dfy | `Spheres` | src/sphere.rs |
| hittables.dfy | `Scenes` | src/hittables.rs |
| material.dfy | `Materials` | src/material.rs |
| camera.dfy | `Cameras` | src/camera.rs |
| options.dfy | `Options` | (the `Option` type) |

Code that changes state in place is imperative Dafny. Each method states its
new state, and the methods with loops or record writes are proved equal to a
pure specification function:

- `HitRecord.SetFaceNormal` and `Sphere.Hit` write the fields of a `HitRecord` object; `Sphere.Hit` is proved equal to `Sphere.HitSpec`.
- `HittableList` keeps its objects in a `seq` field that `Add` and `Clear` reassign; their contracts give the new sequence directly.
- `HittableList.Hit` is the `for` loop with the shrinking window, proved equal to `Scenes.NearestHit`.
- `Camera` has the source's twenty fields. The constructor sets the ten settings and zeroes the rest; `Initialize` sets the ten derived fields from `ViewFor`; `Render` runs the nested loops, proved equal to `Cameras.Image`.

The pure code is functions and lemmas.

Some parts of the source do not fit together. The model settles them as follows:

- The `Hittable` trait takes `t_min, t_max`, but the list and the camera pass an `Interval`. Here a child's hit takes `(lo, hi)` bounds, and the list passes `(interval.min, closest_so_far)`.
- A bound may be infinite (`Intervals.Bound`).
- The sphere accepts a root through the inclusive test `!(root < t_min || t_max < root)`.
- `HitRecord` has no material field, yet `ray_color` reads one. Here a hit carries `material`, an index into the scene's material sequence. Every `Sphere` names one.
- `Ray::new` takes a time, but the scatter rules build rays without one. A scattered ray keeps the incoming ray's time.
- The `Material` enum has no `Dielectric` variant, although `Dielectric` implements the scatter rule. Here `Material` is a closed datatype of all three variants.

The Rust code differs in places from the tracer of the book "Ray Tracing in One Weekend" (and its sequel's moving spheres). The model follows the Rust code:

- The code treats the sphere's acceptance test as inclusive at both ends, not strict.
- There is no moving sphere. Only a ray carries a time.
- `random_in_unit_sphere` keeps points on or outside the sphere (see Findings).
- `render` passes the sum of the samples on to the output writer and does not average it.

## Model

| member | source | states |
|---|---|---|
| Vectors.Vec3.LengthSquared | src/vec3.rs:32-34 | the squared length is never negative |
| Vectors.Vec3.NearZero | src/vec3.rs:36-40 | the component-wise test against 1e-8; its meaning is stated by `NearZeroMeaning` |
| Vectors.Dot | src/vec3.rs:140-142 | the sum of the component products; symmetric (`DotSymmetric`) and equal to the squared length on `(v, v)` (`LengthSquaredIsDot`) |
| Vectors.Neg | src/vec3.rs:57-63 | `v + (-v)` is the zero vector |
| Vectors.Add | src/vec3.rs:81-88 | component-wise sum; `Sub` undoes it (`AddSubInverse`) |
| Vectors.Sub | src/vec3.rs:90-96 | component-wise difference; `Add` undoes it (`AddSubInverse`) |
| Vectors.Scale | src/vec3.rs:99-113 | `v * t` and `t * v`, component-wise; scaling twice is scaling by the product (`ScaleTwice`), `dot` pulls the factor out (`DotScale`), and the squared length grows by `t^2` (`ScaleLengthSquared`) |
| Vectors.Mul | src/vec3.rs:115-121 | the component-wise product of two colours; it keeps colours in the unit cube (`Cameras.MulInUnitCube`) |
| Vectors.Div | src/vec3.rs:124-130 | `(v / t) * t == v` for every non-zero `t` |
| Vectors.Reflect | src/vec3.rs:45-47 | the mirror image `v - 2 (v . n) n`; its geometry is stated by `ReflectUnitNormal` |
| Vectors.Refract | src/vec3.rs:49-54 | the perpendicular part plus `-sqrt(|1 - |perp|^2|) n`; its geometry is stated by `RefractPerpOrthogonal` and `RefractUnitLength` |
| Vectors.LengthSquaredIsDot | src/vec3.rs:32-34 | the squared length equals `dot(v, v)` and is non-negative |
| Vectors.NearZeroMeaning | src/vec3.rs:36-40 | `near_zero` holds iff every component is below 1e-8 in magnitude; the zero vector is near zero; a near-zero vector has squared length below 3e-16 |
| Vectors.DotSymmetric | src/vec3.rs:140-142 | `dot(u, v) == dot(v, u)` |
| Vectors.Cross | src/vec3.rs:144-150 | `cross(u, v)` is orthogonal to both `u` and `v` |
| Vectors.CrossAnticommutative | src/vec3.rs:144-150 | `cross(u, v) == -cross(v, u)` |
| Vectors.AddSubInverse | src/vec3.rs:81-96 | `(u + v) - v == u` and `(u - v) + v == u` |
| Vectors.NegInvolution | src/vec3.rs:57-63 | `-(-v) == v` and `v + (-v)` is zero |
| Vectors.ReflectUnitNormal | src/vec3.rs:45-47 | for a unit normal, `reflect` negates the normal component and keeps the squared length |
| Vectors.RefractPerpOrthogonal | src/vec3.rs:49-51 | when the cosine clamp does not bite and the normal is a unit vector, the perpendicular part of `refract` is orthogonal to the normal |
| Vectors.RefractUnitLength | src/vec3.rs:49-54 | with an exact square root and no total internal reflection, `refract` returns a unit vector |
| Vectors.RandomInHemisphere | src/vec3.rs:170-177 | the result is the drawn vector or its negation, it is kept when it already points into the normal's hemisphere, and its dot product with the normal is always `>= 0` |
| Vectors.RandomInUnitSphere | src/vec3.rs:156-164 | the retry loop as written: it returns the first draw its test accepts, every earlier draw had squared length below 1, and it reports None when the draws run out |
| Vectors.AsWrittenNeverInside | src/vec3.rs:156-164 | as written, an accepted point has squared length `>= 1`, and nothing is accepted iff every draw lies strictly inside the unit sphere |
| Vectors.InsideDrawRejected | src/vec3.rs:156-164 | the draw (0.5, 0, 0), inside the sphere, is rejected as written and accepted by the corrected test |
| Vectors.RandomInUnitSphereCorrected | src/vec3.rs:156-164 | the loop with the intended test returns the first draw strictly inside the unit sphere, and every draw it skipped had squared length `>= 1` |
| Vectors.CorrectedAlwaysInside | src/vec3.rs:156-164 | the corrected sampler only accepts points with squared length `< 1`, and it accepts nothing iff no draw lies inside |
| Rays.AccessorsReturnArguments | src/ray.rs:11-29 | the accessors return the `origin`, `direction` and `time` the constructor was given |
| Rays.Ray.At | src/ray.rs:23-25 | `at(t) - origin == t * direction` |
| Rays.AtZeroIsOrigin | src/ray.rs:23-25 | `at(0) == origin` |
| Rays.AtShift | src/ray.rs:23-25 | `at(s + t) == at(s) + t * direction` |
| Intervals.New | src/interval.rs:10-12 | `new()` is the universe and contains and surrounds every real |
| Intervals.WithBounds | src/interval.rs:14-16 | `with_bounds(a, b)` stores `min == a` and `max == b` |
| Intervals.Interval.Contains | src/interval.rs:18-20 | `min <= x <= max` on extended reals; stated by `FiniteBoundsMeaning` and `InfiniteBoundsMeaning` |
| Intervals.Interval.Surrounds | src/interval.rs:22-24 | `min < x < max` on extended reals; it implies `contains` and excludes the endpoints |
| Intervals.FiniteBoundsMeaning | src/interval.rs:18-24 | on finite bounds, `contains(x)` iff `a <= x <= b` and `surrounds(x)` iff `a < x < b` |
| Intervals.InfiniteBoundsMeaning | src/interval.rs:18-20 | an infinite bound does not constrain its side; a `+inf` minimum or a `-inf` maximum contains nothing |
| Intervals.SurroundsImpliesContains | src/interval.rs:18-24 | `surrounds(x)` implies `contains(x)` |
| Intervals.SurroundsExcludesEndpoints | src/interval.rs:18-24 | `surrounds` is false at a finite endpoint, while `contains` holds at the minimum of a non-empty interval |
| Intervals.EmptyContainsNothing | src/interval.rs:26 | `EMPTY` neither contains nor surrounds any real |
| Intervals.UniverseContainsEverything | src/interval.rs:27 | `UNIVERSE` contains and surrounds every real, and equals `new()` |
| HitRecords.FaceNormal | src/hittable.rs:17-21 | the front-face flag is `dot(direction, outward) < 0`; the normal is the outward one when front-facing and its negation otherwise; it opposes the ray and keeps the outward normal's squared length |
| HitRecords.HitRecord.constructor | src/hittable.rs:13-15 | `HitRecord::new` stores its four arguments |
| HitRecords.HitRecord.SetFaceNormal | src/hittable.rs:17-21 | sets `front_face` and `normal` by the face-normal rule, so the stored normal opposes the ray; `point`, `t` and the material are unchanged |
| HitRecords.HitRecord.CopyFrom | src/hittables.rs:44 | `*record = temp_record.clone()` copies every field |
| Spheres.AcceptedIsContains | src/sphere.rs:30-32 | the sphere's acceptance test is closed-interval containment `[t_min, t_max]` |
| Spheres.Sphere.RecordAt | src/sphere.rs:36-40 | the record for root `t` has that `t`, the point `ray.at(t)`, the sphere's material, and a normal that opposes the ray and has the outward normal's squared length |
| Spheres.Sphere.HitSpec | src/sphere.rs:17-43 | a reported root lies in the window; the point is `ray.at(t)`; a negative discriminant is a miss |
| Spheres.Sphere.Hit | src/sphere.rs:17-43 | returns true exactly when `HitSpec` reports a hit, then writes exactly that record; on false the record is untouched |
| Spheres.Sphere.OffsetQuadratic | src/sphere.rs:18-22 | `|ray.at(t) - center|^2 - r^2` is the quadratic `a t^2 + 2 half_b t + c` |
| Spheres.Sphere.NearBeforeFar | src/sphere.rs:29-31 | with `a != 0` and a non-negative root, the near root is at most the far root |
| Spheres.Sphere.RootSelection | src/sphere.rs:22-35 | a negative discriminant misses; otherwise the near root wins when accepted, the far root is tried only when the near one is rejected, and near <= far under an exact square root |
| Spheres.Sphere.SurfaceParameters | src/sphere.rs:18-31 | the ray meets the sphere at `t` iff `t` is the near or the far root |
| Spheres.Sphere.UnitOutwardNormal | src/sphere.rs:39 | on the surface, `(p - center) / radius` has squared length 1 |
| Spheres.Sphere.HitIsRoot | src/sphere.rs:29-40 | a reported hit is the record of the near or the far root, with `a != 0` and a non-negative discriminant |
| Spheres.Sphere.HitOnSurface | src/sphere.rs:36-40 | under an exact square root, a reported point lies on the sphere, the outward normal has unit length as `set_face_normal` expects, and the stored normal is a unit vector opposing the ray |
| Spheres.Sphere.HitIsNearestSurfacePoint | src/sphere.rs:28-35 | whenever the ray meets the sphere at some `t` in the window, `hit` succeeds with a root no larger than `t` |
| Spheres.Sphere.WindowShrink | src/sphere.rs:29-35 | a narrower upper end never yields a nearer hit, and keeps the answer when that answer still fits |
| Spheres.SphereKeepsContract | src/hittable.rs:25-27 | a sphere keeps the `Hittable` contract the list's nearest-hit search relies on |
| Scenes.EmptyListMisses | src/hittables.rs:37-48 | the empty list reports no hit |
| Scenes.NearestHit | src/hittables.rs:35-49 | the search over any objects: each is queried in order with `[lo, closest so far]`, and the last success is reported; its meaning is `NearestWins` |
| Scenes.ListHit | src/hittables.rs:35-49 | the search over a list of spheres; its meaning is `ListNearestWins` and `ListHitMaterial` |
| Scenes.NearestHitStep | src/hittables.rs:40-46 | one more object: that object is queried with `[min, closest_so_far]`, and its success replaces the answer so far |
| Scenes.NearestWins | src/hittables.rs:35-49 | for children that keep the contract: the answer lies in the window; it is a miss iff every child alone misses; a hit is some child's own answer; no child alone offers a nearer `t` |
| Scenes.NearestWinsStep | src/hittables.rs:40-46 | the nearest-wins facts carry over from a prefix of the objects to one more object |
| Scenes.NearestInWindow | src/hittables.rs:35-49 | when every object reports only hits inside the window it is asked about, the answer lies in `[min, max]` and is never farther than the answer after any earlier object |
| Scenes.ListNearestWins | src/hittables.rs:35-49 | for spheres: nearest wins as above, and the hit carries the winning sphere's material |
| Scenes.NearestHitFromSomeObject | src/hittables.rs:40-45 | whatever the search reports is some object's answer for a window that starts at `interval.min` |
| Scenes.ListHitMaterial | src/hittables.rs:41-44 | a hit's material is the material of one of the listed spheres, for any square root |
| Scenes.HittableList.constructor | src/hittables.rs:12-14 | `new()` holds no objects |
| Scenes.HittableList.WithObject | src/hittables.rs:17-21 | `with_object(o)` is a fresh list holding just `o` |
| Scenes.HittableList.Clear | src/hittables.rs:24-26 | `clear` empties the list |
| Scenes.HittableList.Add | src/hittables.rs:29-31 | `add` appends the object at the end and keeps the earlier objects in order |
| Scenes.HittableList.Hit | src/hittables.rs:35-49 | returns true iff the nearest-hit search finds a hit, then leaves that hit in the record; on false the record is unchanged |
| Materials.Scatter | src/material.rs:16-21 | every material scatters; the ray leaves the hit point with the incoming time; attenuation is the albedo for diffuse and metal, white for glass |
| Materials.LambertianDirection | src/material.rs:31-34 | the direction is `normal + r`, or exactly `normal` when `normal + r` is near zero; a near-zero result can only be the normal |
| Materials.LambertianScatter | src/material.rs:30-38 | attenuation `albedo`; the ray leaves the hit point with the incoming time; the direction is `normal + r` when that is not near zero and exactly the normal when it is; with a unit normal the direction is never near zero |
| Materials.LambertianNotDegenerate | src/material.rs:31-34 | with a unit normal the diffuse direction is never near zero, whatever is drawn |
| Materials.MetalScatter | src/material.rs:47-52 | attenuation `albedo`; the ray leaves the hit point with the incoming time; the direction differs from the mirror direction of the unit incoming direction by exactly `fuzz * r`; with fuzz 0 and a unit normal it negates the normal component and keeps the length |
| Materials.RefractionRatio | src/material.rs:61-65 | the ratio is `1 / index` on the front face and `index` otherwise, and never -1 when the index is not -1 |
| Materials.DielectricScatter | src/material.rs:60-84 | attenuation white; the ray leaves the hit point with the incoming time; it reflects when refraction is impossible or the draw is below the reflectance, and refracts otherwise, with the ratio of the face it crosses |
| Materials.DielectricDirection | src/material.rs:67-79 | the reflect-or-refract choice; `DielectricChoice` states that total internal reflection reflects for every draw |
| Materials.DielectricChoice | src/material.rs:72-79 | under total internal reflection the glass reflects for every draw; otherwise a draw at or above the reflectance refracts |
| Materials.PowUnitInterval | src/material.rs:91 | powers of a number in [0, 1] stay in [0, 1] |
| Materials.R0 | src/material.rs:89-90 | `((1 - n) / (1 + n))^2`; in [0, 1] for `n >= 0` (`R0UnitInterval`) |
| Materials.Reflectance | src/material.rs:87-92 | Schlick's polynomial; its range is stated by `ReflectanceRange` |
| Materials.R0UnitInterval | src/material.rs:89-90 | for a non-negative index, `r0 = ((1 - n) / (1 + n))^2` lies in [0, 1] |
| Materials.ReflectanceRange | src/material.rs:87-92 | `reflectance(1, n) == r0`, `reflectance(0, n) == 1`, and for cosines in [0, 1] the value lies in `[r0, 1]` |
| Cameras.AsI32 | src/camera.rs:118 | `as i32` truncates toward zero within range and saturates at the `i32` limits |
| Cameras.ImageHeight | src/camera.rs:118-122 | the image height is at least 1; it is the floor of `width / aspect_ratio` when that is at least 1 and in range, and exactly 1 below 1 |
| Cameras.Sky | src/camera.rs:200-208 | for a height in [-1, 1] the blue channel is 1, red is in [0.5, 1] and green in [0.7, 1]; white straight down, (0.5, 0.7, 1) straight up |
| Cameras.WorldHit | src/camera.rs:189 | the world is queried with `[0.001, +inf]`, and a hit's material index names one of the scene's materials |
| Cameras.RayColor | src/camera.rs:181-209 | the recursion of `ray_color` (the depth test here, the rest in the helper `Bounce`); its cases are stated by `RayColorDepthExhausted`, `RayColorMiss`, `RayColorHit` and `RayColorStep`, its range by `RayColorInUnitCube` |
| Cameras.RayColorDepthExhausted | src/camera.rs:183-185 | at depth <= 0 the colour is black for every ray and scene |
| Cameras.RayColorMiss | src/camera.rs:189-208 | when no sphere alone is hit in `[0.001, +inf]`, the colour is the sky along the unit direction |
| Cameras.EmptySceneIsSky | src/camera.rs:181-209 | with no objects and bounces left, every ray sees the sky |
| Cameras.RayColorHit | src/camera.rs:189-197 | when some sphere is hit: the world's hit is the nearest, at `t >= 0.001`, with a valid material, and the colour is the attenuation times the colour of the scattered ray one bounce lower |
| Cameras.RayColorStep | src/camera.rs:192-195 | on a world hit the colour is the material's attenuation times `ray_color` of the scattered ray at `depth - 1` |
| Cameras.RayColorInUnitCube | src/camera.rs:181-209 | with albedos in [0, 1] and unit-vector heights in [-1, 1], every colour lies in [0, 1] per channel at every depth |
| Cameras.PixelGridCentred | src/camera.rs:143-149 | halfway between the first and the last pixel centres of the grid lies the viewport centre |
| Cameras.ViewFor | src/camera.rs:118-154 | the derived view stores the image height it is given and `center == look_from` |
| Cameras.ViewFrameOrthogonal | src/camera.rs:135-137 | `v = cross(w, u)` is orthogonal to `w` and to `u`, whatever `unit_vector` returns |
| Cameras.ViewGridCentred | src/camera.rs:140-149 | the pixel grid of the view is centred on the point `focus_distance` along `-w` from the camera centre |
| Cameras.DegreesToRadians | src/utils.rs:5-7 | 180 degrees is `pi`, and `radians * 180 == degrees * pi` |
| Cameras.PixelSampleSquare | src/camera.rs:174-179 | `px * delta_u + py * delta_v` with the draws shifted by -0.5; `PixelSampleInSquare` bounds the offsets |
| Cameras.PixelSampleInSquare | src/camera.rs:174-179 | draws in [0, 1) give pixel offsets `px, py` in [-0.5, 0.5) |
| Cameras.DefocusDiskSample | src/camera.rs:168-172 | the centre moved by the disk draw in the defocus basis; `GetRay` uses it as the origin when the defocus angle is positive |
| Cameras.GetRay | src/camera.rs:157-166 | the origin is the centre when `defocus_angle <= 0`, else the defocus-disk point; the ray reaches the jittered pixel point at `t = 1`; the time is the drawn one |
| Cameras.RowLayout | src/camera.rs:100-110 | a row holds one entry per column, left to right, each the sum of that pixel's samples |
| Cameras.ImageLength | src/camera.rs:97-111 | `n` rows of `columns` pixels give `n * columns` entries |
| Cameras.ImagePixel | src/camera.rs:97-111 | pixel `(h, c)` sits at row-major index `h * columns + c` and holds the sum of its samples |
| Cameras.EmptySceneSample | src/camera.rs:103-106 | with no objects and a positive depth, a sample is the sky along its primary ray |
| Cameras.SamplerInUnitCube | src/camera.rs:103-106 | with albedos in [0, 1], every sample colour lies in [0, 1] per channel |
| Cameras.PixelSumBounded | src/camera.rs:101-107 | the sum of `n` samples lies in `[0, n]` per channel |
| Cameras.Camera.constructor | src/camera.rs:56-89 | `Camera::new` stores the ten settings and zeroes every derived field |
| Cameras.Camera.Initialize | src/camera.rs:117-155 | the settings are unchanged and the derived fields are those `ViewFor` gives for the clamped image height |
| Cameras.Camera.SamplePixel | src/camera.rs:101-107 | the pixel's colour is the sum of `ray_color(get_ray(...))` over its `samples_per_pixel` samples |
| Cameras.Camera.Render | src/camera.rs:91-115 | after initializing, the result lists the pixel sums row by row, top to bottom and left to right; the settings are unchanged |

## Left out

- IEEE-754 behaviour is out of scope: rounding, NaN, infinities and the `f64` results of `sqrt`, `tan` and `unit_vector`. A property that holds only approximately in floating point is therefore not stated.
- Spheres.Sphere.HitSpec: with a zero ray direction (`a == 0`) the source divides by zero. Under IEEE-754 the root is then NaN, every comparison with NaN is false, so the test `!(root < t_min || t_max < root)` accepts it and `hit` returns true with `t = NaN`. The model reports a miss instead. A zero radius is excluded by the `Radius` type, because the outward normal divides by it.
- Materials.Scatter: requires a glass index other than 0 and -1. Index 0 divides by zero in the ratio on a front face (on a back face the ratio is 0 and the rule is finite); index -1 gives the ratio -1 on either face, and Schlick's `r0` then divides by `1 + ratio = 0`.
- Cameras.Camera.Initialize: requires a non-zero aspect ratio and image width, where the source divides by zero.
- Cameras.Camera.Initialize: the derived fields come from the pure function `ViewFor` and are then stored, instead of being computed field by field in the source's order.
- Cameras.ViewFor: specified only by the image height, the centre, the orthogonality of the frame and the centring of the grid. The viewport's size depends on `tan`, which is a parameter.
- The output is left out: creating the file, the header and `eprintln!` progress in `render`, and `write_color` with its averaging, clamp and gamma (src/color.rs). `Render` returns the pixel sums in order instead of writing them.
- Cameras.Camera.SamplePixel: the innermost loop of `render` is a method of its own.
- src/main.rs, the stale demo, is not part of this model.
- The random functions of src/utils.rs are not part of this model. Every draw is a parameter, and `degrees_to_radians` takes pi as a parameter.
- The random draws are not constrained to be unit vectors or to lie in [0, 1). Lemmas that need such a fact state it as a hypothesis.
- Sampling statistics are out of scope: uniformity of the draws and Schlick's value used as a probability.
- `length` and `unit_vector` are not defined, because they need `sqrt`; they are parameters. `random_unit_vector` and `random_in_unit_disk` are draws.
- `random_range`, `random` and the `Display` and `Index`/`IndexMut` impls of src/vec3.rs are left out. The model's components are named fields.
- Vectors.RandomInUnitSphere: the source loops until a draw is accepted. The model takes a finite sequence of draws and returns `None` when it runs out.
- The scene holds spheres only; `HittableList::hit` queries them through the sphere's hit rule. Nested lists and other `Hittable` kinds are left out; the generic `Scenes.NearestWins` states the search for any child that keeps the contract.
- Scenes.NearestWins: it is stated about the pure search `NearestHit`. `HittableList.Hit` is proved equal to that search.
- Cameras.RayColor: the `None` branch of scatter is kept as in the source, but every material returns `Some`, so that branch is never reached.
- `ray_color` is recursive and bounded by `max_depth`. Stack depth is not modelled.

## Findings

| source | as written | input that shows it | evidently intended | confidence | as-written member | corrected member |
|---|---|---|---|---|---|---|
| src/vec3.rs:159 | the retry loop skips a draw when its squared length is below 1 and returns the first draw with squared length at least 1, so `random_in_unit_sphere` only returns points on or outside the unit sphere | the draw (0.5, 0, 0) lies inside the sphere and is rejected | skip draws with squared length at least 1, so that only points strictly inside the sphere are returned | high (not executed) | Vectors.RandomInUnitSphere, Vectors.AsWrittenNeverInside, Vectors.InsideDrawRejected | Vectors.RandomInUnitSphereCorrected, Vectors.CorrectedAlwaysInside |
