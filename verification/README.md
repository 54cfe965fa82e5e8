# A verified model of the studious-tribble ray tracer core

studious-tribble is a small Monte-Carlo ray tracer. Its scene is a list of
hitable things, in practice spheres, each with a material: Lambertian,
metal or dielectric. For every pixel sample it sends a ray into the scene,
takes the nearest hit, and lets the material scatter the ray. It repeats this until the ray misses, is
absorbed, or passes the maximum bounce depth. A miss paints the sky
gradient. The renderer also splits samples across threads and prints
durations as `5d18h53m20s`.

This Dafny project models that core as pure functions over immutable
datatypes. Scalars are `real`. The square root, `Vec3::unit` and the random
samples are parameters of the model. The modules follow the source files:

- `Vectors` (vec3.rs): `Vec3`, the componentwise operators, the dot product
  and squared length. It also holds the `Math` record (`sqrt`, `unit`) and
  its laws, `Lawful`.
- `Rays` (ray.rs): `Ray` and `point_at`.
- `Materials` (material.rs): the material records, `Scatter`, `Metal::new`,
  `reflect`, `refract` and the rejection sampler `random_in_unit_sphere`.
- `Hitable` (hitable.rs): the hit record, the half-open query range and
  `Sphere::hit`.
- `Scattering` (material.rs): the three `scatter` implementations and the
  dispatch on the material. They sit in their own module because they need
  the hit record.
- `Scenes` (scene.rs): the scene, `new`, `add`, and the nearest-hit fold with
  a shrinking range. The model's scene holds spheres.
- `Render` (main.rs): `ray_color` and the `samples_per_thread` and
  `rays_to_trace` arithmetic of `render`.
- `Colors` (color.rs): `Color::from_ratio` and its `to8`.
- `Durations` (time.rs): `format_seconds` and `format_rough_duration`.
- `Options`: the `Option` type every "maybe" result uses.

The main results:

- The scene fold with its shrinking range equals an independent reference
  definition, `Best`. `Best` asks every sphere over the whole range and keeps
  the nearest answer, with the earliest sphere winning ties. That answer is
  also characterised without recursion: no sphere answers nearer, and every
  earlier sphere answers strictly farther.
- A sphere hit is the nearest root inside the range. With lawful `sqrt` and
  `unit`, it lies on the sphere and has a unit normal.
- `ray_color` draws no sample beyond `MAX_DEPTH`. In a scene with physical
  albedos, every channel of the colour it returns lies in [0, 1].
- `format_seconds` prints parts that parse back to the input. The parts add
  up to the number of seconds, each unit appears at most once and in order,
  no part is zero, and the counts after the leading unit are bounded. The
  function is injective, and the unit-test vectors hold.

## Model

| member | source | states |
|---|---|---|
| Vectors.Add | src/vec3.rs:23-32 | componentwise addition is undone by subtracting the same vector: `(a + b) - b == a` |
| Vectors.SquaredLength | src/vec3.rs:15-19 | the self dot product `x² + y² + z²` is non-negative and equals `Dot(v, v)` |
| Vectors.Mul | src/vec3.rs:34-43 | the channels of the componentwise product add up to the dot product, and dividing each channel back by a divisor without zero components gives `a`; its use as attenuation is bounded by `Render.AttenuatedInUnitCube` |
| Vectors.SquaredLengthPositive | src/vec3.rs:15-19 | the squared length is positive for every non-zero vector, and zero for the zero vector |
| Vectors.OnlyZeroHasNoLength | src/vec3.rs:15-19 | a vector whose squared length is not positive is the zero vector |
| Vectors.Div | src/vec3.rs:45-54 | componentwise division by a divisor without zero components is undone by the componentwise product: `(a / b) * b == a` |
| Vectors.AdditionTestVector | src/vec3.rs:60-78 | `(1,1,1) + (2,2,2) == (3,3,3)` |
| Vectors.CauchySchwarz | src/vec3.rs:15-19 | `(a·b)² <= |a|²|b|²`, which bounds the `dt` of `refract` |
| Vectors.UnitDot | src/material.rs:65-70 | for unit `u` and `n`, `1 - (u·n)²` lies in [0, 1] |
| Vectors.DivideToUnit | src/hitable.rs:52-53 | a vector of length `|k|` divided by `k` has unit length |
| Vectors.UnitComponents | src/main.rs:59-60 | every component of `unit(v)` lies in [-1, 1] for a non-zero `v` |
| Rays.PointAt | src/ray.rs:16-18 | the point at `t` lies `t` directions away from the origin |
| Rays.PointAtZero | src/ray.rs:34-36 | `point_at(0)` is the origin |
| Rays.PointAtShift | src/ray.rs:16-18 | travelling `s` and then `t` along the same direction is travelling `s + t` |
| Rays.PointAtTestVector | src/ray.rs:27-41 | origin (1,2,3), direction (0.1,0.2,0.3): `point_at(0)` is (1,2,3) and `point_at(4)` is (1.4,2.8,4.2) |
| Materials.MetalNew | src/material.rs:47-53 | the fuzz is kept when at most one, set to one above one, and never clamped from below |
| Materials.MetalNewIdempotent | src/material.rs:47-53 | clamping an already clamped fuzz changes nothing |
| Materials.Reflect | src/material.rs:56-58 | the reflection plus `2(v·n)n` gives back `v` |
| Materials.ReflectFlipsNormalComponent | src/material.rs:56-58 | for a unit normal, reflection negates the component along the normal |
| Materials.ReflectInvolution | src/material.rs:56-58 | for a unit normal, reflecting twice gives back the vector |
| Materials.ReflectPreservesLength | src/material.rs:56-58 | for a unit normal, reflection preserves the squared length |
| Materials.Refract | src/material.rs:60-80 | `None` exactly when `1 - r²(1 - dt²) <= 0`; otherwise the result plus `n·sqrt(disc)` is `r(uv - n·dt)` |
| Materials.RefractIntoDenser | src/material.rs:60-80 | with lawful `sqrt`/`unit`, a non-zero `v`, a unit normal and `0 < r < 1`, `refract` succeeds |
| Materials.RefractGrazingFromDenser | src/material.rs:60-80 | with `dt == 0` and `r > 1`, `refract` reports total internal reflection |
| Materials.Candidate | src/material.rs:21 | the candidate `2·draw - 1` maps back to its draw |
| Materials.RandomInUnitSphere | src/material.rs:18-27 | returns the first candidate inside the unit sphere, or none if the draws run out; the result has squared length below one; every earlier candidate was rejected |
| Hitable.NoDirectionNoDiscriminant | src/hitable.rs:36-44 | a ray with zero direction has a discriminant of at most zero, so it misses |
| Hitable.DiscriminantNeedsDirection | src/hitable.rs:36-44 | a positive discriminant implies `a > 0`, so the roots' division is defined |
| Hitable.ZeroRadiusMisses | src/hitable.rs:35-44 | a sphere of radius zero has a discriminant of at most zero, so it is never hit |
| Hitable.DiscriminantNeedsRadius | src/hitable.rs:42-53 | a positive discriminant implies a non-zero radius, so the normal's division by the radius is defined wherever it is reached |
| Hitable.HitAt | src/hitable.rs:46-58 | the `hit_t` closure answers exactly when `t` lies in the range, with that `t`, the point `point_at(t)`, a normal with `normal·radius == p - center`, and the sphere's material |
| Hitable.SphereHit | src/hitable.rs:30-71 | a discriminant `<= 0` misses; the lower root is returned whenever it is in range; the upper root only when the lower is not; the hit is in range, at `point_at(t)`, with `normal·radius == p - center`, and has the sphere's material |
| Hitable.RootsOrdered | src/hitable.rs:60-65 | with a lawful `sqrt`, the lower root does not exceed the upper root |
| Hitable.SphereHitIsNearest | src/hitable.rs:60-70 | the hit's `t` is at most every root inside the range |
| Hitable.SphereHitShrinks | src/hitable.rs:46-58 | querying up to a smaller end is the query up to the larger end, clipped to the smaller end |
| Hitable.PointDistance | src/ray.rs:16-18 | `|point_at(t) - c|² = |oc|² + 2t(oc·d) + t²|d|²` |
| Hitable.RootOnSphere | src/hitable.rs:35-40 | both roots of the quadratic are points at distance `radius` from the centre |
| Hitable.SphereHitOnSurface | src/hitable.rs:46-58 | a hit lies on the sphere and its normal has unit length |
| Scenes.NewScene | src/scene.rs:11-13 | a new scene has no things |
| Scenes.AddThing | src/scene.rs:15-20 | `add` appends one thing at the end and keeps the earlier things in order |
| Scenes.Fold | src/scene.rs:28-38 | the loop's result is either the initial one or a hit inside `start..closest` with the material of one of the things |
| Scenes.SceneHit | src/scene.rs:22-41 | an empty scene misses; a hit lies in the query range and carries the material of one of the scene's things |
| Scenes.Earlier | src/scene.rs:32-36 | the nearer of two hits, `None` only if both are; the second wins only if strictly nearer |
| Scenes.EarlierAssociates | src/scene.rs:31-38 | choosing the nearer hit is associative, so the fold may group its comparisons freely |
| Scenes.FoldIsBest | src/scene.rs:28-38 | the shrinking-range loop from any accepted hit computes the nearer of that hit and the reference answer |
| Scenes.SceneHitIsBest | src/scene.rs:22-41 | the scene hit equals the reference answer `Best`: every thing asked over the whole range, nearest wins, earliest on ties |
| Scenes.BestIsNearestEarliest | src/scene.rs:28-39 | the reference answer is `None` exactly when no thing is hit; otherwise it is some thing's hit, no hit is nearer, and every earlier thing's hit is strictly farther |
| Scenes.NearestIsNearestEarliest | src/scene.rs:28-39 | over any list of candidate hits, the nearest is absent exactly when all are; otherwise it is one of them, none is nearer, and every earlier one is strictly farther |
| Scenes.BestAppend | src/scene.rs:15-20 | the reference answer over an appended thing is the nearer of the old answer and the new thing's hit |
| Scenes.SceneHitAdd | src/scene.rs:15-41 | after `add`, the scene hit changes only if the new thing is hit strictly nearer |
| Scenes.SceneHitOnSurface | src/scene.rs:22-41 | a scene hit lies on the surface of one of its spheres and has a unit normal |
| Scattering.LambertianScatter | src/material.rs:29-40 | always scatters from the hit point in direction `normal + sample`, attenuated by the albedo |
| Scattering.LambertianScattersOutward | src/material.rs:18-40 | with a unit normal and a sample inside the unit sphere, the scattered direction points strictly away from the surface |
| Scattering.MetalScatter | src/material.rs:82-101 | absorbed exactly when the perturbed mirror direction points into the surface, so a tangent one still scatters; otherwise it scatters from the hit point with the albedo |
| Scattering.MetalWithoutFuzzMirrors | src/material.rs:82-101 | a metal without fuzz, hit against a unit normal, scatters in the exact mirror direction |
| Scattering.DielectricSide | src/material.rs:113-118 | `(-normal, index)` when `direction·normal > 0`, and `(normal, 1/index)` otherwise; so the chosen normal faces against the ray and the ratio is positive |
| Scattering.DielectricScatter | src/material.rs:108-135 | never absorbs; attenuation is `ONE`; it refracts whenever `refract` succeeds and reflects only otherwise |
| Scattering.DielectricEnteringRefracts | src/material.rs:108-135 | a ray entering glass with index above one through a unit normal is refracted, never reflected |
| Scattering.MaterialScatter | src/material.rs:10-12 | only metal absorbs; a scattered ray leaves from the hit point, with the albedo or, for a dielectric, `ONE` |
| Render.RayColor | src/main.rs:38-63 | a miss paints `linear(white, sky_blue, 0.5(unit(d).y + 1))`; a hit deeper than `MAX_DEPTH` or an absorbed ray paints black |
| Render.CallDepths | src/main.rs:36-53 | the nested calls run at depths `depth, depth + 1, …`, at most `MAX_DEPTH + 1 - depth + 1` of them, none deeper than `MAX_DEPTH + 1` |
| Render.RayColorUsesNoiseUpToMaxDepth | src/main.rs:36-56 | two sample streams that agree on the depths up to `MAX_DEPTH` give the same colour |
| Render.RayColorInUnitCube | src/main.rs:38-63 | with lawful `sqrt` and `unit`, physical albedos and a sky colour in the unit cube, every channel of the traced colour lies in [0, 1] |
| Render.SkyWeightInRange | src/main.rs:59-60 | with a lawful `unit`, the sky weight lies in [0, 1] |
| Render.SamplesPerThread | src/main.rs:141 | the thread count is truncated to 16 bits; zero panics (`None`); otherwise the floor quotient of samples by that count |
| Render.SamplesSplit | src/main.rs:141 | for fewer than 65536 threads, the threads trace at most `samples`, drop fewer than `threads`, and get none when `samples < threads` |
| Render.SamplesPerThreadWraps | src/main.rs:141 | 65537 threads truncate to one thread's share; 65536 divides by zero |
| Render.RaysToTrace | src/main.rs:135-137 | the product `width·height·samples`, or `None` when a `u64` multiplication overflows |
| Render.RaysToTraceFits | src/main.rs:135-137 | since `samples` is a `u16`, the count is the exact product whenever the image has fewer than 2^48 pixels |
| Render.RaysToTraceOverflows | src/main.rs:135-137 | a 2^32 by 2^32 image overflows in the first multiplication |
| Render.RaysToTraceDefaults | src/main.rs:71-83 | the defaults of 400 by 200 with 16 samples give 1280000 rays |
| Colors.To8 | src/color.rs:14-16 | `(i * 255.99) as u8`; its meaning is stated by `Colors.To8OnUnitInterval` (the floor of `i·255.99` on [0, 1]), `Colors.To8Endpoints` and `Colors.To8Monotone` |
| Colors.FromRatio | src/color.rs:18-22 | `to8` on each channel; its meaning is stated by `Colors.FromRatioChannelsIndependent` and `Colors.FromRatioTestVector` |
| Colors.TruncateTowardZero | src/color.rs:14-16 | `as` truncates toward zero: the result lies within one of `x`, on the side of zero |
| Colors.SaturateToByte | src/color.rs:14-16 | `as u8` keeps in-range values and saturates below 0 and above 255 |
| Colors.To8OnUnitInterval | src/color.rs:14-16 | on [0, 1], `to8` is the floor of `i·255.99` and never saturates |
| Colors.To8Endpoints | src/color.rs:14-16 | 0.0 maps to 0 and 1.0 maps to 255 |
| Colors.To8Monotone | src/color.rs:14-16 | a larger ratio never gives a smaller byte |
| Colors.FromRatioChannelsIndependent | src/color.rs:18-22 | each channel depends only on its own ratio |
| Colors.FromRatioTestVector | src/color.rs:30-39 | `from_ratio(0.4, 1.0, 0.0) == {102, 255, 0}` |
| Durations.UnitOf | src/time.rs:50-62 | a suffix read back names the unit that prints it |
| Durations.UnitOfSymbol | src/time.rs:50-62 | each unit's suffix reads back as that unit |
| Durations.TotalAppend | src/time.rs:47-63 | the seconds of concatenated parts add up |
| Durations.Parts | src/time.rs:47-63 | the parts `format_seconds` prints; their meaning is stated by `Durations.PartsDecompose` (they add up to the input, well formed and bounded) and `Durations.PartsEmpty` |
| Durations.PartsDecompose | src/time.rs:42-65 | the printed parts add back up to the input; units appear at most once, in the order d, h, m, s; no part is zero; hours ≤ 24, minutes ≤ 60 and seconds ≤ 60 |
| Durations.PartsEmpty | src/time.rs:47-64 | no part is printed exactly when the input is zero |
| Durations.Decimal | src/time.rs:50-62 | `{}` prints a non-empty run of decimal digits |
| Durations.DecimalRoundTrip | src/time.rs:50-62 | reading back the printed digits gives the number |
| Durations.DigitRun | src/time.rs:50-62 | the leading run of digits ends at the first non-digit |
| Durations.DigitRunStops | src/time.rs:50-62 | the digit run of printed digits followed by a suffix is exactly the printed digits |
| Durations.ParsePart | src/time.rs:50-62 | one printed part is read back in front of whatever follows it |
| Durations.ParseRender | src/time.rs:47-64 | the printed parts parse back to the same parts |
| Durations.FormatSeconds | src/time.rs:42-65 | `format_seconds`; its meaning is stated by `Durations.FormatSecondsDenotes` (the string parses back to the input), `Durations.FormatSecondsInjective` and the test-vector lemmas below |
| Durations.FormatSecondsDenotes | src/time.rs:42-65 | the string parses back to parts that add up to the input and are well formed; it is empty exactly for zero |
| Durations.FormatSecondsInjective | src/time.rs:42-65 | different numbers of seconds print different strings |
| Durations.FormatSecondsTestVectors | src/time.rs:71-75 | 3 → "3s", 65 → "1m5s", 178 → "2m58s" |
| Durations.FormatSecondsHours | src/time.rs:76 | 18234 → "5h3m54s" |
| Durations.FormatSecondsDays | src/time.rs:77-80 | 500000 → "5d18h53m20s" |
| Durations.FormatSecondsExactUnits | src/time.rs:49-60 | the strict guards print 60 as "60s", 3600 as "60m", 86400 as "24h" and 90000 as "1d60m" |
| Durations.FormatRoughDuration | src/time.rs:32-36 | the string parses back to parts that add up to the whole seconds of the duration |
| Durations.RoughDurationIgnoresFraction | src/time.rs:30-36 | durations that differ only below a second print the same |

## Left out

- Threads, `Arc`, `join` and the per-thread loop of `render`. This is concurrency; only the sample split is modelled.
- `main`, `Opt` parsing, `eprintln!`, the timing of the render, and `print_progress` / `format_remaining_secs`. These are I/O, clocks and float division.
- Scenes.SceneHitIsBest: the source's scene holds any `Hitable`, including nested scenes; the model's scene holds spheres only. The proof that the shrinking-range fold finds the nearest hit uses one law of the primitive, `Hitable.SphereHitShrinks`: a query up to a smaller end is the larger query clipped to that end. Any other primitive would need the same law.
- `render_image`, `Image` and `Image::average`/`write`: pixel accumulation and PPM file output.
- src/scenes.rs and src/camera.rs are not part of this model. The first builds a random demo scene; the second is trigonometry without decisions.
- `f32` arithmetic. Rounding, NaN and infinities are not modelled: scalars are `real`. The `Vec3::length` test vector (`9.69536`) is an `f32` rounding of a square root, so it is left out.
- `sqrt`, `Vec3::unit`, `Vec3::random` and `rand::random` are parameters. `Math` carries `sqrt` and `unit`, with the laws in `Lawful`. Every sample is passed in. `Lawful` says nothing about `unit` of the zero vector, since `f32` yields NaN there.
- Materials.RandomInUnitSphere: the source loops until a candidate is accepted. The model takes a finite stream of draws and answers `None` when the stream runs out.
- Render.RayColor: the sample each bounce uses is a function of the depth, `noise(depth)`. In the source each call draws fresh random numbers.
- Render.RayColorInUnitCube: the bound also assumes that `unit` of the zero vector has its `y` in [-1, 1]. A ray with zero direction can occur, for instance from a metal whose fuzz is below -1 (which `Metal::new` keeps), and in the source its sky weight is NaN.
- Render.RaysToTrace: overflow is modelled as the panic of a debug build (`None`). A release build would wrap modulo 2^64, which is not modelled.
- `Color::linear`, `white`, `black`, `sky_blue` and `attenuate` are not defined in src/color.rs, which has only the `u8` colour. They are modelled as operations on `Vec3`: interpolation, `One`, `Zero`, a `skyBlue` parameter, and the componentwise product.
- The vector `Sub`, `Neg` and scalar `*`/`/` operators, `squared_length`, and the two-argument `dot` are used by the callers but not defined in src/vec3.rs. That file defines a `dot` without argument and has a stray `}` at line 21. The model follows the callers.
- A dielectric's index is `Positive`, since the inverse index `1 / index` needs a non-zero divisor over the reals.
- The source has no Schlick reflectance term: the dielectric refracts whenever `refract` succeeds, and the model does the same.
- Colors.FromRatio: a non-finite ratio (NaN) is not modelled; `as u8` saturation is modelled for finite values only.
