/** The bounce recursion `ray_color` and the work-split arithmetic of
    `render` in `src/main.rs`. */
module Render {
  import opened Options
  import opened Vectors
  import opened Rays
  import opened Materials
  import opened Hitable
  import opened Scenes
  import opened Scattering

  /** `MAX_DEPTH` */
  const MaxDepth: int := 50

  /** The scene is queried over `0.001..F::INFINITY`, so a scattered ray does
      not hit the surface it leaves. */
  const QueryRange := Interval(0.001, Infinity)

  /** `Color::linear(a, b, t)`: linear interpolation from `a` at 0 to `b` at 1. */
  function Linear(a: Vec3, b: Vec3, t: real): Vec3 {
    Add(Scale(a, 1.0 - t), Scale(b, t))
  }

  /** The sky gradient weight `0.5 * (unit(direction).y + 1)`. */
  function SkyWeight(m: Math, ray: Ray): real {
    0.5 * (m.unit(ray.direction).y + 1.0)
  }

  /** The recursion measure of `ray_color`. */
  function Fuel(depth: int): nat {
    if depth > MaxDepth then 0 else MaxDepth + 1 - depth
  }

  /** `ray_color(ray, scene, depth)`. `noise(d)` is the sample that
      `random_in_unit_sphere` yields at bounce depth `d`; `white` is
      `Color::white()` = `One` and black is `Zero`; `skyBlue` is the
      `Color::sky_blue()` constant. A miss paints the sky; a hit beyond
      `MaxDepth` or an absorbed ray paints black; otherwise the colour of the
      scattered ray one level deeper, attenuated. */
  function RayColor(m: Math, scene: Scene, ray: Ray, depth: int, noise: int -> Vec3, skyBlue: Vec3): (c: Vec3)
    ensures SceneHit(m, scene, ray, QueryRange).None? ==> c == Linear(One, skyBlue, SkyWeight(m, ray))
    ensures SceneHit(m, scene, ray, QueryRange).Some? && MaxDepth < depth ==> c == Zero
    ensures var hit := SceneHit(m, scene, ray, QueryRange);
      (hit.Some? && depth <= MaxDepth && MaterialScatter(m, hit.value.material, ray, hit.value, noise(depth)).Stopped?)
      ==> c == Zero
    decreases Fuel(depth)
  {
    match SceneHit(m, scene, ray, QueryRange)
    case None => Linear(One, skyBlue, SkyWeight(m, ray))
    case Some(hit) =>
      if depth > MaxDepth then
        Zero
      else
        match MaterialScatter(m, hit.material, ray, hit, noise(depth))
        case Scattered(scattered, attenuation) =>
          Mul(RayColor(m, scene, scattered, depth + 1, noise, skyBlue), attenuation)
        case Stopped => Zero
  }

  /** The depths of the nested `ray_color` calls that one call makes,
      itself first. */
  function CallDepths(m: Math, scene: Scene, ray: Ray, depth: int, noise: int -> Vec3): (r: seq<int>)
    ensures 0 < |r| <= Fuel(depth) + 1
    ensures forall i :: 0 <= i < |r| ==> r[i] == depth + i
    ensures depth <= MaxDepth + 1 ==> forall i :: 0 <= i < |r| ==> r[i] <= MaxDepth + 1
    decreases Fuel(depth)
  {
    match SceneHit(m, scene, ray, QueryRange)
    case None => [depth]
    case Some(hit) =>
      if depth > MaxDepth then
        [depth]
      else
        match MaterialScatter(m, hit.material, ray, hit, noise(depth))
        case Scattered(scattered, _) => [depth] + CallDepths(m, scene, scattered, depth + 1, noise)
        case Stopped => [depth]
  }

  /** Two noise streams that agree on the depths `depth..MaxDepth` give the
      same colour: no sample beyond `MaxDepth` is ever drawn. */
  lemma {:induction false} RayColorUsesNoiseUpToMaxDepth(m: Math, scene: Scene, ray: Ray, depth: int,
                                                         noise: int -> Vec3, noise': int -> Vec3, skyBlue: Vec3)
    requires forall d :: depth <= d <= MaxDepth ==> noise(d) == noise'(d)
    ensures RayColor(m, scene, ray, depth, noise, skyBlue) == RayColor(m, scene, ray, depth, noise', skyBlue)
    decreases Fuel(depth)
  {
    match SceneHit(m, scene, ray, QueryRange)
    case None =>
    case Some(hit) =>
      if depth <= MaxDepth {
        match MaterialScatter(m, hit.material, ray, hit, noise(depth))
        case Scattered(scattered, _) =>
          RayColorUsesNoiseUpToMaxDepth(m, scene, scattered, depth + 1, noise, noise', skyBlue);
        case Stopped =>
      }
  }

  predicate InUnitCube(v: Vec3) {
    0.0 <= v.x <= 1.0 && 0.0 <= v.y <= 1.0 && 0.0 <= v.z <= 1.0
  }

  /** The reflectance a material can attenuate with lies in the unit cube. */
  predicate Physical(material: Material) {
    !material.Dielectric? ==> InUnitCube(material.albedo)
  }

  lemma ChannelProduct(a: real, b: real)
    requires 0.0 <= a <= 1.0 && 0.0 <= b <= 1.0
    ensures 0.0 <= Product(a, b) <= 1.0
  {
    ProductNonNegative(a, b);
    ProductNonNegative(a, 1.0 - b);
    assert Product(a, b) == a - Product(a, 1.0 - b);
  }

  lemma ChannelBlend(a: real, b: real, t: real)
    requires 0.0 <= a <= 1.0 && 0.0 <= b <= 1.0 && 0.0 <= t <= 1.0
    ensures 0.0 <= a * (1.0 - t) + b * t <= 1.0
  {
    ChannelProduct(a, 1.0 - t);
    ChannelProduct(b, t);
    ChannelProduct(1.0 - a, 1.0 - t);
    ChannelProduct(1.0 - b, t);
    assert Product(a, 1.0 - t) + Product(b, t) == a * (1.0 - t) + b * t;
  }

  lemma SkyInUnitCube(skyBlue: Vec3, t: real)
    requires InUnitCube(skyBlue) && 0.0 <= t <= 1.0
    ensures InUnitCube(Linear(One, skyBlue, t))
  {
    assert Linear(One, skyBlue, t)
        == Vec3(1.0 * (1.0 - t) + skyBlue.x * t, 1.0 * (1.0 - t) + skyBlue.y * t, 1.0 * (1.0 - t) + skyBlue.z * t);
    ChannelBlend(1.0, skyBlue.x, t);
    ChannelBlend(1.0, skyBlue.y, t);
    ChannelBlend(1.0, skyBlue.z, t);
  }

  lemma AttenuatedInUnitCube(c: Vec3, attenuation: Vec3)
    requires InUnitCube(c) && InUnitCube(attenuation)
    ensures InUnitCube(Mul(c, attenuation))
  {
    ChannelProduct(c.x, attenuation.x);
    ChannelProduct(c.y, attenuation.y);
    ChannelProduct(c.z, attenuation.z);
  }

  /** The energy bound, for any `unit` whose `y` component stays in [-1, 1]. */
  lemma {:induction false} InUnitCubeUnderBoundedSky(m: Math, scene: Scene, ray: Ray, depth: int,
                                                     noise: int -> Vec3, skyBlue: Vec3)
    requires forall v :: -1.0 <= m.unit(v).y <= 1.0
    requires InUnitCube(skyBlue)
    requires forall i :: 0 <= i < |scene.things| ==> Physical(scene.things[i].material)
    ensures InUnitCube(RayColor(m, scene, ray, depth, noise, skyBlue))
    decreases Fuel(depth)
  {
    match SceneHit(m, scene, ray, QueryRange)
    case None =>
      SkyInUnitCube(skyBlue, SkyWeight(m, ray));
    case Some(hit) =>
      if depth <= MaxDepth {
        match MaterialScatter(m, hit.material, ray, hit, noise(depth))
        case Scattered(scattered, attenuation) =>
          InUnitCubeUnderBoundedSky(m, scene, scattered, depth + 1, noise, skyBlue);
          var c := RayColor(m, scene, scattered, depth + 1, noise, skyBlue);
          assert RayColor(m, scene, ray, depth, noise, skyBlue) == Mul(c, attenuation);
          assert InUnitCube(attenuation);
          AttenuatedInUnitCube(c, attenuation);
        case Stopped =>
      }
  }

  /** Energy is never created: with a physical scene and a sky colour in the
      unit cube, every channel of the traced colour lies in [0, 1]. The zero
      direction has no unit vector (`f32` gives NaN), so the bound assumes
      that whatever `unit` gives there has its `y` in [-1, 1]. */
  lemma RayColorInUnitCube(m: Math, scene: Scene, ray: Ray, depth: int, noise: int -> Vec3, skyBlue: Vec3)
    requires Lawful(m)
    requires -1.0 <= m.unit(Zero).y <= 1.0
    requires InUnitCube(skyBlue)
    requires forall i :: 0 <= i < |scene.things| ==> Physical(scene.things[i].material)
    ensures InUnitCube(RayColor(m, scene, ray, depth, noise, skyBlue))
  {
    forall v
      ensures -1.0 <= m.unit(v).y <= 1.0
    {
      if v != Zero {
        UnitComponents(m, v);
      }
    }
    InUnitCubeUnderBoundedSky(m, scene, ray, depth, noise, skyBlue);
  }

  /** With a lawful `unit`, the sky weight lies in [0, 1] for every ray with a direction. */
  lemma SkyWeightInRange(m: Math, ray: Ray)
    requires Lawful(m)
    requires ray.direction != Zero
    ensures 0.0 <= SkyWeight(m, ray) <= 1.0
  {
    UnitComponents(m, ray.direction);
  }

  /** `u16` */
  type U16 = n: nat | n < 0x1_0000

  const U64Max: nat := 0xFFFF_FFFF_FFFF_FFFF

  /** `samples / (threads as u16)`: the thread count is truncated to 16 bits,
      and a truncated count of zero divides by zero (a panic, `None` here). */
  function SamplesPerThread(samples: U16, threads: nat): (r: Option<nat>)
    ensures r.None? <==> threads % 0x1_0000 == 0
    ensures r.Some? ==>
      && r.value * (threads % 0x1_0000) <= samples
      && samples < (r.value + 1) * (threads % 0x1_0000)
  {
    var divisor := threads % 0x1_0000;
    if divisor == 0 then None else Some(samples / divisor)
  }

  /** For a thread count that fits in 16 bits, the threads together trace at
      most `samples` samples per pixel and drop fewer than `threads`; with more
      threads than samples each thread gets none. */
  lemma SamplesSplit(samples: U16, threads: nat)
    requires 0 < threads < 0x1_0000
    ensures SamplesPerThread(samples, threads).Some?
    ensures threads * SamplesPerThread(samples, threads).value <= samples
    ensures samples - threads * SamplesPerThread(samples, threads).value < threads
    ensures samples < threads ==> SamplesPerThread(samples, threads).value == 0
  {
  }

  /** 65537 threads truncate to one: every thread is given all the samples. */
  lemma SamplesPerThreadWraps()
    ensures SamplesPerThread(16, 65537) == Some(16)
    ensures SamplesPerThread(16, 65536) == None
  {
  }

  /** The exact product of two counts, before any overflow check. */
  function Times(a: nat, b: nat): nat {
    a * b
  }

  /** `(width as u64) * (height as u64) * (samples as u64)`, checked: an
      overflow of either multiplication panics (`None`). */
  function RaysToTrace(width: nat, height: nat, samples: U16): (r: Option<nat>)
    requires width <= U64Max && height <= U64Max
    ensures r.Some? <==> Times(width, height) <= U64Max && Times(Times(width, height), samples) <= U64Max
    ensures r.Some? ==> r.value == Times(Times(width, height), samples)
  {
    var pixels := Times(width, height);
    if pixels > U64Max then None
    else
      var rays := Times(pixels, samples);
      if rays > U64Max then None else Some(rays)
  }

  lemma TimesMonotone(a: nat, b: nat, a': nat, b': nat)
    requires a <= a' && b <= b'
    ensures Times(a, b) <= Times(a', b')
  {
    assert Times(a, b) <= Times(a', b) by {
      assert Times(a', b) - Times(a, b) == Times(a' - a, b);
    }
    assert Times(a', b) <= Times(a', b') by {
      assert Times(a', b') - Times(a', b) == Times(a', b' - b);
    }
  }

  /** Since `samples` is a `u16`, the count never overflows while the image
      has fewer than 2^48 pixels. */
  lemma RaysToTraceFits(width: nat, height: nat, samples: U16)
    requires width <= U64Max && height <= U64Max
    requires Times(width, height) < 0x1_0000_0000_0000
    ensures RaysToTrace(width, height, samples) == Some(Times(Times(width, height), samples))
  {
    TimesMonotone(Times(width, height), samples, 0xFFFF_FFFF_FFFF, 0xFFFF);
  }

  /** A square image of 2^32 by 2^32 pixels overflows before the samples are
      counted. */
  lemma RaysToTraceOverflows()
    ensures RaysToTrace(0x1_0000_0000, 0x1_0000_0000, 1) == None
  {
    assert Times(0x1_0000_0000, 0x1_0000_0000) == 0x1_0000_0000_0000_0000;
  }

  /** The command-line defaults, 400 by 200 pixels with 16 samples. */
  lemma RaysToTraceDefaults()
    ensures RaysToTrace(400, 200, 16) == Some(1280000)
  {
  }
}
