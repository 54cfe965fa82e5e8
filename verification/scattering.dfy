/** The `scatter` implementations of `src/material.rs` for the three
    materials, and the dispatch through the `Material` trait. The random
    sample of `random_in_unit_sphere` is a parameter. */
module Scattering {
  import opened Options
  import opened Vectors
  import opened Rays
  import opened Materials
  import opened Hitable

  /** `Lambertian::scatter`: always scatters from the hit point towards
      `p + normal + sample`, attenuated by the albedo. */
  function LambertianScatter(albedo: Vec3, hit: Hit, sample: Vec3): (r: Scatter)
    ensures r.Scattered?
    ensures r.attenuation == albedo
    ensures r.ray.origin == hit.p
    ensures r.ray.direction == Add(hit.normal, sample)
  {
    var target := Add(Add(hit.p, hit.normal), sample);
    Scattered(Ray(hit.p, Sub(target, hit.p)), albedo)
  }

  /** With a unit normal and a sample drawn inside the unit sphere, a
      Lambertian surface scatters strictly away from the surface. */
  lemma LambertianScattersOutward(albedo: Vec3, hit: Hit, sample: Vec3)
    requires SquaredLength(hit.normal) == 1.0
    requires SquaredLength(sample) < 1.0
    ensures 0.0 < Dot(LambertianScatter(albedo, hit, sample).ray.direction, hit.normal)
  {
    DotAdd(hit.normal, sample, hit.normal);
    CauchySchwarz(sample, hit.normal);
    assert Product(SquaredLength(sample), 1.0) == SquaredLength(sample);
    SquareBelowOne(Dot(sample, hit.normal));
  }

  /** The direction a metal scatters to: the mirror direction of the unit
      incoming direction, perturbed by the sample scaled by the fuzz. */
  function MetalDirection(m: Math, fuzz: real, ray: Ray, hit: Hit, sample: Vec3): Vec3 {
    Add(Reflect(m.unit(ray.direction), hit.normal), Scale(sample, fuzz))
  }

  /** `Metal::scatter`: absorbed exactly when the scattered direction points
      into the surface; a tangent direction still scatters. */
  function MetalScatter(m: Math, albedo: Vec3, fuzz: real, ray: Ray, hit: Hit, sample: Vec3): (r: Scatter)
    ensures r.Stopped? <==> Dot(MetalDirection(m, fuzz, ray, hit, sample), hit.normal) < 0.0
    ensures r.Scattered? ==>
      && r.attenuation == albedo
      && r.ray == Ray(hit.p, MetalDirection(m, fuzz, ray, hit, sample))
      && 0.0 <= Dot(r.ray.direction, hit.normal)
  {
    var reflected := Reflect(m.unit(ray.direction), hit.normal);
    var scattered := Ray(hit.p, Add(reflected, Scale(sample, fuzz)));
    if Dot(scattered.direction, hit.normal) < 0.0 then
      Stopped
    else
      Scattered(scattered, albedo)
  }

  /** A metal without fuzz is a mirror: a ray arriving against a unit normal
      leaves in the mirror direction. */
  lemma MetalWithoutFuzzMirrors(m: Math, albedo: Vec3, ray: Ray, hit: Hit, sample: Vec3)
    requires SquaredLength(hit.normal) == 1.0
    requires Dot(m.unit(ray.direction), hit.normal) <= 0.0
    ensures MetalScatter(m, albedo, 0.0, ray, hit, sample)
         == Scattered(Ray(hit.p, Reflect(m.unit(ray.direction), hit.normal)), albedo)
  {
    ReflectFlipsNormalComponent(m.unit(ray.direction), hit.normal);
    assert Scale(sample, 0.0) == Zero;
    assert MetalDirection(m, 0.0, ray, hit, sample) == Reflect(m.unit(ray.direction), hit.normal);
  }

  lemma DotNeg(a: Vec3, b: Vec3)
    ensures Dot(a, Neg(b)) == -Dot(a, b)
  {
    assert Product(a.x, -b.x) == -Product(a.x, b.x);
    assert Product(a.y, -b.y) == -Product(a.y, b.y);
    assert Product(a.z, -b.z) == -Product(a.z, b.z);
  }

  /** The normal and index ratio a dielectric refracts with: against the
      surface normal and the index when the ray leaves the object, the normal
      itself and the inverse index when it enters. */
  function DielectricSide(index: Positive, ray: Ray, hit: Hit): (side: (Vec3, real))
    ensures Dot(ray.direction, hit.normal) > 0.0 ==> side == (Neg(hit.normal), index as real)
    ensures Dot(ray.direction, hit.normal) <= 0.0 ==> side == (hit.normal, 1.0 / index)
    ensures Dot(ray.direction, side.0) <= 0.0
    ensures 0.0 < side.1
    ensures side.0 == hit.normal || side.0 == Neg(hit.normal)
    ensures side.1 == index || side.1 * index == 1.0
  {
    if Dot(ray.direction, hit.normal) > 0.0 then
      DotNeg(ray.direction, hit.normal);
      (Neg(hit.normal), index as real)
    else
      (hit.normal, 1.0 / index)
  }

  /** `Dialectric::scatter`: never absorbs and never attenuates; refracts when
      `refract` succeeds and reflects the incoming direction otherwise. */
  function DielectricScatter(m: Math, index: Positive, ray: Ray, hit: Hit): (r: Scatter)
    ensures r.Scattered?
    ensures r.attenuation == One
    ensures r.ray.origin == hit.p
    ensures var side := DielectricSide(index, ray, hit);
      var refracted := Refract(m, ray.direction, side.0, side.1);
      && (refracted.Some? ==> r.ray.direction == refracted.value)
      && (refracted.None? ==> r.ray.direction == Reflect(ray.direction, hit.normal))
  {
    var reflected := Reflect(ray.direction, hit.normal);
    var attenuation := One;
    var (outwardNormal, niOverNt) := DielectricSide(index, ray, hit);
    match Refract(m, ray.direction, outwardNormal, niOverNt)
    case Some(refracted) => Scattered(Ray(hit.p, refracted), attenuation)
    case None => Scattered(Ray(hit.p, reflected), attenuation)
  }

  /** A ray entering glass (index above one) through a unit normal is always
      refracted, never reflected. */
  lemma DielectricEnteringRefracts(m: Math, index: Positive, ray: Ray, hit: Hit)
    requires Lawful(m)
    requires 1.0 < index
    requires ray.direction != Zero && SquaredLength(hit.normal) == 1.0
    requires Dot(ray.direction, hit.normal) <= 0.0
    ensures Refract(m, ray.direction, hit.normal, 1.0 / index).Some?
    ensures DielectricScatter(m, index, ray, hit).ray.direction
         == Refract(m, ray.direction, hit.normal, 1.0 / index).value
  {
    RefractIntoDenser(m, ray.direction, hit.normal, 1.0 / index);
  }

  /** `hit.material.scatter(ray, &hit)`: dispatch on the material. */
  function MaterialScatter(m: Math, material: Material, ray: Ray, hit: Hit, sample: Vec3): (r: Scatter)
    ensures !material.Metal? ==> r.Scattered?
    ensures r.Scattered? ==> r.ray.origin == hit.p
    ensures r.Scattered? && material.Dielectric? ==> r.attenuation == One
    ensures r.Scattered? && !material.Dielectric? ==> r.attenuation == material.albedo
  {
    match material
    case Lambertian(albedo) => LambertianScatter(albedo, hit, sample)
    case Metal(albedo, fuzz) => MetalScatter(m, albedo, fuzz, ray, hit, sample)
    case Dielectric(index) => DielectricScatter(m, index, ray, hit)
  }
}
