/** The materials of `src/material.rs`: the material records, the `Scatter`
    outcome, the fuzz clamp of `Metal::new`, `reflect`, `refract` and the
    rejection sampler `random_in_unit_sphere`. The three `scatter`
    implementations need the hit record and live in module `Scattering`. */
module Materials {
  import opened Options
  import opened Vectors
  import opened Rays

  type Positive = r: real | 0.0 < r witness 1.0

  /** The three implementors of the `Material` trait. */
  datatype Material =
    | Lambertian(albedo: Vec3)
    | Metal(albedo: Vec3, fuzz: real)
    | Dielectric(reflectiveIndex: Positive)

  /** The outcome of a scatter: a new ray with its attenuation, or absorption. */
  datatype Scatter = Scattered(ray: Ray, attenuation: Vec3) | Stopped

  /** `Metal::new`: a fuzz above one is clamped to one; nothing clamps it from below. */
  function MetalNew(albedo: Vec3, fuzz: real): (m: Material)
    ensures m.Metal? && m.albedo == albedo
    ensures m.fuzz <= 1.0
    ensures fuzz <= 1.0 ==> m.fuzz == fuzz
    ensures 1.0 < fuzz ==> m.fuzz == 1.0
  {
    Metal(albedo, if fuzz > 1.0 then 1.0 else fuzz)
  }

  /** Clamping is idempotent: a metal built from a clamped fuzz is the same metal. */
  lemma MetalNewIdempotent(albedo: Vec3, fuzz: real)
    ensures MetalNew(albedo, MetalNew(albedo, fuzz).fuzz) == MetalNew(albedo, fuzz)
  {
  }

  /** `reflect(v, n)`: mirror `v` in the plane with normal `n`. */
  function Reflect(v: Vec3, n: Vec3): (r: Vec3)
    ensures Add(r, Scale(n, 2.0 * Dot(v, n))) == v
  {
    Sub(v, Scale(Scale(n, Dot(v, n)), 2.0))
  }

  lemma ReflectComponent(a: real, n: real, d: real, e: real)
    ensures Product(a - n * d * 2.0, e) == Product(a, e) - 2.0 * d * Product(n, e)
  {
  }

  lemma ReflectSquare(a: real, n: real, d: real)
    ensures Product(a - n * d * 2.0, a - n * d * 2.0)
         == Product(a, a) - 4.0 * d * Product(a, n) + 4.0 * d * d * Product(n, n)
  {
  }

  /** For a unit normal, reflection negates the component along the normal. */
  lemma ReflectFlipsNormalComponent(v: Vec3, n: Vec3)
    requires SquaredLength(n) == 1.0
    ensures Dot(Reflect(v, n), n) == -Dot(v, n)
  {
    var d := Dot(v, n);
    ReflectComponent(v.x, n.x, d, n.x);
    ReflectComponent(v.y, n.y, d, n.y);
    ReflectComponent(v.z, n.z, d, n.z);
  }

  /** For a unit normal, reflecting twice gives back the original vector. */
  lemma ReflectInvolution(v: Vec3, n: Vec3)
    requires SquaredLength(n) == 1.0
    ensures Reflect(Reflect(v, n), n) == v
  {
    ReflectFlipsNormalComponent(v, n);
  }

  lemma ReflectSquareSum(a1: real, a2: real, a3: real, b1: real, b2: real, b3: real,
                         c1: real, c2: real, c3: real, d: real)
    requires b1 + b2 + b3 == d
    requires c1 + c2 + c3 == 1.0
    ensures (a1 - 4.0 * d * b1 + 4.0 * d * d * c1)
          + (a2 - 4.0 * d * b2 + 4.0 * d * d * c2)
          + (a3 - 4.0 * d * b3 + 4.0 * d * d * c3) == a1 + a2 + a3
  {
    assert d * b1 + d * b2 + d * b3 == d * d;
    assert d * d * c1 + d * d * c2 + d * d * c3 == d * d;
  }

  /** For a unit normal, reflection preserves length. */
  lemma ReflectPreservesLength(v: Vec3, n: Vec3)
    requires SquaredLength(n) == 1.0
    ensures SquaredLength(Reflect(v, n)) == SquaredLength(v)
  {
    var d := Dot(v, n);
    ReflectSquare(v.x, n.x, d);
    ReflectSquare(v.y, n.y, d);
    ReflectSquare(v.z, n.z, d);
    ReflectSquareSum(Product(v.x, v.x), Product(v.y, v.y), Product(v.z, v.z),
                     Product(v.x, n.x), Product(v.y, n.y), Product(v.z, n.z),
                     Product(n.x, n.x), Product(n.y, n.y), Product(n.z, n.z), d);
  }

  /** The discriminant `1 - r²(1 - dt²)` of `refract`, with `dt = unit(v)·n`. */
  function RefractDiscriminant(m: Math, v: Vec3, n: Vec3, niOverNt: real): real {
    var dt := Dot(m.unit(v), n);
    1.0 - Product(Product(niOverNt, niOverNt), 1.0 - Product(dt, dt))
  }

  /** `refract(v, n, ni_over_nt)`: the refracted direction, or `None` on total
      internal reflection. */
  function Refract(m: Math, v: Vec3, n: Vec3, niOverNt: real): (r: Option<Vec3>)
    ensures r.None? <==> RefractDiscriminant(m, v, n, niOverNt) <= 0.0
    ensures r.Some? ==>
      var dt := Dot(m.unit(v), n);
      Add(r.value, Scale(n, m.sqrt(RefractDiscriminant(m, v, n, niOverNt))))
        == Scale(Sub(m.unit(v), Scale(n, dt)), niOverNt)
  {
    var uv := m.unit(v);
    var dt := Dot(uv, n);
    var discriminant := RefractDiscriminant(m, v, n, niOverNt);
    if discriminant > 0.0 then
      Some(Sub(Scale(Sub(uv, Scale(n, dt)), niOverNt), Scale(n, m.sqrt(discriminant))))
    else
      None
  }

  /** Passing into an optically denser medium (`0 < ni/nt < 1`) through a unit
      normal never reflects totally: `refract` always succeeds. */
  lemma RefractIntoDenser(m: Math, v: Vec3, n: Vec3, niOverNt: real)
    requires Lawful(m)
    requires v != Zero && SquaredLength(n) == 1.0
    requires 0.0 < niOverNt < 1.0
    ensures Refract(m, v, n, niOverNt).Some?
  {
    var dt := Dot(m.unit(v), n);
    UnitDot(m.unit(v), n);
    SquarePositive(niOverNt);
    ProductPositive(niOverNt, 1.0 - niOverNt);
    assert Product(niOverNt, niOverNt) < 1.0 by {
      assert Product(niOverNt, 1.0 - niOverNt) == niOverNt - Product(niOverNt, niOverNt);
    }
    ProductBelowOne(Product(niOverNt, niOverNt), 1.0 - Product(dt, dt));
  }

  /** Leaving into an optically thinner medium (`ni/nt > 1`) at a grazing angle
      (`unit(v)·n == 0`) reflects totally: `refract` fails. */
  lemma RefractGrazingFromDenser(m: Math, v: Vec3, n: Vec3, niOverNt: real)
    requires Dot(m.unit(v), n) == 0.0
    requires 1.0 < niOverNt
    ensures Refract(m, v, n, niOverNt).None?
  {
    ProductZero(0.0);
    ProductPositive(niOverNt - 1.0, niOverNt + 1.0);
    assert Product(niOverNt - 1.0, niOverNt + 1.0) == Product(niOverNt, niOverNt) - 1.0;
    assert Product(Product(niOverNt, niOverNt), 1.0) == Product(niOverNt, niOverNt);
  }

  /** A draw of `Vec3::random()` (components in [0, 1)) mapped to the cube [-1, 1)³. */
  function Candidate(draw: Vec3): (p: Vec3)
    ensures Scale(Add(p, One), 0.5) == draw
  {
    Sub(Scale(draw, 2.0), One)
  }

  /** The acceptance test of `random_in_unit_sphere`. */
  predicate InUnitSphere(p: Vec3) {
    SquaredLength(p) < 1.0
  }

  /** The reference definition of the rejection sampler: the first accepted
      candidate of the draws, if any. */
  function FirstInside(draws: seq<Vec3>): Option<Vec3> {
    if |draws| == 0 then None
    else if InUnitSphere(Candidate(draws[0])) then Some(Candidate(draws[0]))
    else FirstInside(draws[1..])
  }

  /** `random_in_unit_sphere`, given the stream of draws of `Vec3::random()`.
      The source loops until a candidate is accepted; the model takes a finite
      stream and answers `None` if it runs out. `used` is the number of draws
      consumed. */
  method RandomInUnitSphere(draws: seq<Vec3>) returns (p: Option<Vec3>, used: nat)
    ensures p == FirstInside(draws)
    ensures used <= |draws|
    ensures p.Some? ==> 0 < used && p.value == Candidate(draws[used - 1]) && InUnitSphere(p.value)
    ensures p.None? ==> used == |draws|
    ensures forall j :: 0 <= j < |draws| && j < (if p.Some? then used - 1 else used) ==>
      !InUnitSphere(Candidate(draws[j]))
  {
    used := 0;
    while used < |draws|
      invariant used <= |draws|
      invariant FirstInside(draws) == FirstInside(draws[used..])
      invariant forall j :: 0 <= j < used ==> !InUnitSphere(Candidate(draws[j]))
    {
      var candidate := Candidate(draws[used]);
      assert draws[used..][1..] == draws[used + 1..];
      used := used + 1;
      if InUnitSphere(candidate) {
        return Some(candidate), used;
      }
    }
    return None, used;
  }
}
