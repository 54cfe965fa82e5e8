/** Ray-sphere intersection, `src/hitable.rs`: the hit record, the half-open
    parameter range of a query and `Sphere::hit`. */
module Hitable {
  import opened Options
  import opened Vectors
  import opened Rays
  import opened Materials

  /** The end of a `Range<f32>`; the renderer queries up to `F::INFINITY`. */
  datatype Bound = Finite(value: real) | Infinity

  /** `t < b` */
  predicate Below(t: real, b: Bound) {
    b.Infinity? || t < b.value
  }

  /** `a <= b` on bounds */
  predicate AtMost(a: Bound, b: Bound) {
    b.Infinity? || (a.Finite? && a.value <= b.value)
  }

  /** The half-open range `start..end` of ray parameters. */
  datatype Interval = Interval(start: real, end: Bound) {
    /** `Range::contains`: `start <= t < end` */
    predicate Contains(t: real) {
      start <= t && Below(t, end)
    }
  }

  datatype Hit = Hit(t: real, p: Vec3, normal: Vec3, material: Material)

  /** Keep a hit only if it lies below `end`. */
  function Clip(h: Option<Hit>, end: Bound): (r: Option<Hit>)
    ensures r.Some? <==> h.Some? && Below(h.value.t, end)
    ensures r.Some? ==> r == h
  {
    if h.Some? && Below(h.value.t, end) then h else None
  }

  datatype Sphere = Sphere(center: Vec3, radius: real, material: Material)

  /** The coefficients of the intersection quadratic `a t² + 2 b t + c = 0`. */
  function QuadA(ray: Ray): real {
    SquaredLength(ray.direction)
  }

  function QuadB(s: Sphere, ray: Ray): real {
    Dot(Sub(ray.origin, s.center), ray.direction)
  }

  function QuadC(s: Sphere, ray: Ray): real {
    SquaredLength(Sub(ray.origin, s.center)) - Product(s.radius, s.radius)
  }

  /** `b*b - a*c` */
  function Discriminant(s: Sphere, ray: Ray): real {
    Product(QuadB(s, ray), QuadB(s, ray)) - Product(QuadA(ray), QuadC(s, ray))
  }

  /** A ray without direction has no positive discriminant. */
  lemma NoDirectionNoDiscriminant(s: Sphere, ray: Ray)
    requires QuadA(ray) <= 0.0
    ensures Discriminant(s, ray) <= 0.0
  {
    OnlyZeroHasNoLength(ray.direction);
    DotZero(Sub(ray.origin, s.center));
    ProductZero(0.0);
    ProductZero(QuadC(s, ray));
  }

  /** A positive discriminant implies a proper quadratic: `a > 0`. */
  lemma DiscriminantNeedsDirection(s: Sphere, ray: Ray)
    ensures 0.0 < Discriminant(s, ray) ==> 0.0 < QuadA(ray)
  {
    if QuadA(ray) <= 0.0 {
      NoDirectionNoDiscriminant(s, ray);
    }
  }

  /** A sphere of radius zero is never hit: its discriminant is
      `(oc·d)² - |d|²|oc|²`, which Cauchy-Schwarz makes at most zero. */
  lemma ZeroRadiusMisses(s: Sphere, ray: Ray)
    requires s.radius == 0.0
    ensures Discriminant(s, ray) <= 0.0
  {
    ProductZero(0.0);
    CauchySchwarz(Sub(ray.origin, s.center), ray.direction);
  }

  /** A positive discriminant implies a non-zero radius, so the normal's
      division by the radius is defined wherever it is reached. */
  lemma DiscriminantNeedsRadius(s: Sphere, ray: Ray)
    ensures 0.0 < Discriminant(s, ray) ==> s.radius != 0.0
  {
    if s.radius == 0.0 {
      ZeroRadiusMisses(s, ray);
    }
  }

  /** `(-b - sqrt(d)) / a` */
  function LowerRoot(m: Math, s: Sphere, ray: Ray): real
    requires 0.0 < Discriminant(s, ray)
  {
    DiscriminantNeedsDirection(s, ray);
    (-QuadB(s, ray) - m.sqrt(Discriminant(s, ray))) / QuadA(ray)
  }

  /** `(-b + sqrt(d)) / a` */
  function UpperRoot(m: Math, s: Sphere, ray: Ray): real
    requires 0.0 < Discriminant(s, ray)
  {
    DiscriminantNeedsDirection(s, ray);
    (-QuadB(s, ray) + m.sqrt(Discriminant(s, ray))) / QuadA(ray)
  }

  /** The `hit_t` closure: a hit at `t` when `t` lies in the range. */
  function HitAt(s: Sphere, ray: Ray, within: Interval, t: real): (r: Option<Hit>)
    requires 0.0 < Discriminant(s, ray)
    ensures r.Some? <==> within.Contains(t)
    ensures r.Some? ==>
      && r.value.t == t
      && r.value.p == PointAt(ray, t)
      && Scale(r.value.normal, s.radius) == Sub(r.value.p, s.center)
      && r.value.material == s.material
  {
    DiscriminantNeedsRadius(s, ray);
    ScaleUndoesDivScalar(Sub(PointAt(ray, t), s.center), s.radius);
    if within.Contains(t) then
      var p := PointAt(ray, t);
      Some(Hit(t, p, DivScalar(Sub(p, s.center), s.radius), s.material))
    else
      None
  }

  /** `Sphere::hit`: the lower root if it lies in the range, else the upper
      root if it does, else no hit. */
  function SphereHit(m: Math, s: Sphere, ray: Ray, within: Interval): (r: Option<Hit>)
    ensures Discriminant(s, ray) <= 0.0 ==> r.None?
    ensures 0.0 < Discriminant(s, ray) ==>
      (r.Some? <==> within.Contains(LowerRoot(m, s, ray)) || within.Contains(UpperRoot(m, s, ray)))
    ensures 0.0 < Discriminant(s, ray) && within.Contains(LowerRoot(m, s, ray)) ==>
      r.Some? && r.value.t == LowerRoot(m, s, ray)
    ensures 0.0 < Discriminant(s, ray) && !within.Contains(LowerRoot(m, s, ray)) && r.Some? ==>
      r.value.t == UpperRoot(m, s, ray)
    ensures r.Some? ==>
      && within.Contains(r.value.t)
      && r.value.p == PointAt(ray, r.value.t)
      && Scale(r.value.normal, s.radius) == Sub(r.value.p, s.center)
      && r.value.material == s.material
  {
    if Discriminant(s, ray) <= 0.0 then
      None
    else
      var lower := HitAt(s, ray, within, LowerRoot(m, s, ray));
      if lower.Some? then lower else HitAt(s, ray, within, UpperRoot(m, s, ray))
  }

  lemma DivMonotone(p: real, q: real, a: real)
    requires p <= q && 0.0 < a
    ensures p / a <= q / a
  {
  }

  /** With a lawful square root the lower root does not exceed the upper root. */
  lemma RootsOrdered(m: Math, s: Sphere, ray: Ray)
    requires Lawful(m)
    requires 0.0 < Discriminant(s, ray)
    ensures LowerRoot(m, s, ray) <= UpperRoot(m, s, ray)
  {
    DiscriminantNeedsDirection(s, ray);
    var root := m.sqrt(Discriminant(s, ray));
    DivMonotone(-QuadB(s, ray) - root, -QuadB(s, ray) + root, QuadA(ray));
  }

  /** The hit is the least root inside the range: no root in the range lies
      before it. */
  lemma SphereHitIsNearest(m: Math, s: Sphere, ray: Ray, within: Interval)
    requires Lawful(m)
    requires 0.0 < Discriminant(s, ray)
    ensures SphereHit(m, s, ray, within).Some? ==>
      && (within.Contains(LowerRoot(m, s, ray)) ==> SphereHit(m, s, ray, within).value.t <= LowerRoot(m, s, ray))
      && (within.Contains(UpperRoot(m, s, ray)) ==> SphereHit(m, s, ray, within).value.t <= UpperRoot(m, s, ray))
  {
    RootsOrdered(m, s, ray);
  }

  /** Narrowing the end of the range only drops a hit that falls beyond the
      new end: the query over `start..e'` is the query over `start..e`
      clipped to `e'`. */
  lemma SphereHitShrinks(m: Math, s: Sphere, ray: Ray, start: real, e: Bound, e': Bound)
    requires Lawful(m)
    requires AtMost(e', e)
    ensures SphereHit(m, s, ray, Interval(start, e')) == Clip(SphereHit(m, s, ray, Interval(start, e)), e')
  {
    if 0.0 < Discriminant(s, ray) {
      RootsOrdered(m, s, ray);
    }
  }

  lemma RootAlgebra(a: real, b: real, c: real, s: real, t: real, e: real)
    requires a != 0.0
    requires e == 1.0 || e == -1.0
    requires Product(a, t) == -b + e * s
    requires Product(s, s) == Product(b, b) - Product(a, c)
    ensures Product(a, Product(t, t)) + 2.0 * Product(b, t) + c == 0.0
  {
    assert Product(a, Product(a, Product(t, t)) + 2.0 * Product(b, t) + c)
        == Product(Product(a, t), Product(a, t)) + 2.0 * Product(b, Product(a, t)) + Product(a, c);
    assert Product(Product(a, t), Product(a, t)) == Product(b, b) - 2.0 * e * Product(b, s) + Product(s, s);
    ZeroFactor(a, Product(a, Product(t, t)) + 2.0 * Product(b, t) + c);
  }

  lemma ExpandSquare(o: real, d: real, t: real)
    ensures Product(o + d * t, o + d * t)
         == Product(o, o) + 2.0 * Product(t, Product(o, d)) + Product(Product(t, t), Product(d, d))
  {
  }

  lemma SumExpand(o1: real, o2: real, o3: real, b1: real, b2: real, b3: real,
                  d1: real, d2: real, d3: real, t: real, tt: real)
    ensures (o1 + 2.0 * Product(t, b1) + Product(tt, d1))
          + (o2 + 2.0 * Product(t, b2) + Product(tt, d2))
          + (o3 + 2.0 * Product(t, b3) + Product(tt, d3))
         == (o1 + o2 + o3) + 2.0 * Product(t, b1 + b2 + b3) + Product(tt, d1 + d2 + d3)
  {
  }

  /** The squared distance from the centre along the ray is the quadratic
      `|oc|² + 2 t (oc·d) + t² |d|²`. */
  lemma PointDistance(ray: Ray, center: Vec3, t: real)
    ensures SquaredLength(Sub(PointAt(ray, t), center))
         == SquaredLength(Sub(ray.origin, center)) + 2.0 * Product(t, Dot(Sub(ray.origin, center), ray.direction))
          + Product(Product(t, t), SquaredLength(ray.direction))
  {
    var oc := Sub(ray.origin, center);
    var d := ray.direction;
    var q := Sub(PointAt(ray, t), center);
    assert q == Vec3(oc.x + d.x * t, oc.y + d.y * t, oc.z + d.z * t);
    assert SquaredLength(q) == Product(q.x, q.x) + Product(q.y, q.y) + Product(q.z, q.z);
    assert Dot(oc, d) == Product(oc.x, d.x) + Product(oc.y, d.y) + Product(oc.z, d.z);
    ExpandSquare(oc.x, d.x, t);
    ExpandSquare(oc.y, d.y, t);
    ExpandSquare(oc.z, d.z, t);
    SumExpand(Product(oc.x, oc.x), Product(oc.y, oc.y), Product(oc.z, oc.z),
              Product(oc.x, d.x), Product(oc.y, d.y), Product(oc.z, d.z),
              Product(d.x, d.x), Product(d.y, d.y), Product(d.z, d.z), t, Product(t, t));
  }

  /** With a lawful square root both roots are points of the sphere. */
  lemma RootOnSphere(m: Math, s: Sphere, ray: Ray, t: real)
    requires Lawful(m)
    requires 0.0 < Discriminant(s, ray)
    requires t == LowerRoot(m, s, ray) || t == UpperRoot(m, s, ray)
    ensures SquaredLength(Sub(PointAt(ray, t), s.center)) == Product(s.radius, s.radius)
  {
    DiscriminantNeedsDirection(s, ray);
    var a, b, c := QuadA(ray), QuadB(s, ray), QuadC(s, ray);
    var root := m.sqrt(Discriminant(s, ray));
    assert Product(root, root) == Discriminant(s, ray);
    var e := if t == LowerRoot(m, s, ray) then -1.0 else 1.0;
    assert Product(a, t) == -b + e * root;
    RootAlgebra(a, b, c, root, t, e);
    PointDistance(ray, s.center, t);
  }

  /** A hit lies on the sphere, and its normal has unit length. */
  lemma SphereHitOnSurface(m: Math, s: Sphere, ray: Ray, within: Interval)
    requires Lawful(m)
    requires SphereHit(m, s, ray, within).Some?
    ensures SquaredLength(Sub(SphereHit(m, s, ray, within).value.p, s.center)) == Product(s.radius, s.radius)
    ensures SquaredLength(SphereHit(m, s, ray, within).value.normal) == 1.0
  {
    var h := SphereHit(m, s, ray, within).value;
    RootOnSphere(m, s, ray, h.t);
    DiscriminantNeedsRadius(s, ray);
    DivideToUnit(Sub(h.p, s.center), s.radius);
  }
}
