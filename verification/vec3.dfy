/** The three-component vector of `src/vec3.rs`, over the reals.
    It serves as point, direction and linear colour alike. */
module Vectors {

  datatype Vec3 = Vec3(x: real, y: real, z: real)

  const Zero := Vec3(0.0, 0.0, 0.0)
  const One := Vec3(1.0, 1.0, 1.0)

  /** `Vec3 + Vec3` */
  function Add(a: Vec3, b: Vec3): (r: Vec3)
    ensures Sub(r, b) == a
  {
    Vec3(a.x + b.x, a.y + b.y, a.z + b.z)
  }

  /** `Vec3 - Vec3` */
  function Sub(a: Vec3, b: Vec3): Vec3 {
    Vec3(a.x - b.x, a.y - b.y, a.z - b.z)
  }

  /** Unary `-Vec3` */
  function Neg(a: Vec3): Vec3 {
    Vec3(-a.x, -a.y, -a.z)
  }

  /** `Vec3 * F`: scaling by a scalar */
  function Scale(a: Vec3, k: real): Vec3 {
    Vec3(a.x * k, a.y * k, a.z * k)
  }

  /** `Vec3 * Vec3`: the componentwise (Hadamard) product, also colour attenuation.
      (`Product`, below, is real multiplication.) */
  function Mul(a: Vec3, b: Vec3): (r: Vec3)
    ensures r.x + r.y + r.z == Dot(a, b)
    ensures NoZeroComponent(b) ==> Vec3(r.x / b.x, r.y / b.y, r.z / b.z) == a
  {
    Vec3(Product(a.x, b.x), Product(a.y, b.y), Product(a.z, b.z))
  }

  predicate NoZeroComponent(v: Vec3) {
    v.x != 0.0 && v.y != 0.0 && v.z != 0.0
  }

  /** `Vec3 / Vec3`: componentwise division; over the reals it needs a divisor
      without zero components (f32 would produce infinities or NaN). */
  function Div(a: Vec3, b: Vec3): (r: Vec3)
    requires NoZeroComponent(b)
    ensures Mul(r, b) == a
  {
    Vec3(a.x / b.x, a.y / b.y, a.z / b.z)
  }

  /** `Vec3 / F`: division by a non-zero scalar */
  function DivScalar(a: Vec3, k: real): Vec3
    requires k != 0.0
  {
    Vec3(a.x / k, a.y / k, a.z / k)
  }

  /** Scaling by `k` undoes division by `k`. */
  lemma ScaleUndoesDivScalar(a: Vec3, k: real)
    requires k != 0.0
    ensures Scale(DivScalar(a, k), k) == a
  {
  }

  /** Real multiplication of two scalars. The quadratic quantities below (dot
      products, squared lengths, discriminants) are written with it, so that
      proofs about them can treat each product as one term. */
  function Product(a: real, b: real): real {
    a * b
  }

  /** The dot product of two vectors, as the callers use it. */
  function Dot(a: Vec3, b: Vec3): real {
    Product(a.x, b.x) + Product(a.y, b.y) + Product(a.z, b.z)
  }

  /** The self dot product `x² + y² + z²` (called `squared_length` by the callers). */
  function SquaredLength(v: Vec3): (r: real)
    ensures 0.0 <= r
    ensures r == Dot(v, v)
  {
    SquarePositive(v.x);
    SquarePositive(v.y);
    SquarePositive(v.z);
    Product(v.x, v.x) + Product(v.y, v.y) + Product(v.z, v.z)
  }

  lemma ProductPositive(p: real, q: real)
    requires 0.0 < p && 0.0 < q
    ensures 0.0 < Product(p, q)
  {
  }

  lemma ProductNonNegative(p: real, q: real)
    requires 0.0 <= p && 0.0 <= q
    ensures 0.0 <= Product(p, q)
  {
    if p > 0.0 && q > 0.0 {
      ProductPositive(p, q);
    } else {
      ProductZero(p);
      ProductZero(q);
    }
  }

  /** A product of a number below one and a number at most one is below one. */
  lemma ProductBelowOne(p: real, q: real)
    requires 0.0 <= p < 1.0 && 0.0 <= q <= 1.0
    ensures Product(p, q) < 1.0
  {
    ProductNonNegative(p, 1.0 - q);
    assert Product(p, q) == p - Product(p, 1.0 - q);
  }

  lemma ProductZero(a: real)
    ensures Product(0.0, a) == 0.0 && Product(a, 0.0) == 0.0
  {
  }

  /** A square is non-negative, and positive for a non-zero number. */
  lemma SquarePositive(a: real)
    ensures 0.0 <= Product(a, a)
    ensures a != 0.0 ==> 0.0 < Product(a, a)
  {
    if a > 0.0 {
      ProductPositive(a, a);
    } else if a < 0.0 {
      ProductPositive(-a, -a);
      assert Product(-a, -a) == Product(a, a);
    }
  }

  /** Only the zero vector has squared length zero. */
  lemma SquaredLengthPositive(v: Vec3)
    ensures v != Zero ==> 0.0 < SquaredLength(v)
    ensures v == Zero ==> SquaredLength(v) == 0.0
  {
    SquarePositive(v.x);
    SquarePositive(v.y);
    SquarePositive(v.z);
    if v != Zero {
      assert v.x != 0.0 || v.y != 0.0 || v.z != 0.0;
    } else {
      ProductZero(0.0);
    }
  }

  /** A vector whose squared length is not positive is the zero vector. */
  lemma OnlyZeroHasNoLength(v: Vec3)
    requires SquaredLength(v) <= 0.0
    ensures v == Zero
  {
    SquaredLengthPositive(v);
  }

  lemma DotZero(v: Vec3)
    ensures Dot(v, Zero) == 0.0 && Dot(Zero, v) == 0.0
  {
    ProductZero(v.x);
    ProductZero(v.y);
    ProductZero(v.z);
  }

  /** The test vector of `addition`: (1,1,1) + (2,2,2) == (3,3,3). */
  lemma AdditionTestVector()
    ensures Add(Vec3(1.0, 1.0, 1.0), Vec3(2.0, 2.0, 2.0)) == Vec3(3.0, 3.0, 3.0)
  {
  }

  /** The dot product distributes over addition on the left. */
  lemma DotAdd(a: Vec3, b: Vec3, c: Vec3)
    ensures Dot(Add(a, b), c) == Dot(a, c) + Dot(b, c)
  {
    assert Product(a.x + b.x, c.x) == Product(a.x, c.x) + Product(b.x, c.x);
    assert Product(a.y + b.y, c.y) == Product(a.y, c.y) + Product(b.y, c.y);
    assert Product(a.z + b.z, c.z) == Product(a.z, c.z) + Product(b.z, c.z);
  }

  /** A number whose square is below one lies strictly inside (-1, 1). */
  lemma SquareBelowOne(a: real)
    requires Product(a, a) < 1.0
    ensures -1.0 < a < 1.0
  {
  }

  /** A number whose square is at most one lies in [-1, 1]. */
  lemma SquareAtMostOne(a: real)
    requires Product(a, a) <= 1.0
    ensures -1.0 <= a <= 1.0
  {
  }

  /** Lagrange's identity: the gap in the Cauchy-Schwarz inequality is the
      squared length of the cross product. */
  lemma Lagrange(a: Vec3, b: Vec3)
    ensures Product(SquaredLength(a), SquaredLength(b)) - Product(Dot(a, b), Dot(a, b))
         == Product(a.y * b.z - a.z * b.y, a.y * b.z - a.z * b.y)
          + Product(a.z * b.x - a.x * b.z, a.z * b.x - a.x * b.z)
          + Product(a.x * b.y - a.y * b.x, a.x * b.y - a.y * b.x)
  {
  }

  /** The Cauchy-Schwarz inequality `(a·b)² <= |a|²|b|²`. */
  lemma CauchySchwarz(a: Vec3, b: Vec3)
    ensures Product(Dot(a, b), Dot(a, b)) <= Product(SquaredLength(a), SquaredLength(b))
  {
    Lagrange(a, b);
    SquarePositive(a.y * b.z - a.z * b.y);
    SquarePositive(a.z * b.x - a.x * b.z);
    SquarePositive(a.x * b.y - a.y * b.x);
  }

  /** The dot product of two unit vectors lies in [-1, 1]. */
  lemma UnitDot(u: Vec3, n: Vec3)
    requires SquaredLength(u) == 1.0 && SquaredLength(n) == 1.0
    ensures 0.0 <= 1.0 - Product(Dot(u, n), Dot(u, n)) <= 1.0
  {
    CauchySchwarz(u, n);
    assert Product(1.0, 1.0) == 1.0;
    SquarePositive(Dot(u, n));
  }

  /** A product with a non-zero factor vanishes only if the other factor does. */
  lemma ZeroFactor(a: real, x: real)
    requires a != 0.0 && Product(a, x) == 0.0
    ensures x == 0.0
  {
  }

  lemma QuotientSquare(x: real, k: real)
    requires k != 0.0
    ensures Product(Product(x / k, x / k), Product(k, k)) == Product(x, x)
  {
  }

  lemma SumScaled(p1: real, p2: real, p3: real, q1: real, q2: real, q3: real, kk: real)
    requires Product(p1, kk) == q1 && Product(p2, kk) == q2 && Product(p3, kk) == q3
    ensures Product(p1 + p2 + p3, kk) == q1 + q2 + q3
  {
  }

  /** Dividing a vector of length `|k|` by `k` gives a unit vector. */
  lemma DivideToUnit(v: Vec3, k: real)
    requires k != 0.0
    requires SquaredLength(v) == Product(k, k)
    ensures SquaredLength(DivScalar(v, k)) == 1.0
  {
    var u := DivScalar(v, k);
    QuotientSquare(v.x, k);
    QuotientSquare(v.y, k);
    QuotientSquare(v.z, k);
    SumScaled(Product(u.x, u.x), Product(u.y, u.y), Product(u.z, u.z),
              Product(v.x, v.x), Product(v.y, v.y), Product(v.z, v.z), Product(k, k));
    SquarePositive(k);
    ZeroFactor(Product(k, k), SquaredLength(u) - 1.0);
  }

  /** The numeric primitives the source takes from `f32`: a square root and
      `Vec3::unit`. They are parameters of the model, constrained by `Lawful`. */
  datatype Math = Math(sqrt: real -> real, unit: Vec3 -> Vec3)

  /** `sqrt` is a non-negative square root on non-negative arguments, and for a
      non-zero `v`, `unit(v)` has length one and scaled by the length of `v`
      gives back `v`. The zero vector has no unit vector (f32 yields NaN). */
  ghost predicate Lawful(m: Math) {
    && (forall d :: 0.0 <= d ==> 0.0 <= m.sqrt(d) && Product(m.sqrt(d), m.sqrt(d)) == d)
    && (forall v {:trigger m.unit(v)} :: v != Zero ==>
          && SquaredLength(m.unit(v)) == 1.0
          && Scale(m.unit(v), m.sqrt(SquaredLength(v))) == v)
  }

  /** Each component of a unit vector lies in [-1, 1]. */
  lemma UnitComponents(m: Math, v: Vec3)
    requires Lawful(m)
    requires v != Zero
    ensures -1.0 <= m.unit(v).x <= 1.0
    ensures -1.0 <= m.unit(v).y <= 1.0
    ensures -1.0 <= m.unit(v).z <= 1.0
  {
    var u := m.unit(v);
    assert SquaredLength(u) == 1.0;
    SquarePositive(u.x);
    SquarePositive(u.y);
    SquarePositive(u.z);
    SquareAtMostOne(u.x);
    SquareAtMostOne(u.y);
    SquareAtMostOne(u.z);
  }
}
