/** The ray of `src/ray.rs`: an origin and a direction that need not be unit length.
    `Ray::new` is the datatype constructor, which stores both fields unchanged. */
module Rays {
  import opened Vectors

  datatype Ray = Ray(origin: Vec3, direction: Vec3)

  /** `point_at(t)`: the point reached after travelling `t` directions from the origin. */
  function PointAt(r: Ray, t: real): (p: Vec3)
    ensures Sub(p, r.origin) == Scale(r.direction, t)
  {
    Add(r.origin, Scale(r.direction, t))
  }

  lemma PointAtZero(r: Ray)
    ensures PointAt(r, 0.0) == r.origin
  {
  }

  /** Travelling `s` then `t` is travelling `s + t`. */
  lemma PointAtShift(r: Ray, s: real, t: real)
    ensures PointAt(Ray(PointAt(r, s), r.direction), t) == PointAt(r, s + t)
  {
  }

  /** The test vectors of `point_at`. */
  lemma PointAtTestVector()
    ensures PointAt(Ray(Vec3(1.0, 2.0, 3.0), Vec3(0.1, 0.2, 0.3)), 0.0) == Vec3(1.0, 2.0, 3.0)
    ensures PointAt(Ray(Vec3(1.0, 2.0, 3.0), Vec3(0.1, 0.2, 0.3)), 4.0) == Vec3(1.4, 2.8, 4.2)
  {
    var r := Ray(Vec3(1.0, 2.0, 3.0), Vec3(0.1, 0.2, 0.3));
    calc {
      PointAt(r, 4.0);
      Add(r.origin, Scale(r.direction, 4.0));
      { assert Scale(r.direction, 4.0) == Vec3(0.4, 0.8, 1.2); }
      Add(Vec3(1.0, 2.0, 3.0), Vec3(0.4, 0.8, 1.2));
    }
  }
}
