/** The scene of `src/scene.rs`: a list of spheres queried for the nearest hit
    by a fold whose range end shrinks to the best hit found so far. */
module Scenes {
  import opened Options
  import opened Vectors
  import opened Rays
  import opened Hitable

  datatype Scene = Scene(things: seq<Sphere>)

  /** `Scene::new` */
  function NewScene(): (s: Scene)
    ensures |s.things| == 0
  {
    Scene([])
  }

  /** `Scene::add`: the new thing goes last; the earlier things keep their order. */
  function AddThing(scene: Scene, thing: Sphere): (r: Scene)
    ensures |r.things| == |scene.things| + 1
    ensures r.things[..|scene.things|] == scene.things
    ensures r.things[|scene.things|] == thing
  {
    Scene(scene.things + [thing])
  }

  /** The loop of `Scene::hit`, from the thing at the front of `things`:
      each thing is queried over `start..closest`, and an accepted hit
      becomes the result so far and moves `closest` down to its `t`. */
  function Fold(m: Math, things: seq<Sphere>, ray: Ray, start: real, closest: Bound, acc: Option<Hit>): (r: Option<Hit>)
    ensures r == acc || (r.Some? && start <= r.value.t && Below(r.value.t, closest))
    ensures r == acc || (r.Some? && exists i :: 0 <= i < |things| && r.value.material == things[i].material)
    decreases |things|
  {
    if |things| == 0 then
      acc
    else
      var h := SphereHit(m, things[0], ray, Interval(start, closest));
      if h.Some? then
        var r := Fold(m, things[1..], ray, start, Finite(h.value.t), h);
        assert r != h ==> exists i :: 0 <= i < |things| - 1 && r.value.material == things[1..][i].material;
        r
      else
        var r := Fold(m, things[1..], ray, start, closest, acc);
        assert r != acc ==> exists i :: 0 <= i < |things| - 1 && r.value.material == things[1..][i].material;
        r
  }

  /** `Hitable for Scene::hit` */
  function SceneHit(m: Math, scene: Scene, ray: Ray, t: Interval): (r: Option<Hit>)
    ensures |scene.things| == 0 ==> r.None?
    ensures r.Some? ==> t.Contains(r.value.t)
    ensures r.Some? ==> exists i :: 0 <= i < |scene.things| && r.value.material == scene.things[i].material
  {
    Fold(m, scene.things, ray, t.start, t.end, None)
  }

  /** The nearer of two candidate hits; on equal `t` the first one wins. */
  function Earlier(a: Option<Hit>, b: Option<Hit>): (r: Option<Hit>)
    ensures r == a || r == b
    ensures r.None? <==> a.None? && b.None?
    ensures a.Some? && r.Some? ==> r.value.t <= a.value.t
    ensures b.Some? && r.Some? ==> r.value.t <= b.value.t
    ensures a.Some? && b.Some? && r == b && r != a ==> b.value.t < a.value.t
  {
    if a.None? then b
    else if b.None? then a
    else if b.value.t < a.value.t then b
    else a
  }

  lemma EarlierAssociates(a: Option<Hit>, b: Option<Hit>, c: Option<Hit>)
    ensures Earlier(a, Earlier(b, c)) == Earlier(Earlier(a, b), c)
  {
  }

  /** The nearest of a list of candidate hits, the earliest on ties. */
  function Nearest(hits: seq<Option<Hit>>): Option<Hit>
    decreases |hits|
  {
    if |hits| == 0 then None else Earlier(hits[0], Nearest(hits[1..]))
  }

  /** Every thing's own answer over the whole range, in scene order. */
  function Candidates(m: Math, things: seq<Sphere>, ray: Ray, within: Interval): (hits: seq<Option<Hit>>)
    ensures |hits| == |things|
    ensures forall j :: 0 <= j < |things| ==> hits[j] == SphereHit(m, things[j], ray, within)
  {
    seq(|things|, j requires 0 <= j < |things| => SphereHit(m, things[j], ray, within))
  }

  /** The reference definition of the scene query: every thing is asked over
      the whole range, and the nearest answer wins, the earliest on ties. */
  function Best(m: Math, things: seq<Sphere>, ray: Ray, within: Interval): Option<Hit> {
    Nearest(Candidates(m, things, ray, within))
  }

  /** `Best` taken from the front: the first thing against the rest. */
  lemma BestCons(m: Math, things: seq<Sphere>, ray: Ray, within: Interval)
    requires 0 < |things|
    ensures Best(m, things, ray, within)
         == Earlier(SphereHit(m, things[0], ray, within), Best(m, things[1..], ray, within))
  {
    assert Candidates(m, things, ray, within)[1..] == Candidates(m, things[1..], ray, within);
  }

  /** Where the range ends while `acc` is the best hit so far. */
  function ClosestOf(acc: Option<Hit>, end: Bound): Bound {
    if acc.Some? then Finite(acc.value.t) else end
  }

  /** The shrinking-range fold computes the reference answer. */
  lemma {:induction false} FoldIsBest(m: Math, things: seq<Sphere>, ray: Ray, within: Interval, acc: Option<Hit>)
    requires Lawful(m)
    requires acc.Some? ==> within.Contains(acc.value.t)
    ensures Fold(m, things, ray, within.start, ClosestOf(acc, within.end), acc)
         == Earlier(acc, Best(m, things, ray, within))
    decreases |things|
  {
    if |things| > 0 {
      var closest := ClosestOf(acc, within.end);
      var c := SphereHit(m, things[0], ray, within);
      SphereHitShrinks(m, things[0], ray, within.start, within.end, closest);
      var h := SphereHit(m, things[0], ray, Interval(within.start, closest));
      var next := Earlier(acc, c);
      assert h.Some? ==> next == h;
      assert h.None? ==> next == acc;
      FoldIsBest(m, things[1..], ray, within, next);
      BestCons(m, things, ray, within);
      EarlierAssociates(acc, c, Best(m, things[1..], ray, within));
    }
  }

  /** `Scene::hit` returns the nearest hit over the whole range, preferring the
      earliest added thing on ties. */
  lemma SceneHitIsBest(m: Math, scene: Scene, ray: Ray, t: Interval)
    requires Lawful(m)
    ensures SceneHit(m, scene, ray, t) == Best(m, scene.things, ray, t)
  {
    FoldIsBest(m, scene.things, ray, t, None);
  }

  /** The nearest candidate, stated without recursion: it is absent exactly
      when every candidate is absent; otherwise it is candidate `i`, no
      candidate has a smaller `t`, and every candidate before `i` has a
      strictly larger one. */
  lemma {:induction false} NearestIsNearestEarliest(hits: seq<Option<Hit>>)
    ensures Nearest(hits).None? <==> forall j :: 0 <= j < |hits| ==> hits[j].None?
    ensures Nearest(hits).Some? ==>
      exists i :: 0 <= i < |hits| && hits[i] == Nearest(hits)
        && (forall j :: 0 <= j < |hits| && hits[j].Some? ==> Nearest(hits).value.t <= hits[j].value.t)
        && (forall j :: 0 <= j < i && hits[j].Some? ==> Nearest(hits).value.t < hits[j].value.t)
    decreases |hits|
  {
    if |hits| > 0 {
      var rest := hits[1..];
      NearestIsNearestEarliest(rest);
      var b := Nearest(hits);
      var br := Nearest(rest);
      assert forall j :: 1 <= j < |hits| ==> hits[j] == rest[j - 1];
      if b.Some? {
        if b == hits[0] && (br.None? || hits[0].value.t <= br.value.t) {
          assert hits[0] == b;
        } else {
          var k :| 0 <= k < |rest| && rest[k] == br
            && (forall j :: 0 <= j < |rest| && rest[j].Some? ==> br.value.t <= rest[j].value.t)
            && (forall j :: 0 <= j < k && rest[j].Some? ==> br.value.t < rest[j].value.t);
          assert hits[k + 1] == b;
        }
      }
    }
  }

  /** The reference answer, stated without recursion: it is absent exactly
      when no thing is hit in the range; otherwise it is the answer of some
      thing `i`, no thing answers a smaller `t`, and every thing before `i`
      answers a strictly larger one. */
  lemma BestIsNearestEarliest(m: Math, things: seq<Sphere>, ray: Ray, within: Interval)
    ensures Best(m, things, ray, within).None? <==>
      forall j :: 0 <= j < |things| ==> SphereHit(m, things[j], ray, within).None?
    ensures Best(m, things, ray, within).Some? ==>
      exists i :: 0 <= i < |things| && SphereHit(m, things[i], ray, within) == Best(m, things, ray, within)
        && (forall j :: 0 <= j < |things| && SphereHit(m, things[j], ray, within).Some? ==>
              Best(m, things, ray, within).value.t <= SphereHit(m, things[j], ray, within).value.t)
        && (forall j :: 0 <= j < i && SphereHit(m, things[j], ray, within).Some? ==>
              Best(m, things, ray, within).value.t < SphereHit(m, things[j], ray, within).value.t)
  {
    NearestIsNearestEarliest(Candidates(m, things, ray, within));
  }

  /** The reference answer over an appended thing. */
  lemma {:induction false} BestAppend(m: Math, things: seq<Sphere>, thing: Sphere, ray: Ray, within: Interval)
    ensures Best(m, things + [thing], ray, within)
         == Earlier(Best(m, things, ray, within), SphereHit(m, thing, ray, within))
    decreases |things|
  {
    if |things| == 0 {
      assert things + [thing] == [thing];
      BestCons(m, [thing], ray, within);
    } else {
      assert (things + [thing])[1..] == things[1..] + [thing];
      BestAppend(m, things[1..], thing, ray, within);
      BestCons(m, things, ray, within);
      BestCons(m, things + [thing], ray, within);
      EarlierAssociates(SphereHit(m, things[0], ray, within), Best(m, things[1..], ray, within),
                        SphereHit(m, thing, ray, within));
    }
  }

  /** Adding a thing changes the answer only if the new thing is hit strictly
      nearer than the old answer. */
  lemma SceneHitAdd(m: Math, scene: Scene, thing: Sphere, ray: Ray, t: Interval)
    requires Lawful(m)
    ensures SceneHit(m, AddThing(scene, thing), ray, t)
         == Earlier(SceneHit(m, scene, ray, t), SphereHit(m, thing, ray, t))
  {
    SceneHitIsBest(m, scene, ray, t);
    SceneHitIsBest(m, AddThing(scene, thing), ray, t);
    BestAppend(m, scene.things, thing, ray, t);
  }

  /** `p` is a point of the sphere's surface. */
  ghost predicate OnSurface(p: Vec3, s: Sphere) {
    SquaredLength(Sub(p, s.center)) == Product(s.radius, s.radius)
  }

  /** A hit of the scene lies on the surface of one of its spheres, and its
      normal has unit length. */
  lemma SceneHitOnSurface(m: Math, scene: Scene, ray: Ray, t: Interval)
    requires Lawful(m)
    requires SceneHit(m, scene, ray, t).Some?
    ensures exists i :: 0 <= i < |scene.things| && OnSurface(SceneHit(m, scene, ray, t).value.p, scene.things[i])
    ensures SquaredLength(SceneHit(m, scene, ray, t).value.normal) == 1.0
  {
    SceneHitIsBest(m, scene, ray, t);
    BestIsNearestEarliest(m, scene.things, ray, t);
    var i :| 0 <= i < |scene.things| && SphereHit(m, scene.things[i], ray, t) == SceneHit(m, scene, ray, t);
    SphereHitOnSurface(m, scene.things[i], ray, t);
  }
}
