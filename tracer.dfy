/** The ray, the hit record and the slab-method ray/box test of application.cpp. */
module Tracer {
  import opened Vectors

  /** application.cpp `Ray`: an origin and a direction in world space. */
  datatype Ray = Ray(origin: Vec3, direction: Vec3)

  /** application.cpp `HitInfo`: hit flag, ray parameter, hit point, face normal. */
  datatype HitInfo = HitInfo(hit: bool, t: real, hitPoint: Vec3, normal: Vec3)

  /** The model's domain: no direction component is zero, so no slab
      division yields an IEEE infinity. */
  predicate NonAxisParallel(d: Vec3)
  {
    d.x != 0.0 && d.y != 0.0 && d.z != 0.0
  }

  /** `origin + t * direction`. */
  function PointAt(ray: Ray, t: real): Vec3
  {
    Add(ray.origin, Scale(t, ray.direction))
  }

  /** One coordinate of the point at `t`. */
  function Along(o: real, d: real, t: real): real
  {
    o + t * d
  }

  /** Each coordinate of the point at `t` is that axis's `Along`. */
  lemma PointAtCoordinates(ray: Ray, t: real)
    ensures PointAt(ray, t) == Vec3(Along(ray.origin.x, ray.direction.x, t),
                                    Along(ray.origin.y, ray.direction.y, t),
                                    Along(ray.origin.z, ray.direction.z, t))
  {
  }

  /** `v` lies between the two bounds, in whichever order they are given. */
  predicate Between(v: real, a: real, b: real)
  {
    Min(a, b) <= v <= Max(a, b)
  }

  /** `p` lies within the box spanned by the corners `lo` and `hi`. */
  predicate InBox(p: Vec3, lo: Vec3, hi: Vec3)
  {
    Between(p.x, lo.x, hi.x) && Between(p.y, lo.y, hi.y) && Between(p.z, lo.z, hi.z)
  }

  /** Entry distance of one slab: the smaller of the two bound distances,
      as the swap leaves it in the `t?Min` variable. */
  function SlabNear(o: real, d: real, lo: real, hi: real): real
    requires d != 0.0
  {
    Min((lo - o) / d, (hi - o) / d)
  }

  /** Exit distance of one slab (the `t?Max` variable after the swap). */
  function SlabFar(o: real, d: real, lo: real, hi: real): real
    requires d != 0.0
  {
    Max((lo - o) / d, (hi - o) / d)
  }

  /** Combined entry distance: the latest of the three slab entries. */
  function Entry(ray: Ray, lo: Vec3, hi: Vec3): real
    requires NonAxisParallel(ray.direction)
  {
    var o, d := ray.origin, ray.direction;
    Max(Max(SlabNear(o.x, d.x, lo.x, hi.x), SlabNear(o.y, d.y, lo.y, hi.y)),
        SlabNear(o.z, d.z, lo.z, hi.z))
  }

  /** Combined exit distance: the earliest of the three slab exits. */
  function Exit(ray: Ray, lo: Vec3, hi: Vec3): real
    requires NonAxisParallel(ray.direction)
  {
    var o, d := ray.origin, ray.direction;
    Min(Min(SlabFar(o.x, d.x, lo.x, hi.x), SlabFar(o.y, d.y, lo.y, hi.y)),
        SlabFar(o.z, d.z, lo.z, hi.z))
  }

  /** The slab test's verdict: the three slabs overlap and the overlap is
      not wholly behind the origin. */
  predicate Hits(ray: Ray, lo: Vec3, hi: Vec3)
    requires NonAxisParallel(ray.direction)
  {
    Entry(ray, lo, hi) <= Exit(ray, lo, hi) && 0.0 <= Exit(ray, lo, hi)
  }

  /** The accepted ray parameter: the entry distance when it is not negative,
      otherwise (origin inside the box) the exit distance. */
  function HitT(ray: Ray, lo: Vec3, hi: Vec3): (t: real)
    requires NonAxisParallel(ray.direction)
    requires Hits(ray, lo, hi)
    ensures 0.0 <= t
    ensures Entry(ray, lo, hi) <= t <= Exit(ray, lo, hi)
    ensures t == Entry(ray, lo, hi) || t == Exit(ray, lo, hi)
  {
    if Entry(ray, lo, hi) >= 0.0 then Entry(ray, lo, hi) else Exit(ray, lo, hi)
  }

  /** The normal the source's dispatch produces: it compares `t` against
      `tXMin`/`tXMax` after they were overwritten by the combined entry and
      exit, so only the two X faces can come out. */
  function WrittenNormal(ray: Ray, lo: Vec3, hi: Vec3): (n: Vec3)
    requires NonAxisParallel(ray.direction)
    ensures IsAxisUnit(n) && n.y == 0.0 && n.z == 0.0
  {
    if Entry(ray, lo, hi) >= 0.0 then Vec3(-1.0, 0.0, 0.0) else Vec3(1.0, 0.0, 0.0)
  }

  lemma MulPosMono(x: real, y: real, d: real)
    requires 0.0 < d
    ensures x <= y <==> x * d <= y * d
  {
    if x <= y {
      assert (y - x) * d >= 0.0;
    } else {
      assert (x - y) * d > 0.0;
    }
  }

  /** Which side of the plane `bound` the point at `t` lies on, read off
      the distance `(bound - o) / d` at which the ray crosses that plane. */
  lemma PlaneSide(o: real, d: real, bound: real, t: real)
    requires d != 0.0
    ensures d > 0.0 ==> (bound <= o + t * d <==> (bound - o) / d <= t)
    ensures d > 0.0 ==> (o + t * d <= bound <==> t <= (bound - o) / d)
    ensures d < 0.0 ==> (bound <= o + t * d <==> t <= (bound - o) / d)
    ensures d < 0.0 ==> (o + t * d <= bound <==> (bound - o) / d <= t)
  {
    var a := (bound - o) / d;
    assert a * d == bound - o;
    assert o + t * d - bound == t * d - a * d;
    if d > 0.0 {
      MulPosMono(a, t, d);
      MulPosMono(t, a, d);
    } else {
      assert o + t * d - bound == a * (-d) - t * (-d);
      MulPosMono(a, t, -d);
      MulPosMono(t, a, -d);
    }
  }

  /** One slab: the point at `t` lies between the two bounds on this axis
      exactly when `t` lies in the ordered slab interval. */
  lemma SlabContains(o: real, d: real, lo: real, hi: real, t: real)
    requires d != 0.0
    ensures Between(Along(o, d, t), lo, hi) <==> SlabNear(o, d, lo, hi) <= t <= SlabFar(o, d, lo, hi)
  {
    PlaneSide(o, d, lo, t);
    PlaneSide(o, d, hi, t);
  }

  /** Three intervals share `t` exactly when `t` lies between the latest
      of their starts and the earliest of their ends. */
  lemma IntervalsMeet(nx: real, fx: real, ny: real, fy: real, nz: real, fz: real, t: real)
    ensures (nx <= t <= fx && ny <= t <= fy && nz <= t <= fz)
        <==> Max(Max(nx, ny), nz) <= t <= Min(Min(fx, fy), fz)
  {
  }

  /** All three slabs: the point at `t` is in the box exactly when `t` lies
      between the combined entry and exit distances. */
  lemma {:induction false} InBoxWithin(ray: Ray, lo: Vec3, hi: Vec3, t: real)
    requires NonAxisParallel(ray.direction)
    ensures InBox(PointAt(ray, t), lo, hi) <==> Entry(ray, lo, hi) <= t <= Exit(ray, lo, hi)
  {
    var o, d := ray.origin, ray.direction;
    var p := PointAt(ray, t);
    PointAtCoordinates(ray, t);
    var nx, fx := SlabNear(o.x, d.x, lo.x, hi.x), SlabFar(o.x, d.x, lo.x, hi.x);
    var ny, fy := SlabNear(o.y, d.y, lo.y, hi.y), SlabFar(o.y, d.y, lo.y, hi.y);
    var nz, fz := SlabNear(o.z, d.z, lo.z, hi.z), SlabFar(o.z, d.z, lo.z, hi.z);
    SlabContains(o.x, d.x, lo.x, hi.x, t);
    SlabContains(o.y, d.y, lo.y, hi.y, t);
    SlabContains(o.z, d.z, lo.z, hi.z, t);
    assert Between(p.x, lo.x, hi.x) <==> nx <= t <= fx;
    assert Between(p.y, lo.y, hi.y) <==> ny <= t <= fy;
    assert Between(p.z, lo.z, hi.z) <==> nz <= t <= fz;
    IntervalsMeet(nx, fx, ny, fy, nz, fz, t);
  }

  /** The slab test is exact: it succeeds if and only if some point of the
      ray at a non-negative parameter lies in the box. */
  lemma {:induction false} HitsIffPointInBox(ray: Ray, lo: Vec3, hi: Vec3)
    requires NonAxisParallel(ray.direction)
    ensures Hits(ray, lo, hi) <==> exists t :: 0.0 <= t && InBox(PointAt(ray, t), lo, hi)
  {
    if Hits(ray, lo, hi) {
      var t := HitT(ray, lo, hi);
      InBoxWithin(ray, lo, hi, t);
    }
    if exists t :: 0.0 <= t && InBox(PointAt(ray, t), lo, hi) {
      var t :| 0.0 <= t && InBox(PointAt(ray, t), lo, hi);
      InBoxWithin(ray, lo, hi, t);
    }
  }

  /** On a hit, the reported point lies in the box on every axis. */
  lemma {:induction false} HitPointInBox(ray: Ray, lo: Vec3, hi: Vec3)
    requires NonAxisParallel(ray.direction)
    requires Hits(ray, lo, hi)
    ensures InBox(PointAt(ray, HitT(ray, lo, hi)), lo, hi)
  {
    InBoxWithin(ray, lo, hi, HitT(ray, lo, hi));
  }

  /** With the origin outside the box (entry not negative), the accepted `t`
      is the nearest point of the ray in the box; with the origin inside, it
      is the farthest one, where the ray leaves the box. */
  lemma {:induction false} HitTIsEntryOrExit(ray: Ray, lo: Vec3, hi: Vec3, s: real)
    requires NonAxisParallel(ray.direction)
    requires Hits(ray, lo, hi)
    requires 0.0 <= s && InBox(PointAt(ray, s), lo, hi)
    ensures Entry(ray, lo, hi) >= 0.0 ==> HitT(ray, lo, hi) <= s
    ensures Entry(ray, lo, hi) < 0.0 ==> s <= HitT(ray, lo, hi)
  {
    InBoxWithin(ray, lo, hi, s);
  }

  /** application.cpp `intersectBox`. `info` is the caller's record before
      the call and `out` the record after it; only `hit` is written on a miss. */
  method IntersectBox(ray: Ray, min: Vec3, max: Vec3, info: HitInfo) returns (hit: bool, out: HitInfo)
    requires NonAxisParallel(ray.direction)
    ensures out.hit == hit
    ensures hit == Hits(ray, min, max)
    ensures !hit ==> out == info.(hit := false)
    ensures hit ==> out.t == HitT(ray, min, max)
    ensures hit ==> out.hitPoint == PointAt(ray, out.t)
    ensures hit ==> out.normal == WrittenNormal(ray, min, max)
  {
    var tXMin := (min.x - ray.origin.x) / ray.direction.x;
    var tXMax := (max.x - ray.origin.x) / ray.direction.x;
    if tXMin > tXMax {
      tXMin, tXMax := tXMax, tXMin;
    }
    assert tXMin == SlabNear(ray.origin.x, ray.direction.x, min.x, max.x);
    assert tXMax == SlabFar(ray.origin.x, ray.direction.x, min.x, max.x);

    var tYMin := (min.y - ray.origin.y) / ray.direction.y;
    var tYMax := (max.y - ray.origin.y) / ray.direction.y;
    if tYMin > tYMax {
      tYMin, tYMax := tYMax, tYMin;
    }
    assert tYMin == SlabNear(ray.origin.y, ray.direction.y, min.y, max.y);
    assert tYMax == SlabFar(ray.origin.y, ray.direction.y, min.y, max.y);

    if tXMin > tYMax || tYMin > tXMax {
      out := info.(hit := false);
      return false, out;
    }

    // the X variables now hold the running interval
    tXMin := Max(tXMin, tYMin);
    tXMax := Min(tXMax, tYMax);

    var tZMin := (min.z - ray.origin.z) / ray.direction.z;
    var tZMax := (max.z - ray.origin.z) / ray.direction.z;
    if tZMin > tZMax {
      tZMin, tZMax := tZMax, tZMin;
    }
    assert tZMin == SlabNear(ray.origin.z, ray.direction.z, min.z, max.z);
    assert tZMax == SlabFar(ray.origin.z, ray.direction.z, min.z, max.z);

    if tXMin > tZMax || tZMin > tXMax {
      out := info.(hit := false);
      return false, out;
    }

    tXMin := Max(tXMin, tZMin);
    tXMax := Min(tXMax, tZMax);

    if tXMin < 0.0 && tXMax < 0.0 {
      out := info.(hit := false);
      return false, out;
    }

    out := info.(hit := true);
    out := out.(t := if tXMin >= 0.0 then tXMin else tXMax);
    out := out.(hitPoint := Add(ray.origin, Scale(out.t, ray.direction)));

    if out.t == tXMin {
      out := out.(normal := Vec3(-1.0, 0.0, 0.0));
    } else if out.t == tXMax {
      out := out.(normal := Vec3(1.0, 0.0, 0.0));
    } else if out.t == tYMin {
      out := out.(normal := Vec3(0.0, -1.0, 0.0));
    } else if out.t == tYMax {
      out := out.(normal := Vec3(0.0, 1.0, 0.0));
    } else if out.t == tZMin {
      out := out.(normal := Vec3(0.0, 0.0, -1.0));
    } else {
      out := out.(normal := Vec3(0.0, 0.0, 1.0));
    }
    hit := true;
  }

  /** `n` is one of the six axis-aligned unit vectors. */
  predicate IsAxisUnit(n: Vec3)
  {
    n in {Vec3(-1.0, 0.0, 0.0), Vec3(1.0, 0.0, 0.0), Vec3(0.0, -1.0, 0.0),
          Vec3(0.0, 1.0, 0.0), Vec3(0.0, 0.0, -1.0), Vec3(0.0, 0.0, 1.0)}
  }

  /** `p` lies on the plane of the box face whose outward normal is `n`
      (the `min` corner's faces point to -X, -Y, -Z). */
  predicate OnFace(p: Vec3, n: Vec3, lo: Vec3, hi: Vec3)
  {
    (n == Vec3(-1.0, 0.0, 0.0) ==> p.x == lo.x) &&
    (n == Vec3(1.0, 0.0, 0.0) ==> p.x == hi.x) &&
    (n == Vec3(0.0, -1.0, 0.0) ==> p.y == lo.y) &&
    (n == Vec3(0.0, 1.0, 0.0) ==> p.y == hi.y) &&
    (n == Vec3(0.0, 0.0, -1.0) ==> p.z == lo.z) &&
    (n == Vec3(0.0, 0.0, 1.0) ==> p.z == hi.z)
  }

  /** The ray reaches the plane `bound` at parameter `(bound - o) / d`. */
  lemma AlongToPlane(o: real, d: real, bound: real)
    requires d != 0.0
    ensures Along(o, d, (bound - o) / d) == bound
  {
    assert (bound - o) / d * d == bound - o;
  }

  /** The accepted `t` is one of the six distances at which the ray crosses
      a face plane, as computed before any swap. */
  lemma {:induction false} HitTOnPlane(ray: Ray, lo: Vec3, hi: Vec3)
    requires NonAxisParallel(ray.direction)
    requires Hits(ray, lo, hi)
    ensures var o, d, t := ray.origin, ray.direction, HitT(ray, lo, hi);
      t == (lo.x - o.x) / d.x || t == (hi.x - o.x) / d.x ||
      t == (lo.y - o.y) / d.y || t == (hi.y - o.y) / d.y ||
      t == (lo.z - o.z) / d.z || t == (hi.z - o.z) / d.z
  {
  }

  /** The face normal the dispatch of application.cpp evidently intends:
      `t` is compared with the six plane distances of the original bounds,
      in the source's order -X, +X, -Y, +Y, -Z, +Z. This corrects two
      things: the comparison with the overwritten running interval, and the
      labelling after the swap, where `t?Min` holds the distance to the
      `max` plane whenever that direction component is negative. */
  function FaceNormal(ray: Ray, lo: Vec3, hi: Vec3): (n: Vec3)
    requires NonAxisParallel(ray.direction)
    requires Hits(ray, lo, hi)
    ensures IsAxisUnit(n)
    ensures OnFace(PointAt(ray, HitT(ray, lo, hi)), n, lo, hi)
  {
    var o, d, t := ray.origin, ray.direction, HitT(ray, lo, hi);
    HitTOnPlane(ray, lo, hi);
    PointAtCoordinates(ray, t);
    AlongToPlane(o.x, d.x, lo.x);
    AlongToPlane(o.x, d.x, hi.x);
    AlongToPlane(o.y, d.y, lo.y);
    AlongToPlane(o.y, d.y, hi.y);
    AlongToPlane(o.z, d.z, lo.z);
    AlongToPlane(o.z, d.z, hi.z);
    if t == (lo.x - o.x) / d.x then Vec3(-1.0, 0.0, 0.0)
    else if t == (hi.x - o.x) / d.x then Vec3(1.0, 0.0, 0.0)
    else if t == (lo.y - o.y) / d.y then Vec3(0.0, -1.0, 0.0)
    else if t == (hi.y - o.y) / d.y then Vec3(0.0, 1.0, 0.0)
    else if t == (lo.z - o.z) / d.z then Vec3(0.0, 0.0, -1.0)
    else Vec3(0.0, 0.0, 1.0)
  }

  /** As written, the normal names the wrong face: this ray enters the box
      through its bottom face (y == 0.2), yet the source reports the left
      face's normal (-1, 0, 0), whose plane x == 0.2 the hit point is not on;
      the corrected dispatch reports (0, -1, 0). */
  lemma WrittenNormalMisnamesFace()
    ensures var ray := Ray(Vec3(0.5, -1.0, 0.5), Vec3(0.01, 1.0, 0.01));
      var lo, hi := Vec3(0.2, 0.2, 0.2), Vec3(0.8, 0.8, 0.8);
      NonAxisParallel(ray.direction) && Hits(ray, lo, hi) &&
      HitT(ray, lo, hi) == 1.2 &&
      PointAt(ray, HitT(ray, lo, hi)) == Vec3(0.512, 0.2, 0.512) &&
      WrittenNormal(ray, lo, hi) == Vec3(-1.0, 0.0, 0.0) &&
      !OnFace(PointAt(ray, HitT(ray, lo, hi)), WrittenNormal(ray, lo, hi), lo, hi) &&
      FaceNormal(ray, lo, hi) == Vec3(0.0, -1.0, 0.0)
  {
  }

  /** The dispatch as it would read with the overwrite undone: `t` compared
      with each axis's swapped pair, the entry distance labelled as the `min`
      face. */
  function SwappedNormal(ray: Ray, lo: Vec3, hi: Vec3): (n: Vec3)
    requires NonAxisParallel(ray.direction)
    requires Hits(ray, lo, hi)
    ensures IsAxisUnit(n)
  {
    var o, d, t := ray.origin, ray.direction, HitT(ray, lo, hi);
    if t == SlabNear(o.x, d.x, lo.x, hi.x) then Vec3(-1.0, 0.0, 0.0)
    else if t == SlabFar(o.x, d.x, lo.x, hi.x) then Vec3(1.0, 0.0, 0.0)
    else if t == SlabNear(o.y, d.y, lo.y, hi.y) then Vec3(0.0, -1.0, 0.0)
    else if t == SlabFar(o.y, d.y, lo.y, hi.y) then Vec3(0.0, 1.0, 0.0)
    else if t == SlabNear(o.z, d.z, lo.z, hi.z) then Vec3(0.0, 0.0, -1.0)
    else Vec3(0.0, 0.0, 1.0)
  }

  /** Comparing with the swapped pair also names the wrong face: this ray
      travels towards -X and enters through the right face (x == 0.8), but
      the swapped entry distance is labelled as the left face (-1, 0, 0);
      the corrected dispatch reports (1, 0, 0). */
  lemma SwappedNormalMisnamesFace()
    ensures var ray := Ray(Vec3(2.0, 0.5, 0.5), Vec3(-1.0, 0.01, 0.01));
      var lo, hi := Vec3(0.2, 0.2, 0.2), Vec3(0.8, 0.8, 0.8);
      NonAxisParallel(ray.direction) && Hits(ray, lo, hi) &&
      HitT(ray, lo, hi) == 1.2 &&
      PointAt(ray, HitT(ray, lo, hi)) == Vec3(0.8, 0.512, 0.512) &&
      SwappedNormal(ray, lo, hi) == Vec3(-1.0, 0.0, 0.0) &&
      !OnFace(PointAt(ray, HitT(ray, lo, hi)), SwappedNormal(ray, lo, hi), lo, hi) &&
      FaceNormal(ray, lo, hi) == Vec3(1.0, 0.0, 0.0)
  {
  }
}
