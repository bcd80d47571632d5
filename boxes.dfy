/**
 * Axis-aligned bounding boxes: the union of two boxes and the slab test a ray is put
 * through. The slab test is modelled as the source writes it, which widens the parametric
 * window on every axis instead of narrowing it; `HitNeverPrunes` states the consequence.
 */
module Boxes {
  import opened Vectors

  /** `AABB::new(min, max)`; `min()` and `max()` are the fields. */
  datatype Aabb = Aabb(min: Vec3, max: Vec3)

  /** `f32::min` and `f32::max` on non-NaN values. */
  function Min(a: real, b: real): real { if a <= b then a else b }
  function Max(a: real, b: real): real { if a >= b then a else b }

  function MinVec(a: Vec3, b: Vec3): Vec3 { Vec3(Min(a.x, b.x), Min(a.y, b.y), Min(a.z, b.z)) }
  function MaxVec(a: Vec3, b: Vec3): Vec3 { Vec3(Max(a.x, b.x), Max(a.y, b.y), Max(a.z, b.z)) }

  /** `surrounding_box(box0, box1)`: componentwise min of the minima, max of the maxima. */
  function SurroundingBox(box0: Aabb, box1: Aabb): Aabb
  {
    Aabb(MinVec(box0.min, box1.min), MaxVec(box0.max, box1.max))
  }

  /** Componentwise `a <= b`. */
  predicate Below(a: Vec3, b: Vec3) { a.x <= b.x && a.y <= b.y && a.z <= b.z }

  /** `outer` contains `inner`: its min is at or below, its max at or above, on every axis. */
  predicate Contains(outer: Aabb, inner: Aabb)
  {
    Below(outer.min, inner.min) && Below(inner.max, outer.max)
  }

  /** A box whose min is at or below its max on every axis. */
  predicate Ordered(b: Aabb) { Below(b.min, b.max) }

  /** The union contains both inputs. */
  lemma SurroundingContains(box0: Aabb, box1: Aabb)
    ensures Contains(SurroundingBox(box0, box1), box0)
    ensures Contains(SurroundingBox(box0, box1), box1)
  {
  }

  /** Any box containing both inputs contains the union: it is the smallest such box. */
  lemma SurroundingLeast(box0: Aabb, box1: Aabb, c: Aabb)
    requires Contains(c, box0) && Contains(c, box1)
    ensures Contains(c, SurroundingBox(box0, box1))
  {
  }

  /** Each component of the union is the corresponding component of one of the inputs. */
  lemma SurroundingChoice(box0: Aabb, box1: Aabb, axis: nat)
    requires axis < 3
    ensures var r := SurroundingBox(box0, box1);
      && (At(r.min, axis) == At(box0.min, axis) || At(r.min, axis) == At(box1.min, axis))
      && (At(r.max, axis) == At(box0.max, axis) || At(r.max, axis) == At(box1.max, axis))
  {
  }

  lemma SurroundingCommutative(box0: Aabb, box1: Aabb)
    ensures SurroundingBox(box0, box1) == SurroundingBox(box1, box0)
  {
  }

  lemma SurroundingAssociative(a: Aabb, b: Aabb, c: Aabb)
    ensures SurroundingBox(SurroundingBox(a, b), c) == SurroundingBox(a, SurroundingBox(b, c))
  {
  }

  lemma SurroundingIdempotent(a: Aabb)
    ensures SurroundingBox(a, a) == a
  {
  }

  /** The union of two ordered boxes is ordered. */
  lemma SurroundingOrdered(box0: Aabb, box1: Aabb)
    requires Ordered(box0) && Ordered(box1)
    ensures Ordered(SurroundingBox(box0, box1))
  {
  }

  /** A ray whose direction has no zero component, so `recip()` is finite on every axis. */
  predicate NonZeroDirection(ray: Ray)
  {
    ray.direction.x != 0.0 && ray.direction.y != 0.0 && ray.direction.z != 0.0
  }

  /** `f32::recip`. */
  function Recip(d: real): real
    requires d != 0.0
  {
    1.0 / d
  }

  /** The time at which the ray crosses the plane `bound` of one axis, given `1 / direction`. */
  function CrossingTime(bound: real, origin: real, invDirection: real): real
  {
    (bound - origin) * invDirection
  }

  /** The slab crossing times on one axis, swapped so that the first belongs to the entry side. */
  function SlabTimes(b: Aabb, ray: Ray, axis: nat): (real, real)
    requires axis < 3 && NonZeroDirection(ray)
  {
    var invDirection := Recip(At(ray.direction, axis));
    var t0 := CrossingTime(At(b.min, axis), At(ray.origin, axis), invDirection);
    var t1 := CrossingTime(At(b.max, axis), At(ray.origin, axis), invDirection);
    if invDirection < 0.0 then (t1, t0) else (t0, t1)
  }

  /**
   * What the loop of `hit` returns once it reaches axis `axis` with the window
   * (tMin, tMax): `t_min = t0.min(t_min)`, `t_max = t1.max(t_max)`, false as soon as
   * `t_max <= t_min`, true after the last axis.
   */
  function SlabsFrom(b: Aabb, ray: Ray, axis: nat, tMin: real, tMax: real): bool
    requires axis <= 3 && NonZeroDirection(ray)
    decreases 3 - axis
  {
    if axis == 3 then true
    else
      var (t0, t1) := SlabTimes(b, ray, axis);
      var lo := Min(t0, tMin);
      var hi := Max(t1, tMax);
      if hi <= lo then false else SlabsFrom(b, ray, axis + 1, lo, hi)
  }

  /** `AABB::hit`: the slab loop over the axes 0, 1, 2. */
  method Hit(b: Aabb, ray: Ray, tMin: real, tMax: real) returns (hit: bool)
    requires NonZeroDirection(ray)
    ensures hit == SlabsFrom(b, ray, 0, tMin, tMax)
  {
    var lo, hi := tMin, tMax;
    for a := 0 to 3
      invariant SlabsFrom(b, ray, a, lo, hi) == SlabsFrom(b, ray, 0, tMin, tMax)
    {
      var invDirection := Recip(At(ray.direction, a));
      var t0 := CrossingTime(At(b.min, a), At(ray.origin, a), invDirection);
      var t1 := CrossingTime(At(b.max, a), At(ray.origin, a), invDirection);
      if invDirection < 0.0 {
        t0, t1 := t1, t0;
      }
      assert (t0, t1) == SlabTimes(b, ray, a);
      lo := Min(t0, lo);
      hi := Max(t1, hi);
      if hi <= lo {
        return false;
      }
    }
    return true;
  }

  /** One axis of `hit` never narrows the window: `t_min` never rises, `t_max` never falls. */
  lemma SlabWidens(t0: real, t1: real, tMin: real, tMax: real)
    ensures Min(t0, tMin) <= tMin && tMax <= Max(t1, tMax)
  {
  }

  /** As written, `hit` accepts every ray whose window is open on entry: it never prunes. */
  lemma {:induction false} HitNeverPrunes(b: Aabb, ray: Ray, axis: nat, tMin: real, tMax: real)
    requires axis <= 3 && NonZeroDirection(ray)
    requires tMin < tMax
    ensures SlabsFrom(b, ray, axis, tMin, tMax)
    decreases 3 - axis
  {
    if axis < 3 {
      var (t0, t1) := SlabTimes(b, ray, axis);
      SlabWidens(t0, t1, tMin, tMax);
      HitNeverPrunes(b, ray, axis + 1, Min(t0, tMin), Max(t1, tMax));
    }
  }

  /** `hit` returns false only when the window it was given is empty or inverted. */
  lemma HitFalseOnlyWhenClosed(b: Aabb, ray: Ray, tMin: real, tMax: real)
    requires NonZeroDirection(ray)
    requires !SlabsFrom(b, ray, 0, tMin, tMax)
    ensures tMax <= tMin
  {
    if tMin < tMax {
      HitNeverPrunes(b, ray, 0, tMin, tMax);
    }
  }

  lemma ScaleMonotone(u: real, v: real, k: real)
    requires u <= v
    ensures k > 0.0 ==> u * k <= v * k
    ensures k < 0.0 ==> v * k <= u * k
  {
  }

  /** On an ordered box, the swap leaves the entry time at or before the exit time. */
  lemma SlabTimesOrdered(b: Aabb, ray: Ray, axis: nat)
    requires axis < 3 && NonZeroDirection(ray)
    requires At(b.min, axis) <= At(b.max, axis)
    ensures SlabTimes(b, ray, axis).0 <= SlabTimes(b, ray, axis).1
  {
    var invDirection := Recip(At(ray.direction, axis));
    ScaleMonotone(At(b.min, axis) - At(ray.origin, axis), At(b.max, axis) - At(ray.origin, axis), invDirection);
    assert invDirection != 0.0;
  }
}
