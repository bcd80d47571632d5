/**
 * The depth-bounded integrator `color` (the same function in `chunk.rs` and `main.rs`).
 * The scene query and the material scatter are parameters: `scene(ray, tMin, tMax)` is
 * `scene.hit`, and `scatter(ray, rec, depth)` is `rec.material.scatter` at bounce `depth`,
 * with that bounce's random draws built in.
 */
module Render {
  import opened Options
  import opened Vectors
  import opened Materials

  /** `MAX_DEPTH`. */
  const MaxDepth: nat := 50
  /** The lower end of every scene query. */
  const TMin: real := 0.001
  /** `std::f32::MAX`, (2 - 2^-23) * 2^127, the upper end of every scene query. */
  const F32Max: real := 340282346638528859811704183484516925440.0

  type SceneQuery = (Ray, real, real) -> Option<HitRecord>
  type ScatterOracle = (Ray, HitRecord, nat) -> Option<Scattered>

  /**
   * The background of a ray that misses: white blended towards (0.5, 0.7, 1.0) as the unit
   * direction turns upwards. Blue is always 1, and red and green stay in [0.5, 1] and [0.7, 1].
   */
  function Sky(ray: Ray, unit: Vec3 -> Vec3): (c: Vec3)
    ensures c.z == 1.0
    ensures -1.0 <= unit(ray.direction).y <= 1.0 ==> 0.5 <= c.x <= 1.0 && 0.7 <= c.y <= 1.0
    ensures unit(ray.direction).y == 1.0 ==> c == Vec3(0.5, 0.7, 1.0)
    ensures unit(ray.direction).y == -1.0 ==> c == One
  {
    var t := 0.5 * (unit(ray.direction).y + 1.0);
    Add(Scale(One, 1.0 - t), Scale(Vec3(0.5, 0.7, 1.0), t))
  }

  /**
   * `color(ray, scene, depth)`: the sky on a miss; on a hit below the depth cap the
   * attenuation times the color of the scattered ray one level deeper, black when the
   * material absorbs the ray; black on any hit at or beyond the cap.
   */
  function Color(ray: Ray, depth: nat, scene: SceneQuery, scatter: ScatterOracle, unit: Vec3 -> Vec3): (c: Vec3)
    decreases MaxDepth - depth
    ensures scene(ray, TMin, F32Max).None? ==> c == Sky(ray, unit)
    ensures scene(ray, TMin, F32Max).Some? && MaxDepth <= depth ==> c == Zero
  {
    match scene(ray, TMin, F32Max)
    case None => Sky(ray, unit)
    case Some(rec) =>
      if depth < MaxDepth then
        match scatter(ray, rec, depth)
        case Some(s) => Mul(s.attenuation, Color(s.ray, depth + 1, scene, scatter, unit))
        case None => Zero
      else Zero
  }

  /** How many times `color` calls `scatter` before it returns. */
  function Bounces(ray: Ray, depth: nat, scene: SceneQuery, scatter: ScatterOracle): nat
    decreases MaxDepth - depth
  {
    match scene(ray, TMin, F32Max)
    case None => 0
    case Some(rec) =>
      if depth < MaxDepth then
        match scatter(ray, rec, depth)
        case Some(s) => 1 + Bounces(s.ray, depth + 1, scene, scatter)
        case None => 1
      else 0
  }

  /** From depth d, `color` scatters at most `MAX_DEPTH - d` times, and never at or beyond the cap. */
  lemma {:induction false} BouncesBounded(ray: Ray, depth: nat, scene: SceneQuery, scatter: ScatterOracle)
    ensures depth <= MaxDepth ==> Bounces(ray, depth, scene, scatter) <= MaxDepth - depth
    ensures MaxDepth <= depth ==> Bounces(ray, depth, scene, scatter) == 0
    decreases MaxDepth - depth
  {
    match scene(ray, TMin, F32Max)
    case None =>
    case Some(rec) =>
      if depth < MaxDepth {
        match scatter(ray, rec, depth)
        case Some(s) => BouncesBounded(s.ray, depth + 1, scene, scatter);
        case None =>
      }
  }

  /**
   * `color` queries the scene only with the window (0.001, f32::MAX): two scenes that agree
   * on that window give the same color.
   */
  lemma {:induction false} ColorUsesFixedWindow(ray: Ray, depth: nat, scene: SceneQuery, scene': SceneQuery,
                                                scatter: ScatterOracle, unit: Vec3 -> Vec3)
    requires forall r :: scene(r, TMin, F32Max) == scene'(r, TMin, F32Max)
    ensures Color(ray, depth, scene, scatter, unit) == Color(ray, depth, scene', scatter, unit)
    decreases MaxDepth - depth
  {
    match scene(ray, TMin, F32Max)
    case None =>
    case Some(rec) =>
      if depth < MaxDepth {
        match scatter(ray, rec, depth)
        case Some(s) => ColorUsesFixedWindow(s.ray, depth + 1, scene, scene', scatter, unit);
        case None =>
      }
  }

  /**
   * `color` from depth d consults `scatter` only at depths in [d, MAX_DEPTH): two
   * scatters that agree there give the same color. From a depth at the cap, where the
   * range is empty, `scatter` is never consulted.
   */
  lemma {:induction false} ScatterOnlyBelowCap(ray: Ray, depth: nat, scene: SceneQuery,
                                              scatter: ScatterOracle, scatter': ScatterOracle, unit: Vec3 -> Vec3)
    requires forall r, rec, d | depth <= d < MaxDepth :: scatter(r, rec, d) == scatter'(r, rec, d)
    ensures Color(ray, depth, scene, scatter, unit) == Color(ray, depth, scene, scatter', unit)
    ensures Bounces(ray, depth, scene, scatter) == Bounces(ray, depth, scene, scatter')
    decreases MaxDepth - depth
  {
    match scene(ray, TMin, F32Max)
    case None =>
    case Some(rec) =>
      if depth < MaxDepth {
        match scatter(ray, rec, depth)
        case Some(s) => ScatterOnlyBelowCap(s.ray, depth + 1, scene, scatter, scatter', unit);
        case None =>
      }
  }

  /** A hit whose material absorbs the ray is black, after exactly one scatter. */
  lemma AbsorbedIsBlack(ray: Ray, depth: nat, scene: SceneQuery, scatter: ScatterOracle, unit: Vec3 -> Vec3)
    requires depth < MaxDepth && scene(ray, TMin, F32Max).Some?
    requires scatter(ray, scene(ray, TMin, F32Max).value, depth).None?
    ensures Color(ray, depth, scene, scatter, unit) == Zero
    ensures Bounces(ray, depth, scene, scatter) == 1
  {
  }
}
