/**
 * Hit records and the scatter rules of the three materials. Random vectors
 * (`random_in_unit_sphere`), the uniform draw (`random()`), `unit_vector` and square
 * roots are parameters.
 */
module Materials {
  import opened Options
  import opened Vectors
  import opened Boxes

  datatype Material =
    | Lambertian(albedo: Vec3)
    | Metal(albedo: Vec3, fuzz: real)
    | Dielectric(refIdx: real)

  /** What a hittable reports for a hit: parameter, point, normal and the material hit. */
  datatype HitRecord = HitRecord(t: real, p: Vec3, normal: Vec3, material: Material)

  /**
   * A hit seen through a lower tMax: kept when its parameter is still below the bound,
   * dropped otherwise. A hittable that always reports its least parameter in the window
   * satisfies `hit(ray, tMin, tMax') == Clip(hit(ray, tMin, tMax), tMax')` for tMax' <= tMax.
   */
  function Clip(r: Option<HitRecord>, tMax: real): (c: Option<HitRecord>)
    ensures c.Some? <==> r.Some? && r.value.t < tMax
    ensures c.Some? ==> c == r
  {
    if r.Some? && r.value.t < tMax then r else None
  }

  /** The `(attenuation, scattered)` pair a material returns. */
  datatype Scattered = Scattered(attenuation: Vec3, ray: Ray)

  /** `Metal::new`: the fuzz is clamped from above by 1, and only from above. */
  function MetalNew(albedo: Vec3, f: real): (m: Material)
    ensures m.Metal? && m.albedo == albedo
    ensures m.fuzz <= 1.0
    ensures m.fuzz == f || (1.0 < f && m.fuzz == 1.0)
  {
    Metal(albedo, Min(f, 1.0))
  }

  /** `Lambertian::scatter`: always scatters, towards `normal + inUnitSphere`. */
  function LambertianScatter(albedo: Vec3, ray: Ray, rec: HitRecord, inUnitSphere: Vec3): (r: Option<Scattered>)
    ensures r.Some? && r.value.attenuation == albedo
    ensures r.value.ray.origin == rec.p && r.value.ray.time == ray.time
    ensures r.value.ray.direction == Add(rec.normal, inUnitSphere)
  {
    var target := Add(Add(rec.p, rec.normal), inUnitSphere);
    Some(Scattered(albedo, Ray(rec.p, Sub(target, rec.p), ray.time)))
  }

  /**
   * `Metal::scatter`: reflect the unit incoming direction about the normal, add
   * `inUnitSphere * fuzz`, and absorb the ray unless it leaves on the normal's side.
   */
  function MetalScatter(albedo: Vec3, fuzz: real, ray: Ray, rec: HitRecord, inUnitSphere: Vec3,
                        unit: Vec3 -> Vec3): (r: Option<Scattered>)
    ensures var direction := Add(Reflect(unit(ray.direction), rec.normal), Scale(inUnitSphere, fuzz));
      && (r.None? <==> Dot(direction, rec.normal) <= 0.0)
      && (r.Some? ==> r.value == Scattered(albedo, Ray(rec.p, direction, ray.time)))
  {
    var reflected := Reflect(unit(ray.direction), rec.normal);
    var scattered := Ray(rec.p, Add(reflected, Scale(inUnitSphere, fuzz)), ray.time);
    if Dot(scattered.direction, rec.normal) > 0.0 then Some(Scattered(albedo, scattered)) else None
  }

  function Pow5(u: real): real { u * u * u * u * u }

  /** `Dielectric::schlick`: Schlick's approximation of the reflectance. */
  function Schlick(refIdx: real, cosine: real): real
    requires refIdx != -1.0
  {
    var r0 := (1.0 - refIdx) / (1.0 + refIdx);
    var r0Squared := r0 * r0;
    r0Squared + (1.0 - r0Squared) * Pow5(1.0 - cosine)
  }

  /** Schlick's reflectance is 1 at grazing incidence (cosine 0). */
  lemma SchlickGrazing(refIdx: real)
    requires refIdx != -1.0
    ensures Schlick(refIdx, 0.0) == 1.0
  {
    assert Pow5(1.0) == 1.0;
  }

  /** The outward normal, `ni_over_nt` and cosine `Dielectric::scatter` picks for a ray. */
  datatype Interface = Interface(outwardNormal: Vec3, niOverNt: real, cosine: real)

  /**
   * A ray leaving the surface (`dot(direction, normal) > 0`) sees `(-normal, ref_idx)`,
   * any other ray `(normal, 1 / ref_idx)`; the outward normal always faces the ray.
   */
  function DielectricInterface(refIdx: real, ray: Ray, rec: HitRecord, sqrt: real -> real): (f: Interface)
    requires refIdx != 0.0 && Length(ray.direction, sqrt) != 0.0
    ensures Dot(ray.direction, rec.normal) > 0.0 ==> f.niOverNt == refIdx
    ensures !(Dot(ray.direction, rec.normal) > 0.0) ==> f.niOverNt * refIdx == 1.0
    ensures Dot(ray.direction, rec.normal) > 0.0 ==> f.outwardNormal == Neg(rec.normal)
    ensures !(Dot(ray.direction, rec.normal) > 0.0) ==> f.outwardNormal == rec.normal
    ensures Dot(ray.direction, f.outwardNormal) <= 0.0
  {
    var d := ray.direction;
    var dt := Dot(d, rec.normal);
    DotNeg(d, rec.normal);
    if dt > 0.0 then
      Interface(Neg(rec.normal), refIdx, dt * refIdx / Length(d, sqrt))
    else
      Interface(rec.normal, 1.0 / refIdx, -dt / Length(d, sqrt))
  }

  lemma DotNeg(a: Vec3, b: Vec3)
    ensures Dot(a, Neg(b)) == -Dot(a, b)
  {
  }

  /**
   * `Dielectric::scatter`: attenuation is always (1, 1, 1); when refraction is possible,
   * reflect if the draw is below Schlick's reflectance and refract otherwise; when it is not
   * (total internal reflection) the continuation is the default ray.
   */
  function DielectricScatter(refIdx: real, ray: Ray, rec: HitRecord, draw: real,
                             unit: Vec3 -> Vec3, sqrt: real -> real): (r: Option<Scattered>)
    requires refIdx != 0.0 && refIdx != -1.0 && Length(ray.direction, sqrt) != 0.0
    ensures r.Some? && r.value.attenuation == One
    ensures var f := DielectricInterface(refIdx, ray, rec, sqrt);
      match Refract(ray.direction, f.outwardNormal, f.niOverNt, unit, sqrt)
      case None => r.value.ray == DefaultRay
      case Some(refracted) =>
        && r.value.ray.origin == rec.p && r.value.ray.time == ray.time
        && (draw < Schlick(refIdx, f.cosine) ==> r.value.ray.direction == Reflect(ray.direction, rec.normal))
        && (!(draw < Schlick(refIdx, f.cosine)) ==> r.value.ray.direction == refracted)
  {
    var d := ray.direction;
    var reflected := Reflect(d, rec.normal);
    var f := DielectricInterface(refIdx, ray, rec, sqrt);
    match Refract(d, f.outwardNormal, f.niOverNt, unit, sqrt)
    case Some(refracted) =>
      if draw < Schlick(refIdx, f.cosine) then Some(Scattered(One, Ray(rec.p, reflected, ray.time)))
      else Some(Scattered(One, Ray(rec.p, refracted, ray.time)))
    case None => Some(Scattered(One, DefaultRay))
  }

  /** What the scatter of a material needs besides the ray and the record. */
  datatype ScatterInputs = ScatterInputs(inUnitSphere: Vec3, draw: real, unit: Vec3 -> Vec3, sqrt: real -> real)

  /** A material whose scatter is defined: Dielectric needs a usable index and a non-zero ray. */
  predicate CanScatter(m: Material, ray: Ray, sqrt: real -> real)
  {
    m.Dielectric? ==> m.refIdx != 0.0 && m.refIdx != -1.0 && Length(ray.direction, sqrt) != 0.0
  }

  /** `rec.material.scatter(ray, rec)`. */
  function Scatter(ray: Ray, rec: HitRecord, env: ScatterInputs): (r: Option<Scattered>)
    requires CanScatter(rec.material, ray, env.sqrt)
    ensures r.None? ==> rec.material.Metal?
    ensures r.Some? ==> r.value.ray == DefaultRay || (r.value.ray.origin == rec.p && r.value.ray.time == ray.time)
  {
    match rec.material
    case Lambertian(albedo) => LambertianScatter(albedo, ray, rec, env.inUnitSphere)
    case Metal(albedo, fuzz) => MetalScatter(albedo, fuzz, ray, rec, env.inUnitSphere, env.unit)
    case Dielectric(refIdx) => DielectricScatter(refIdx, ray, rec, env.draw, env.unit, env.sqrt)
  }

  /**
   * A metal without fuzz hit by a unit ray on a unit normal scatters exactly when the ray
   * arrives against the normal: mirror reflection flips the normal component.
   */
  lemma MirrorMetalScatters(albedo: Vec3, ray: Ray, rec: HitRecord, inUnitSphere: Vec3, unit: Vec3 -> Vec3)
    requires Dot(rec.normal, rec.normal) == 1.0
    ensures MetalScatter(albedo, 0.0, ray, rec, inUnitSphere, unit).Some? <==> Dot(unit(ray.direction), rec.normal) < 0.0
  {
    var u := unit(ray.direction);
    ReflectFlipsNormal(u, rec.normal);
    var z := Scale(inUnitSphere, 0.0);
    assert z == Zero;
    assert Add(Reflect(u, rec.normal), z) == Reflect(u, rec.normal);
  }
}
