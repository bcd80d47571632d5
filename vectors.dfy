/** Optional values, as Rust's `Option`. */
module Options {
  datatype Option<T> = None | Some(value: T)
}

/**
 * Exact (real-valued) three-component vectors and rays. Floating-point rounding is not
 * modelled; square roots and `unit_vector` are supplied by the caller as functions.
 */
module Vectors {
  import opened Options

  datatype Vec3 = Vec3(x: real, y: real, z: real)

  const Zero: Vec3 := Vec3(0.0, 0.0, 0.0)
  const One: Vec3 := Vec3(1.0, 1.0, 1.0)

  function Add(a: Vec3, b: Vec3): Vec3 { Vec3(a.x + b.x, a.y + b.y, a.z + b.z) }
  function Sub(a: Vec3, b: Vec3): Vec3 { Vec3(a.x - b.x, a.y - b.y, a.z - b.z) }
  function Neg(a: Vec3): Vec3 { Vec3(-a.x, -a.y, -a.z) }
  function Scale(a: Vec3, k: real): Vec3 { Vec3(a.x * k, a.y * k, a.z * k) }
  function Div(a: Vec3, k: real): Vec3 requires k != 0.0 { Vec3(a.x / k, a.y / k, a.z / k) }
  /** Componentwise product (`Vec3 * Vec3` in the source). */
  function Mul(a: Vec3, b: Vec3): Vec3 { Vec3(a.x * b.x, a.y * b.y, a.z * b.z) }
  function Dot(a: Vec3, b: Vec3): real { a.x * b.x + a.y * b.y + a.z * b.z }

  /** Component `axis` (0, 1 or 2), as `v[axis]`. */
  function At(v: Vec3, axis: nat): real
    requires axis < 3
  {
    if axis == 0 then v.x else if axis == 1 then v.y else v.z
  }

  /** `sqrt` is a square root on the non-negative reals. */
  ghost predicate IsSqrt(sqrt: real -> real)
  {
    forall u :: 0.0 <= u ==> 0.0 <= sqrt(u) && sqrt(u) * sqrt(u) == u
  }

  function Length(v: Vec3, sqrt: real -> real): real { sqrt(Dot(v, v)) }

  /** `v.reflect(n)`: mirror `v` about the plane with normal `n`. */
  function Reflect(v: Vec3, n: Vec3): Vec3 { Sub(v, Scale(Scale(n, 2.0), Dot(v, n))) }

  /** `v.refract(n, ni_over_nt)`: Snell refraction of the unit direction of `v`, if any. */
  function Refract(v: Vec3, n: Vec3, niOverNt: real, unit: Vec3 -> Vec3, sqrt: real -> real): Option<Vec3>
  {
    var uv := unit(v);
    var dt := Dot(uv, n);
    var discriminant := 1.0 - niOverNt * niOverNt * (1.0 - dt * dt);
    if discriminant > 0.0 then
      Some(Sub(Scale(Sub(uv, Scale(n, dt)), niOverNt), Scale(n, sqrt(discriminant))))
    else
      None
  }

  datatype Ray = Ray(origin: Vec3, direction: Vec3, time: real)

  /** The default ray: zero origin, zero direction, time 0. */
  const DefaultRay: Ray := Ray(Zero, Zero, 0.0)

  /** `point_at_parameter`: origin + t * direction. */
  function PointAt(ray: Ray, t: real): Vec3 { Add(ray.origin, Scale(ray.direction, t)) }

  lemma SquareNonNegative(u: real)
    ensures !(u * u < 0.0)
  {
    if u < 0.0 {
      var w := -u;
      assert w * w > 0.0;
      assert u * u == w * w;
    }
  }

  /** Cauchy-Schwarz, via Lagrange's identity. */
  lemma CauchySchwarz(a: Vec3, b: Vec3)
    ensures Dot(a, b) * Dot(a, b) <= Dot(a, a) * Dot(b, b)
  {
    var cx := a.y * b.z - a.z * b.y;
    var cy := a.z * b.x - a.x * b.z;
    var cz := a.x * b.y - a.y * b.x;
    assert Dot(a, a) * Dot(b, b) - Dot(a, b) * Dot(a, b) == cx * cx + cy * cy + cz * cz;
    SquareNonNegative(cx);
    SquareNonNegative(cy);
    SquareNonNegative(cz);
  }

  lemma DotSelfNonNegative(v: Vec3)
    ensures !(Dot(v, v) < 0.0)
  {
    SquareNonNegative(v.x);
    SquareNonNegative(v.y);
    SquareNonNegative(v.z);
  }

  /** Reflection about a unit normal flips the component along the normal. */
  lemma ReflectFlipsNormal(v: Vec3, n: Vec3)
    requires Dot(n, n) == 1.0
    ensures Dot(Reflect(v, n), n) == -Dot(v, n)
  {
    var k := Dot(v, n);
    assert Dot(Reflect(v, n), n) == k - 2.0 * k * Dot(n, n);
  }

  /** Reflection about a unit normal keeps the length. */
  lemma ReflectKeepsLength(v: Vec3, n: Vec3)
    requires Dot(n, n) == 1.0
    ensures Dot(Reflect(v, n), Reflect(v, n)) == Dot(v, v)
  {
    var k := Dot(v, n);
    assert Dot(Reflect(v, n), Reflect(v, n)) == Dot(v, v) - 4.0 * k * k + 4.0 * k * k * Dot(n, n);
  }
}
