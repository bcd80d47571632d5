/**
 * Ray-sphere intersection for static and moving spheres: the discriminant test, the
 * choice between the two roots of the quadratic, and the moving sphere's bounding box.
 */
module Spheres {
  import opened Options
  import opened Vectors
  import opened Boxes
  import opened Materials

  datatype Sphere = Sphere(center: Vec3, radius: real, material: Material)

  datatype MovingSphere = MovingSphere(
    initialCenter: Vec3, finalCenter: Vec3,
    initialTime: real, finalTime: real,
    radius: real, material: Material)

  /**
   * The root both sphere kinds pick: the smaller root `near` if it lies strictly inside
   * (tMin, tMax), else the larger root `far` if it does, else none.
   */
  function PickRoot(near: real, far: real, tMin: real, tMax: real): (r: Option<real>)
    ensures r.Some? ==> tMin < r.value < tMax
    ensures r.Some? ==> r.value == near || r.value == far
    ensures tMin < near < tMax ==> r == Some(near)
    ensures r.None? <==> !(tMin < near < tMax) && !(tMin < far < tMax)
  {
    if near < tMax && near > tMin then Some(near)
    else if far < tMax && far > tMin then Some(far)
    else None
  }

  /** With the roots in order, the root picked is the least root inside the window. */
  lemma PickRootLeast(near: real, far: real, tMin: real, tMax: real, t: real)
    requires near <= far
    requires PickRoot(near, far, tMin, tMax).Some?
    requires (t == near || t == far) && tMin < t < tMax
    ensures PickRoot(near, far, tMin, tMax).value <= t
  {
  }

  /**
   * With the roots in order, lowering tMax keeps the root picked if it is still inside the
   * window and gives none otherwise.
   */
  lemma PickRootShrink(near: real, far: real, tMin: real, tMax: real, tMax': real)
    requires near <= far && tMax' <= tMax
    ensures PickRoot(near, far, tMin, tMax') ==
      (var r := PickRoot(near, far, tMin, tMax); if r.Some? && r.value < tMax' then r else None)
  {
  }

  /**
   * When `b * b > a * c'` for a true half-b quadratic of the ray (a = d.d, b = oc.d,
   * c' = oc.oc - r * r, for any c' not above oc.oc), the direction is not zero.
   */
  lemma LeadingPositive(oc: Vec3, d: Vec3, c: real)
    requires c <= Dot(oc, oc)
    requires Dot(oc, d) * Dot(oc, d) - Dot(d, d) * c > 0.0
    ensures Dot(d, d) > 0.0
  {
    var k := Dot(oc, d);
    var a := Dot(d, d);
    CauchySchwarz(oc, d);
    DotSelfNonNegative(d);
    Positive(a, k * k, Dot(oc, oc), c);
  }

  lemma Positive(a: real, k2: real, o: real, c: real)
    requires !(a < 0.0) && k2 <= o * a && k2 - a * c > 0.0
    ensures a > 0.0
  {
  }

  lemma DivideMonotone(u: real, v: real, k: real)
    requires u <= v && k > 0.0
    ensures u / k <= v / k
  {
  }

  /** The half-b quadratic `a t^2 + 2 b t + c = 0` holds at its roots `(-b -+ s) / a`. */
  lemma HalfRootSolves(a: real, b: real, c: real, s: real, t: real)
    requires a != 0.0 && s * s == b * b - a * c
    requires t == (-b - s) / a || t == (-b + s) / a
    ensures a * t * t + 2.0 * b * t + c == 0.0
  {
    var u := a * t;
    assert u == -b - s || u == -b + s;
    assert (u + b) * (u + b) == s * s;
    assert a * (a * t * t + 2.0 * b * t + c) == (u + b) * (u + b) - (b * b - a * c);
    NonZeroFactor(a, a * t * t + 2.0 * b * t + c);
  }

  /** The full-b quadratic `a t^2 + b t + c = 0` holds at its roots `(-b -+ s) / 2a`. */
  lemma FullRootSolves(q: Quadratic, s: real, t: real)
    requires q.a != 0.0 && s * s == FullDiscriminant(q)
    requires t == FullNear(q, s) || t == FullFar(q, s)
    ensures q.a * t * t + q.b * t + q.c == 0.0
  {
    var a, b, c := q.a, q.b, q.c;
    var u := 2.0 * a * t;
    assert u == -b - s || u == -b + s;
    assert (u + b) * (u + b) == s * s;
    assert 4.0 * a * (a * t * t + b * t + c) == (u + b) * (u + b) - (b * b - 4.0 * a * c);
    NonZeroFactor(4.0 * a, a * t * t + b * t + c);
  }

  lemma NonZeroFactor(a: real, y: real)
    requires a != 0.0 && a * y == 0.0
    ensures y == 0.0
  {
  }

  /** The point `oc + t d` is at distance r from the centre exactly when t solves the quadratic. */
  lemma OnSphere(oc: Vec3, d: Vec3, t: real, r: real)
    ensures Dot(Add(oc, Scale(d, t)), Add(oc, Scale(d, t))) - r * r
      == Dot(d, d) * t * t + (2.0 * Dot(oc, d)) * t + (Dot(oc, oc) - r * r)
  {
  }

  lemma PointOffset(ray: Ray, center: Vec3, t: real)
    ensures Sub(PointAt(ray, t), center) == Add(Sub(ray.origin, center), Scale(ray.direction, t))
  {
  }

  /** The record of a hit at parameter t on a sphere centred at `center`. */
  function SphereRecord(center: Vec3, radius: real, material: Material, ray: Ray, t: real): HitRecord
    requires radius != 0.0
  {
    var p := PointAt(ray, t);
    HitRecord(t, p, Div(Sub(p, center), radius), material)
  }

  /** The coefficients of a quadratic in the ray parameter t. */
  datatype Quadratic = Quadratic(a: real, b: real, c: real)

  /** `Sphere::hit`'s quadratic: a = d.d, b = 2 oc.d, c = oc.oc - r * r. */
  function FullQuadratic(center: Vec3, radius: real, ray: Ray): Quadratic
  {
    var oc := Sub(ray.origin, center);
    Quadratic(Dot(ray.direction, ray.direction), 2.0 * Dot(oc, ray.direction), Dot(oc, oc) - radius * radius)
  }

  function FullDiscriminant(q: Quadratic): real { q.b * q.b - 4.0 * q.a * q.c }

  /** The roots `(-b - root) / 2a` and `(-b + root) / 2a` of a full-b quadratic. */
  function FullNear(q: Quadratic, root: real): real requires q.a != 0.0 { (-q.b - root) / (2.0 * q.a) }
  function FullFar(q: Quadratic, root: real): real requires q.a != 0.0 { (-q.b + root) / (2.0 * q.a) }

  /** `Sphere::hit`: full-b quadratic, discriminant `b * b - 4 a c`, roots `(-b -+ sqrt) / 2a`. */
  function SphereHit(s: Sphere, ray: Ray, tMin: real, tMax: real, sqrt: real -> real): (r: Option<HitRecord>)
    requires s.radius != 0.0
    ensures r.Some? ==> tMin < r.value.t < tMax
    ensures r.Some? ==> r.value == SphereRecord(s.center, s.radius, s.material, ray, r.value.t)
  {
    var q := FullQuadratic(s.center, s.radius, ray);
    var discriminant := FullDiscriminant(q);
    if discriminant > 0.0 then
      FullLeadingPositive(s.center, s.radius, ray);
      var near := FullNear(q, sqrt(discriminant));
      var far := FullFar(q, sqrt(discriminant));
      match PickRoot(near, far, tMin, tMax)
      case Some(t) => Some(SphereRecord(s.center, s.radius, s.material, ray, t))
      case None => None
    else
      None
  }

  /** The discriminant test of `Sphere::hit` implies a non-zero direction. */
  lemma FullLeadingPositive(center: Vec3, radius: real, ray: Ray)
    requires FullDiscriminant(FullQuadratic(center, radius, ray)) > 0.0
    ensures FullQuadratic(center, radius, ray).a > 0.0
  {
    var oc := Sub(ray.origin, center);
    var d := ray.direction;
    var k := Dot(oc, d);
    var c := Dot(oc, oc) - radius * radius;
    SquareNonNegative(radius);
    assert (2.0 * k) * (2.0 * k) == 4.0 * (k * k);
    assert 4.0 * (k * k - Dot(d, d) * c) > 0.0;
    LeadingPositive(oc, d, c);
  }

  /** No hit unless the discriminant is positive. */
  lemma SphereMissWithoutDiscriminant(s: Sphere, ray: Ray, tMin: real, tMax: real, sqrt: real -> real)
    requires s.radius != 0.0
    requires FullDiscriminant(FullQuadratic(s.center, s.radius, ray)) <= 0.0
    ensures SphereHit(s, ray, tMin, tMax, sqrt).None?
  {
  }

  /**
   * A hit lies on the sphere: the distance from the centre to the point is the radius,
   * so the normal `(p - center) / radius` has unit length.
   */
  lemma SphereHitOnSurface(s: Sphere, ray: Ray, tMin: real, tMax: real, sqrt: real -> real)
    requires s.radius != 0.0 && IsSqrt(sqrt)
    requires SphereHit(s, ray, tMin, tMax, sqrt).Some?
    ensures var h := SphereHit(s, ray, tMin, tMax, sqrt).value;
      Dot(Sub(h.p, s.center), Sub(h.p, s.center)) == s.radius * s.radius
  {
    var h := SphereHit(s, ray, tMin, tMax, sqrt).value;
    var q := FullQuadratic(s.center, s.radius, ray);
    SphereHitIsRoot(s, ray, tMin, tMax, sqrt);
    SqrtSquare(sqrt, FullDiscriminant(q));
    FullRootSolves(q, sqrt(FullDiscriminant(q)), h.t);
    FullRootOnSurface(s.center, s.radius, ray, h.t);
  }

  lemma SqrtSquare(sqrt: real -> real, u: real)
    requires IsSqrt(sqrt) && 0.0 <= u
    ensures sqrt(u) * sqrt(u) == u
  {
  }

  /** A hit of `Sphere::hit` is at one of the two roots, and the discriminant was positive. */
  lemma SphereHitIsRoot(s: Sphere, ray: Ray, tMin: real, tMax: real, sqrt: real -> real)
    requires s.radius != 0.0
    requires SphereHit(s, ray, tMin, tMax, sqrt).Some?
    ensures var q := FullQuadratic(s.center, s.radius, ray);
      var root := sqrt(FullDiscriminant(q));
      var t := SphereHit(s, ray, tMin, tMax, sqrt).value.t;
      && FullDiscriminant(q) > 0.0 && q.a > 0.0
      && (t == FullNear(q, root) || t == FullFar(q, root))
  {
    FullLeadingPositive(s.center, s.radius, ray);
  }

  /** A root of `Sphere::hit`'s quadratic gives a point at distance `radius` from the centre. */
  lemma FullRootOnSurface(center: Vec3, radius: real, ray: Ray, t: real)
    requires var q := FullQuadratic(center, radius, ray); q.a * t * t + q.b * t + q.c == 0.0
    ensures Dot(Sub(PointAt(ray, t), center), Sub(PointAt(ray, t), center)) == radius * radius
  {
    PointOffset(ray, center, t);
    OnSphere(Sub(ray.origin, center), ray.direction, t, radius);
  }

  /** With a positive leading coefficient and a real square root, the near root is the smaller. */
  lemma FullRootsOrdered(q: Quadratic, sqrt: real -> real)
    requires IsSqrt(sqrt) && q.a > 0.0 && FullDiscriminant(q) > 0.0
    ensures FullNear(q, sqrt(FullDiscriminant(q))) <= FullFar(q, sqrt(FullDiscriminant(q)))
  {
    var root := sqrt(FullDiscriminant(q));
    assert 0.0 <= root;
    DivideMonotone(-q.b - root, -q.b + root, 2.0 * q.a);
  }

  /**
   * `Sphere::hit` reports the least root in the window: lowering tMax keeps the hit while
   * it is still below the bound and gives none otherwise.
   */
  lemma SphereHitClip(s: Sphere, ray: Ray, tMin: real, tMax: real, tMax': real, sqrt: real -> real)
    requires s.radius != 0.0 && IsSqrt(sqrt) && tMax' <= tMax
    ensures SphereHit(s, ray, tMin, tMax', sqrt) == Clip(SphereHit(s, ray, tMin, tMax, sqrt), tMax')
  {
    var q := FullQuadratic(s.center, s.radius, ray);
    var discriminant := FullDiscriminant(q);
    if discriminant > 0.0 {
      FullLeadingPositive(s.center, s.radius, ray);
      FullRootsOrdered(q, sqrt);
      var root := sqrt(discriminant);
      PickRootShrink(FullNear(q, root), FullFar(q, root), tMin, tMax, tMax');
    }
  }

  /** `MovingSphere::center`: linear interpolation between the two centres over the two times. */
  function Center(m: MovingSphere, time: real): Vec3
    requires m.finalTime != m.initialTime
  {
    Add(m.initialCenter,
        Scale(Sub(m.finalCenter, m.initialCenter), (time - m.initialTime) / (m.finalTime - m.initialTime)))
  }

  /** The centre is the initial centre at the initial time and the final centre at the final time. */
  lemma CenterEndpoints(m: MovingSphere)
    requires m.finalTime != m.initialTime
    ensures Center(m, m.initialTime) == m.initialCenter
    ensures Center(m, m.finalTime) == m.finalCenter
  {
    var span := m.finalTime - m.initialTime;
    var v := Sub(m.finalCenter, m.initialCenter);
    assert (m.initialTime - m.initialTime) / span == 0.0;
    assert span / span == 1.0;
    assert Scale(v, 0.0) == Zero;
    assert Scale(v, 1.0) == v;
  }

  /** `MovingSphere::hit`'s quadratic: a = d.d, b = oc.d, c = oc.oc - r * r. */
  function HalfQuadratic(center: Vec3, radius: real, ray: Ray): Quadratic
  {
    var oc := Sub(ray.origin, center);
    Quadratic(Dot(ray.direction, ray.direction), Dot(oc, ray.direction), Dot(oc, oc) - radius * radius)
  }

  function HalfDiscriminant(q: Quadratic): real { q.b * q.b - q.a * q.c }

  /** The roots `(-b - root) / a` and `(-b + root) / a` of a half-b quadratic. */
  function HalfNear(q: Quadratic, root: real): real requires q.a != 0.0 { (-q.b - root) / q.a }
  function HalfFar(q: Quadratic, root: real): real requires q.a != 0.0 { (-q.b + root) / q.a }

  /** The discriminant test of `MovingSphere::hit` implies a non-zero direction. */
  lemma HalfLeadingPositive(center: Vec3, radius: real, ray: Ray)
    requires HalfDiscriminant(HalfQuadratic(center, radius, ray)) > 0.0
    ensures HalfQuadratic(center, radius, ray).a > 0.0
  {
    SquareNonNegative(radius);
    LeadingPositive(Sub(ray.origin, center), ray.direction, Dot(Sub(ray.origin, center), Sub(ray.origin, center)) - radius * radius);
  }

  /**
   * `MovingSphere::hit`: the half-b quadratic around `center(ray.time())`, discriminant
   * `b * b - a c`, roots `(-b -+ sqrt) / a`; the normal uses the same centre.
   */
  function MovingSphereHit(m: MovingSphere, ray: Ray, tMin: real, tMax: real, sqrt: real -> real): (r: Option<HitRecord>)
    requires m.finalTime != m.initialTime && m.radius != 0.0
    ensures r.Some? ==> tMin < r.value.t < tMax
    ensures r.Some? ==> r.value == SphereRecord(Center(m, ray.time), m.radius, m.material, ray, r.value.t)
  {
    var q := HalfQuadratic(Center(m, ray.time), m.radius, ray);
    var discriminant := HalfDiscriminant(q);
    if discriminant > 0.0 then
      HalfLeadingPositive(Center(m, ray.time), m.radius, ray);
      var near := HalfNear(q, sqrt(discriminant));
      var far := HalfFar(q, sqrt(discriminant));
      match PickRoot(near, far, tMin, tMax)
      case Some(t) => Some(SphereRecord(Center(m, ray.time), m.radius, m.material, ray, t))
      case None => None
    else
      None
  }

  /** No hit unless `b * b - a c > 0`. */
  lemma MovingSphereMissWithoutDiscriminant(m: MovingSphere, ray: Ray, tMin: real, tMax: real, sqrt: real -> real)
    requires m.finalTime != m.initialTime && m.radius != 0.0
    requires HalfDiscriminant(HalfQuadratic(Center(m, ray.time), m.radius, ray)) <= 0.0
    ensures MovingSphereHit(m, ray, tMin, tMax, sqrt).None?
  {
  }

  /** The full-b discriminant is four times the half-b one. */
  lemma DiscriminantsAgree(center: Vec3, radius: real, ray: Ray)
    ensures FullDiscriminant(FullQuadratic(center, radius, ray)) == 4.0 * HalfDiscriminant(HalfQuadratic(center, radius, ray))
  {
    var h := HalfQuadratic(center, radius, ray);
    assert FullQuadratic(center, radius, ray) == Quadratic(h.a, 2.0 * h.b, h.c);
  }

  lemma SqrtOfFour(sqrt: real -> real, u: real)
    requires IsSqrt(sqrt) && u > 0.0
    ensures sqrt(4.0 * u) == 2.0 * sqrt(u)
  {
    var x := sqrt(4.0 * u);
    var y := 2.0 * sqrt(u);
    assert 0.0 <= x && 0.0 <= y;
    assert x * x == y * y;
    SameSquare(x, y);
  }

  lemma SameSquare(x: real, y: real)
    requires 0.0 <= x && 0.0 <= y && x * x == y * y
    ensures x == y
  {
    assert (x + y) * (x - y) == x * x - y * y;
    if x + y != 0.0 {
      NonZeroFactor(x + y, x - y);
    }
  }

  /** The half-b roots are the full-b roots. */
  lemma RootsAgree(center: Vec3, radius: real, ray: Ray, sqrt: real -> real)
    requires IsSqrt(sqrt)
    requires HalfDiscriminant(HalfQuadratic(center, radius, ray)) > 0.0
    ensures var h := HalfQuadratic(center, radius, ray);
      var f := FullQuadratic(center, radius, ray);
      && h.a > 0.0 && f.a == h.a
      && HalfNear(h, sqrt(HalfDiscriminant(h))) == FullNear(f, sqrt(FullDiscriminant(f)))
      && HalfFar(h, sqrt(HalfDiscriminant(h))) == FullFar(f, sqrt(FullDiscriminant(f)))
  {
    var h := HalfQuadratic(center, radius, ray);
    var f := FullQuadratic(center, radius, ray);
    HalfLeadingPositive(center, radius, ray);
    DiscriminantsAgree(center, radius, ray);
    SqrtOfFour(sqrt, HalfDiscriminant(h));
    assert f == Quadratic(h.a, 2.0 * h.b, h.c);
    var s := sqrt(HalfDiscriminant(h));
    HalveRoots(h.a, h.b, s);
  }

  lemma HalveRoots(a: real, b: real, s: real)
    requires a != 0.0
    ensures (-(2.0 * b) - 2.0 * s) / (2.0 * a) == (-b - s) / a
    ensures (-(2.0 * b) + 2.0 * s) / (2.0 * a) == (-b + s) / a
  {
  }

  /**
   * `MovingSphere::hit` is `Sphere::hit` on the sphere frozen at `center(ray.time())`:
   * the half-b formula finds the same roots as the full-b one.
   */
  lemma MovingSphereIsFrozenSphere(m: MovingSphere, ray: Ray, tMin: real, tMax: real, sqrt: real -> real)
    requires m.finalTime != m.initialTime && m.radius != 0.0 && IsSqrt(sqrt)
    ensures MovingSphereHit(m, ray, tMin, tMax, sqrt)
         == SphereHit(Sphere(Center(m, ray.time), m.radius, m.material), ray, tMin, tMax, sqrt)
  {
    var c := Center(m, ray.time);
    DiscriminantsAgree(c, m.radius, ray);
    if HalfDiscriminant(HalfQuadratic(c, m.radius, ray)) > 0.0 {
      RootsAgree(c, m.radius, ray, sqrt);
    }
  }

  /** `MovingSphere::hit` also reports the least root in the window. */
  lemma MovingSphereHitClip(m: MovingSphere, ray: Ray, tMin: real, tMax: real, tMax': real, sqrt: real -> real)
    requires m.finalTime != m.initialTime && m.radius != 0.0 && IsSqrt(sqrt) && tMax' <= tMax
    ensures MovingSphereHit(m, ray, tMin, tMax', sqrt) == Clip(MovingSphereHit(m, ray, tMin, tMax, sqrt), tMax')
  {
    MovingSphereIsFrozenSphere(m, ray, tMin, tMax, sqrt);
    MovingSphereIsFrozenSphere(m, ray, tMin, tMax', sqrt);
    SphereHitClip(Sphere(Center(m, ray.time), m.radius, m.material), ray, tMin, tMax, tMax', sqrt);
  }

  /** A moving-sphere hit lies on the sphere at the ray's time. */
  lemma MovingSphereHitOnSurface(m: MovingSphere, ray: Ray, tMin: real, tMax: real, sqrt: real -> real)
    requires m.finalTime != m.initialTime && m.radius != 0.0 && IsSqrt(sqrt)
    requires MovingSphereHit(m, ray, tMin, tMax, sqrt).Some?
    ensures var h := MovingSphereHit(m, ray, tMin, tMax, sqrt).value;
      Dot(Sub(h.p, Center(m, ray.time)), Sub(h.p, Center(m, ray.time))) == m.radius * m.radius
  {
    MovingSphereIsFrozenSphere(m, ray, tMin, tMax, sqrt);
    SphereHitOnSurface(Sphere(Center(m, ray.time), m.radius, m.material), ray, tMin, tMax, sqrt);
  }

  /** The cube of half-side r around `center`. */
  function BoxAround(center: Vec3, radius: real): Aabb
  {
    var r := Vec3(radius, radius, radius);
    Aabb(Sub(center, r), Add(center, r))
  }

  /**
   * `MovingSphere::bounding_box`: always a box. Both boxes it joins take their max corner
   * from `center(t1)`, so the max corner is `center(t1) + r`; the box covers the sphere at
   * t1 but its max corner ignores where the sphere is at t0.
   */
  function MovingSphereBox(m: MovingSphere, t0: real, t1: real): (r: Option<Aabb>)
    requires m.finalTime != m.initialTime
    ensures r.Some?
    ensures r.value.max == BoxAround(Center(m, t1), m.radius).max
    ensures r.value.min == MinVec(BoxAround(Center(m, t0), m.radius).min, BoxAround(Center(m, t1), m.radius).min)
    ensures Contains(r.value, BoxAround(Center(m, t1), m.radius))
  {
    var r := Vec3(m.radius, m.radius, m.radius);
    var box0 := Aabb(Sub(Center(m, t0), r), Add(Center(m, t1), r));
    var box1 := Aabb(Sub(Center(m, t1), r), Add(Center(m, t1), r));
    Some(SurroundingBox(box0, box1))
  }

  /**
   * A sphere that moves towards lower x over [t0, t1] is not covered, at t0, by the box
   * `bounding_box(t0, t1)` gives it.
   */
  lemma MovingSphereBoxMissesStart(m: MovingSphere)
    requires m.finalTime != m.initialTime
    requires m.finalCenter.x < m.initialCenter.x
    ensures !Contains(MovingSphereBox(m, m.initialTime, m.finalTime).value,
                      BoxAround(Center(m, m.initialTime), m.radius))
  {
    CenterEndpoints(m);
  }
}
