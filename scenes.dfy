/**
 * Everything a ray can be tested against: spheres, moving spheres, BVH nodes and lists
 * (`Scene`). A list is scanned front to back with a shrinking `closest_so_far`; a BVH node
 * tests its box, then both children, and keeps the nearer hit.
 */
module Scenes {
  import opened Options
  import opened Vectors
  import opened Boxes
  import opened Materials
  import opened Spheres

  datatype Hittable =
    | SphereObject(sphere: Sphere)
    | MovingSphereObject(moving: MovingSphere)
    | BvhNode(left: Hittable, right: Hittable, box: Aabb)
    | List(children: seq<Hittable>)

  /** Finite geometry: non-zero radii and, for moving spheres, two distinct times. */
  predicate WellFormed(h: Hittable)
    decreases h
  {
    match h
    case SphereObject(s) => s.radius != 0.0
    case MovingSphereObject(m) => m.radius != 0.0 && m.finalTime != m.initialTime
    case BvhNode(l, r, _) => WellFormed(l) && WellFormed(r)
    case List(cs) => forall c | c in cs :: WellFormed(c)
  }

  predicate AllWellFormed(hs: seq<Hittable>)
  {
    forall i | 0 <= i < |hs| :: WellFormed(hs[i])
  }

  /**
   * Whether `ray` can be sent into `h`: the slab test of a BVH node takes `recip` of every
   * direction component, so a node needs them all non-zero; spheres take any ray.
   */
  predicate Aimed(h: Hittable, ray: Ray)
    decreases h
  {
    match h
    case SphereObject(_) => true
    case MovingSphereObject(_) => true
    case BvhNode(l, r, _) => NonZeroDirection(ray) && Aimed(l, ray) && Aimed(r, ray)
    case List(cs) => forall c | c in cs :: Aimed(c, ray)
  }

  predicate AllAimed(hs: seq<Hittable>, ray: Ray)
  {
    forall i | 0 <= i < |hs| :: Aimed(hs[i], ray)
  }

  /** Whether no BVH node lies below `h`: a sphere, or a list of such hittables. */
  predicate NodeFree(h: Hittable)
    decreases h
  {
    match h
    case BvhNode(_, _, _) => false
    case List(cs) => forall c | c in cs :: NodeFree(c)
    case _ => true
  }

  /** A hittable with no BVH node below it takes every ray, axis-aligned and zero-direction ones included. */
  lemma {:induction false} NodeFreeAimed(h: Hittable, ray: Ray)
    requires NodeFree(h)
    ensures Aimed(h, ray)
    decreases h
  {
    match h
    case List(cs) =>
      forall c | c in cs
        ensures Aimed(c, ray)
      {
        NodeFreeAimed(c, ray);
      }
    case _ =>
  }

  /** The choice of `BVHNode::hit` between its children's hits: smaller t, ties to the right. */
  function Nearer(hitLeft: Option<HitRecord>, hitRight: Option<HitRecord>): Option<HitRecord>
  {
    if hitLeft.Some? && hitRight.Some? then
      if hitLeft.value.t < hitRight.value.t then hitLeft else hitRight
    else if hitLeft.Some? then hitLeft
    else if hitRight.Some? then hitRight
    else None
  }

  /** `hit(ray, t_min, t_max)` of any hittable. */
  function Hit(h: Hittable, ray: Ray, tMin: real, tMax: real, sqrt: real -> real): (r: Option<HitRecord>)
    requires WellFormed(h) && Aimed(h, ray)
    ensures r.Some? ==> tMin < r.value.t < tMax
    decreases h, 1
  {
    match h
    case SphereObject(s) => SphereHit(s, ray, tMin, tMax, sqrt)
    case MovingSphereObject(m) => MovingSphereHit(m, ray, tMin, tMax, sqrt)
    case BvhNode(l, r, box) =>
      if Boxes.SlabsFrom(box, ray, 0, tMin, tMax) then
        Nearer(Hit(l, ray, tMin, tMax, sqrt), Hit(r, ray, tMin, tMax, sqrt))
      else
        None
    case List(cs) => Scan(cs, ray, tMin, tMax, None, sqrt)
  }

  /**
   * The loop of `Scene::hit` from some point on: each hittable is queried with
   * `(tMin, closest)`; a hit replaces the record and lowers `closest` to its t.
   */
  function Scan(hs: seq<Hittable>, ray: Ray, tMin: real, closest: real, acc: Option<HitRecord>,
                sqrt: real -> real): (r: Option<HitRecord>)
    requires AllWellFormed(hs) && AllAimed(hs, ray)
    ensures r.Some? ==> r == acc || tMin < r.value.t < closest
    decreases hs, 0
  {
    if |hs| == 0 then acc
    else
      match Hit(hs[0], ray, tMin, closest, sqrt)
      case Some(rec) => Scan(hs[1..], ray, tMin, rec.t, Some(rec), sqrt)
      case None => Scan(hs[1..], ray, tMin, closest, acc, sqrt)
  }

  /** `Scene::hit` (src/hittable.rs): the closest-so-far loop over the hittables. */
  method SceneHit(hittables: seq<Hittable>, ray: Ray, tMin: real, tMax: real, sqrt: real -> real)
    returns (hitRecord: Option<HitRecord>)
    requires AllWellFormed(hittables) && AllAimed(hittables, ray)
    ensures hitRecord == Scan(hittables, ray, tMin, tMax, None, sqrt)
  {
    hitRecord := None;
    var closestSoFar := tMax;
    for i := 0 to |hittables|
      invariant Scan(hittables[i..], ray, tMin, closestSoFar, hitRecord, sqrt)
             == Scan(hittables, ray, tMin, tMax, None, sqrt)
    {
      assert hittables[i..][0] == hittables[i] && hittables[i..][1..] == hittables[i + 1..];
      match Hit(hittables[i], ray, tMin, closestSoFar, sqrt)
      case Some(rec) =>
        hitRecord := Some(rec);
        closestSoFar := rec.t;
      case None =>
    }
    assert hittables[|hittables|..] == [];
  }

  // ---------------------------------------------------------------------------
  // The reference: the earliest among the hits with the least t.

  /** The earlier-listed hit wins unless the later one is strictly nearer. */
  function Earlier(first: Option<HitRecord>, second: Option<HitRecord>): (r: Option<HitRecord>)
    ensures r == first || r == second
    ensures r.None? <==> first.None? && second.None?
    ensures r.Some? && first.Some? ==> r.value.t <= first.value.t
    ensures r.Some? && second.Some? ==> r.value.t <= second.value.t
    ensures first.Some? && second.Some? && first.value.t == second.value.t ==> r == first
  {
    if first.None? then second
    else if second.None? then first
    else if second.value.t < first.value.t then second
    else first
  }

  /** The earliest of the hits with the least t. */
  function FirstLeast(rs: seq<Option<HitRecord>>): Option<HitRecord>
  {
    if |rs| == 0 then None else Earlier(rs[0], FirstLeast(rs[1..]))
  }

  /** The hit of each hittable, each over the same window. */
  function Hits(hs: seq<Hittable>, ray: Ray, tMin: real, tMax: real, sqrt: real -> real): (rs: seq<Option<HitRecord>>)
    requires AllWellFormed(hs) && AllAimed(hs, ray)
    ensures |rs| == |hs|
    ensures forall i | 0 <= i < |hs| :: rs[i] == Hit(hs[i], ray, tMin, tMax, sqrt)
  {
    seq(|hs|, i requires 0 <= i < |hs| => Hit(hs[i], ray, tMin, tMax, sqrt))
  }

  /** `FirstLeast` is a hit with the least t among all the hits. */
  lemma {:induction false} FirstLeastIsLeast(rs: seq<Option<HitRecord>>, i: nat)
    requires i < |rs| && rs[i].Some?
    ensures FirstLeast(rs).Some? && FirstLeast(rs).value.t <= rs[i].value.t
  {
    if i > 0 {
      FirstLeastIsLeast(rs[1..], i - 1);
    }
  }

  /** `FirstLeast` is none exactly when every entry is none. */
  lemma {:induction false} FirstLeastNone(rs: seq<Option<HitRecord>>)
    ensures FirstLeast(rs).None? <==> forall i | 0 <= i < |rs| :: rs[i].None?
  {
    if |rs| > 0 {
      FirstLeastNone(rs[1..]);
      assert forall i | 1 <= i < |rs| :: rs[i] == rs[1..][i - 1];
    }
  }

  /** `FirstLeast` is some entry k, and every entry before k is none or strictly farther. */
  lemma {:induction false} FirstLeastIsEarliest(rs: seq<Option<HitRecord>>)
    requires FirstLeast(rs).Some?
    ensures exists k | 0 <= k < |rs| ::
      rs[k] == FirstLeast(rs) && (forall i | 0 <= i < k :: rs[i].None? || rs[i].value.t > FirstLeast(rs).value.t)
  {
    var r := FirstLeast(rs);
    if rs[0] == r {
      assert rs[0] == FirstLeast(rs);
    } else {
      var tail := FirstLeast(rs[1..]);
      assert r == tail;
      FirstLeastIsEarliest(rs[1..]);
      var k :| 0 <= k < |rs[1..]| && rs[1..][k] == tail
        && forall i | 0 <= i < k :: rs[1..][i].None? || rs[1..][i].value.t > tail.value.t;
      assert rs[k + 1] == r;
      forall i | 0 <= i < k + 1
        ensures rs[i].None? || rs[i].value.t > r.value.t
      {
        if i > 0 {
          assert rs[i] == rs[1..][i - 1];
        }
      }
    }
  }

  lemma EarlierAssociative(a: Option<HitRecord>, b: Option<HitRecord>, c: Option<HitRecord>)
    ensures Earlier(a, Earlier(b, c)) == Earlier(Earlier(a, b), c)
  {
  }

  /** `FirstLeast` of a concatenation is the earlier of the two parts' `FirstLeast`. */
  lemma {:induction false} FirstLeastAppend(xs: seq<Option<HitRecord>>, ys: seq<Option<HitRecord>>)
    ensures FirstLeast(xs + ys) == Earlier(FirstLeast(xs), FirstLeast(ys))
  {
    if |xs| > 0 {
      assert (xs + ys)[1..] == xs[1..] + ys;
      FirstLeastAppend(xs[1..], ys);
      EarlierAssociative(xs[0], FirstLeast(xs[1..]), FirstLeast(ys));
    } else {
      assert xs + ys == ys;
    }
  }

  lemma EarlierClip(a: Option<HitRecord>, b: Option<HitRecord>, bound: real)
    ensures Clip(Earlier(a, b), bound) == Earlier(Clip(a, bound), Clip(b, bound))
  {
  }

  function ClipAll(rs: seq<Option<HitRecord>>, bound: real): (cs: seq<Option<HitRecord>>)
    ensures |cs| == |rs| && forall i | 0 <= i < |rs| :: cs[i] == Clip(rs[i], bound)
  {
    seq(|rs|, i requires 0 <= i < |rs| => Clip(rs[i], bound))
  }

  /** Lowering the bound commutes with taking the earliest least hit. */
  lemma {:induction false} FirstLeastClip(rs: seq<Option<HitRecord>>, bound: real)
    ensures FirstLeast(ClipAll(rs, bound)) == Clip(FirstLeast(rs), bound)
  {
    if |rs| > 0 {
      assert ClipAll(rs, bound)[1..] == ClipAll(rs[1..], bound);
      FirstLeastClip(rs[1..], bound);
      EarlierClip(rs[0], FirstLeast(rs[1..]), bound);
    }
  }

  // ---------------------------------------------------------------------------
  // Every hittable reports its least hit in the window.

  /** A scan started with a record returns that record exactly when the rest finds nothing. */
  lemma {:induction false} ScanAccumulator(hs: seq<Hittable>, ray: Ray, tMin: real, closest: real,
                                           acc: Option<HitRecord>, sqrt: real -> real)
    requires AllWellFormed(hs) && AllAimed(hs, ray)
    ensures Scan(hs, ray, tMin, closest, acc, sqrt)
         == (var r := Scan(hs, ray, tMin, closest, None, sqrt); if r.None? then acc else r)
  {
    if |hs| > 0 {
      match Hit(hs[0], ray, tMin, closest, sqrt)
      case Some(rec) =>
        ScanAccumulator(hs[1..], ray, tMin, rec.t, Some(rec), sqrt);
      case None =>
        ScanAccumulator(hs[1..], ray, tMin, closest, acc, sqrt);
    }
  }

  lemma NearerClip(a: Option<HitRecord>, b: Option<HitRecord>, bound: real)
    ensures Clip(Nearer(a, b), bound) == Nearer(Clip(a, bound), Clip(b, bound))
  {
  }

  /**
   * Every hittable reports the least t in its window: lowering tMax to tMax' keeps the
   * hit if its t is below tMax' and gives none otherwise.
   */
  lemma {:induction false} HitClip(h: Hittable, ray: Ray, tMin: real, tMax: real, tMax': real, sqrt: real -> real)
    requires WellFormed(h) && Aimed(h, ray) && IsSqrt(sqrt) && tMax' <= tMax
    ensures Hit(h, ray, tMin, tMax', sqrt) == Clip(Hit(h, ray, tMin, tMax, sqrt), tMax')
    decreases h, 1
  {
    match h
    case SphereObject(s) => SphereHitClip(s, ray, tMin, tMax, tMax', sqrt);
    case MovingSphereObject(m) => MovingSphereHitClip(m, ray, tMin, tMax, tMax', sqrt);
    case BvhNode(l, r, box) =>
      HitClip(l, ray, tMin, tMax, tMax', sqrt);
      HitClip(r, ray, tMin, tMax, tMax', sqrt);
      NearerClip(Hit(l, ray, tMin, tMax, sqrt), Hit(r, ray, tMin, tMax, sqrt), tMax');
      if tMin < tMax' {
        HitNeverPrunes(box, ray, 0, tMin, tMax');
        HitNeverPrunes(box, ray, 0, tMin, tMax);
      }
    case List(cs) => ScanClip(cs, ray, tMin, tMax, tMax', sqrt);
  }

  /** The same for a scan of a list started with no record. */
  lemma {:induction false} ScanClip(hs: seq<Hittable>, ray: Ray, tMin: real, tMax: real, tMax': real, sqrt: real -> real)
    requires AllWellFormed(hs) && AllAimed(hs, ray) && IsSqrt(sqrt) && tMax' <= tMax
    ensures Scan(hs, ray, tMin, tMax', None, sqrt) == Clip(Scan(hs, ray, tMin, tMax, None, sqrt), tMax')
    decreases hs, 0
  {
    if |hs| > 0 {
      HitClip(hs[0], ray, tMin, tMax, tMax', sqrt);
      match Hit(hs[0], ray, tMin, tMax, sqrt)
      case None =>
        ScanClip(hs[1..], ray, tMin, tMax, tMax', sqrt);
      case Some(rec) =>
        ScanAccumulator(hs[1..], ray, tMin, rec.t, Some(rec), sqrt);
        if tMax' <= rec.t {
          ScanClip(hs[1..], ray, tMin, rec.t, tMax', sqrt);
        }
    }
  }

  lemma HitsClip(hs: seq<Hittable>, ray: Ray, tMin: real, tMax: real, tMax': real, sqrt: real -> real)
    requires AllWellFormed(hs) && AllAimed(hs, ray) && IsSqrt(sqrt) && tMax' <= tMax
    ensures Hits(hs, ray, tMin, tMax', sqrt) == ClipAll(Hits(hs, ray, tMin, tMax, sqrt), tMax')
  {
    forall i | 0 <= i < |hs|
      ensures Hits(hs, ray, tMin, tMax', sqrt)[i] == ClipAll(Hits(hs, ray, tMin, tMax, sqrt), tMax')[i]
    {
      HitClip(hs[i], ray, tMin, tMax, tMax', sqrt);
    }
  }

  /**
   * `Scene::hit` returns the earliest of the hits with the least t, each hittable queried
   * over the whole window (tMin, tMax).
   */
  lemma {:induction false} ScanIsFirstLeast(hs: seq<Hittable>, ray: Ray, tMin: real, tMax: real, sqrt: real -> real)
    requires AllWellFormed(hs) && AllAimed(hs, ray) && IsSqrt(sqrt)
    ensures Scan(hs, ray, tMin, tMax, None, sqrt) == FirstLeast(Hits(hs, ray, tMin, tMax, sqrt))
  {
    if |hs| > 0 {
      var rs := Hits(hs, ray, tMin, tMax, sqrt);
      assert rs[1..] == Hits(hs[1..], ray, tMin, tMax, sqrt);
      match Hit(hs[0], ray, tMin, tMax, sqrt)
      case None =>
        ScanIsFirstLeast(hs[1..], ray, tMin, tMax, sqrt);
      case Some(rec) =>
        ScanAccumulator(hs[1..], ray, tMin, rec.t, Some(rec), sqrt);
        ScanIsFirstLeast(hs[1..], ray, tMin, rec.t, sqrt);
        HitsClip(hs[1..], ray, tMin, tMax, rec.t, sqrt);
        FirstLeastClip(rs[1..], rec.t);
    }
  }

  /** `Scene::hit` as a whole: none exactly when no hittable hits; otherwise a least hit, earliest on ties. */
  lemma SceneHitLeast(hs: seq<Hittable>, ray: Ray, tMin: real, tMax: real, sqrt: real -> real)
    requires AllWellFormed(hs) && AllAimed(hs, ray) && IsSqrt(sqrt)
    ensures var r := Scan(hs, ray, tMin, tMax, None, sqrt);
      && (r.None? <==> forall i | 0 <= i < |hs| :: Hit(hs[i], ray, tMin, tMax, sqrt).None?)
      && (r.Some? ==> tMin < r.value.t < tMax)
      && (forall i | 0 <= i < |hs| && Hit(hs[i], ray, tMin, tMax, sqrt).Some? ::
            r.Some? && r.value.t <= Hit(hs[i], ray, tMin, tMax, sqrt).value.t)
      && (r.Some? ==> exists k | 0 <= k < |hs| ::
            Hit(hs[k], ray, tMin, tMax, sqrt) == r
            && (forall i | 0 <= i < k :: Hit(hs[i], ray, tMin, tMax, sqrt).None?
                  || Hit(hs[i], ray, tMin, tMax, sqrt).value.t > r.value.t))
  {
    var rs := Hits(hs, ray, tMin, tMax, sqrt);
    ScanIsFirstLeast(hs, ray, tMin, tMax, sqrt);
    FirstLeastNone(rs);
    forall i | 0 <= i < |hs| && rs[i].Some?
      ensures FirstLeast(rs).Some? && FirstLeast(rs).value.t <= rs[i].value.t
    {
      FirstLeastIsLeast(rs, i);
    }
    if FirstLeast(rs).Some? {
      FirstLeastIsEarliest(rs);
    }
  }

  // ---------------------------------------------------------------------------
  // The older scene of src/hitable.rs: a list of spheres.

  predicate SpheresWellFormed(spheres: seq<Sphere>)
  {
    forall i | 0 <= i < |spheres| :: spheres[i].radius != 0.0
  }

  /** The hit of each sphere over the same window. */
  function SphereHits(spheres: seq<Sphere>, ray: Ray, tMin: real, tMax: real, sqrt: real -> real): (rs: seq<Option<HitRecord>>)
    requires SpheresWellFormed(spheres)
    ensures |rs| == |spheres|
    ensures forall i | 0 <= i < |spheres| :: rs[i] == SphereHit(spheres[i], ray, tMin, tMax, sqrt)
  {
    seq(|spheres|, i requires 0 <= i < |spheres| => SphereHit(spheres[i], ray, tMin, tMax, sqrt))
  }

  /**
   * `Scene::hit` of src/hitable.rs: the same closest-so-far loop over spheres. It returns
   * the earliest of the sphere hits with the least t over the whole window.
   */
  method LegacySceneHit(spheres: seq<Sphere>, ray: Ray, tMin: real, tMax: real, sqrt: real -> real)
    returns (hitRecord: Option<HitRecord>)
    requires SpheresWellFormed(spheres) && IsSqrt(sqrt)
    ensures hitRecord == FirstLeast(SphereHits(spheres, ray, tMin, tMax, sqrt))
  {
    hitRecord := None;
    var closestSoFar := tMax;
    for i := 0 to |spheres|
      invariant hitRecord == FirstLeast(SphereHits(spheres[..i], ray, tMin, tMax, sqrt))
      invariant closestSoFar <= tMax
      invariant closestSoFar == if hitRecord.Some? then hitRecord.value.t else tMax
    {
      var all := SphereHits(spheres[..i + 1], ray, tMin, tMax, sqrt);
      assert all == SphereHits(spheres[..i], ray, tMin, tMax, sqrt) + [all[i]];
      FirstLeastAppend(SphereHits(spheres[..i], ray, tMin, tMax, sqrt), [all[i]]);
      SphereHitClip(spheres[i], ray, tMin, tMax, closestSoFar, sqrt);
      match SphereHit(spheres[i], ray, tMin, closestSoFar, sqrt)
      case Some(rec) =>
        hitRecord := Some(rec);
        closestSoFar := rec.t;
      case None =>
    }
    assert spheres[..|spheres|] == spheres;
  }

  // ---------------------------------------------------------------------------
  // A BVH answers like a scan of its leaves.

  /** The hittables below a tree of BVH nodes, left before right. */
  function Leaves(h: Hittable): (ls: seq<Hittable>)
    ensures |ls| >= 1
  {
    match h
    case BvhNode(l, r, _) => Leaves(l) + Leaves(r)
    case _ => [h]
  }

  /** The parameter of a hit, if any. */
  function Time(r: Option<HitRecord>): Option<real>
  {
    if r.Some? then Some(r.value.t) else None
  }

  /** The pick of `BVHNode::hit` has the time of the left-first earliest least hit. */
  lemma NearerTime(a: Option<HitRecord>, b: Option<HitRecord>, c: Option<HitRecord>, d: Option<HitRecord>)
    requires Time(a) == Time(c) && Time(b) == Time(d)
    ensures Time(Nearer(a, b)) == Time(Earlier(c, d))
  {
  }

  /**
   * As the slab test is written, a BVH node never prunes: its hit is always the nearer of
   * its children's hits (over an empty window both children miss).
   */
  lemma BvhNodeNeverPrunes(l: Hittable, r: Hittable, box: Aabb, ray: Ray, tMin: real, tMax: real, sqrt: real -> real)
    requires WellFormed(l) && WellFormed(r) && Aimed(l, ray) && Aimed(r, ray) && NonZeroDirection(ray)
    ensures Hit(BvhNode(l, r, box), ray, tMin, tMax, sqrt) == Nearer(Hit(l, ray, tMin, tMax, sqrt), Hit(r, ray, tMin, tMax, sqrt))
  {
    if tMin < tMax {
      HitNeverPrunes(box, ray, 0, tMin, tMax);
    }
  }

  /**
   * The t a BVH reports is the least t over all its leaves: the node's box never prunes
   * an open window, and the nearer of the two children is taken.
   */
  lemma {:induction false} BvhHitIsLeastLeaf(h: Hittable, ray: Ray, tMin: real, tMax: real, sqrt: real -> real)
    requires WellFormed(h) && Aimed(h, ray)
    ensures AllWellFormed(Leaves(h)) && AllAimed(Leaves(h), ray)
    ensures Time(Hit(h, ray, tMin, tMax, sqrt)) == Time(FirstLeast(Hits(Leaves(h), ray, tMin, tMax, sqrt)))
  {
    match h
    case BvhNode(l, r, box) =>
      BvhHitIsLeastLeaf(l, ray, tMin, tMax, sqrt);
      BvhHitIsLeastLeaf(r, ray, tMin, tMax, sqrt);
      var hl := Hits(Leaves(l), ray, tMin, tMax, sqrt);
      var hr := Hits(Leaves(r), ray, tMin, tMax, sqrt);
      HitsAppend(Leaves(l), Leaves(r), ray, tMin, tMax, sqrt);
      FirstLeastAppend(hl, hr);
      NearerTime(Hit(l, ray, tMin, tMax, sqrt), Hit(r, ray, tMin, tMax, sqrt), FirstLeast(hl), FirstLeast(hr));
      BvhNodeNeverPrunes(l, r, box, ray, tMin, tMax, sqrt);
    case _ =>
      assert Hits(Leaves(h), ray, tMin, tMax, sqrt) == [Hit(h, ray, tMin, tMax, sqrt)];
  }

  lemma HitsAppend(xs: seq<Hittable>, ys: seq<Hittable>, ray: Ray, tMin: real, tMax: real, sqrt: real -> real)
    requires AllWellFormed(xs) && AllWellFormed(ys) && AllAimed(xs, ray) && AllAimed(ys, ray)
    ensures AllWellFormed(xs + ys) && AllAimed(xs + ys, ray)
    ensures Hits(xs + ys, ray, tMin, tMax, sqrt) == Hits(xs, ray, tMin, tMax, sqrt) + Hits(ys, ray, tMin, tMax, sqrt)
  {
    var zs := xs + ys;
    assert forall i | |xs| <= i < |zs| :: zs[i] == ys[i - |xs|];
    var lhs := Hits(zs, ray, tMin, tMax, sqrt);
    var rhs := Hits(xs, ray, tMin, tMax, sqrt) + Hits(ys, ray, tMin, tMax, sqrt);
    forall i | 0 <= i < |zs|
      ensures lhs[i] == rhs[i]
    {
      if i >= |xs| {
        assert zs[i] == ys[i - |xs|];
      }
    }
  }

  /** Hence a BVH finds the same t as `Scene::hit` over its leaves. */
  lemma BvhMatchesScan(h: Hittable, ray: Ray, tMin: real, tMax: real, sqrt: real -> real)
    requires WellFormed(h) && Aimed(h, ray) && IsSqrt(sqrt)
    ensures AllWellFormed(Leaves(h)) && AllAimed(Leaves(h), ray)
    ensures Time(Hit(h, ray, tMin, tMax, sqrt)) == Time(Scan(Leaves(h), ray, tMin, tMax, None, sqrt))
  {
    BvhHitIsLeastLeaf(h, ray, tMin, tMax, sqrt);
    ScanIsFirstLeast(Leaves(h), ray, tMin, tMax, sqrt);
  }

  // ---------------------------------------------------------------------------
  // Bounding boxes.

  /**
   * `bounding_box(t0, t1)`. A sphere has none in this revision (it implements only the
   * older trait); a BVH node returns its stored box whatever the times.
   */
  function BoundingBox(h: Hittable, t0: real, t1: real): (r: Option<Aabb>)
    requires WellFormed(h)
    decreases h, 2
  {
    match h
    case SphereObject(_) => None
    case MovingSphereObject(m) => MovingSphereBox(m, t0, t1)
    case BvhNode(_, _, box) => Some(box)
    case List(cs) => ListBox(cs, t0, t1)
  }

  /** `Scene::bounding_box`: none for an empty scene, else the fold from the first box. */
  function ListBox(cs: seq<Hittable>, t0: real, t1: real): (r: Option<Aabb>)
    requires AllWellFormed(cs)
    decreases cs, 1
  {
    if |cs| == 0 then None
    else
      match BoundingBox(cs[0], t0, t1)
      case None => None
      case Some(b) => FoldBoxes(cs[1..], b, t0, t1)
  }

  /** The loop of `Scene::bounding_box`: none at the first hittable without a box. */
  function FoldBoxes(cs: seq<Hittable>, acc: Aabb, t0: real, t1: real): (r: Option<Aabb>)
    requires AllWellFormed(cs)
    decreases cs, 0
  {
    if |cs| == 0 then Some(acc)
    else
      match BoundingBox(cs[0], t0, t1)
      case None => None
      case Some(b) => FoldBoxes(cs[1..], SurroundingBox(acc, b), t0, t1)
  }

  /** `Scene::bounding_box` (src/hittable.rs) with its early returns. */
  method SceneBoundingBox(hittables: seq<Hittable>, t0: real, t1: real) returns (r: Option<Aabb>)
    requires AllWellFormed(hittables)
    ensures r == ListBox(hittables, t0, t1)
  {
    if |hittables| == 0 {
      return None;
    }
    var first := BoundingBox(hittables[0], t0, t1);
    if first.None? {
      return None;
    }
    var aabb := first.value;
    for i := 1 to |hittables|
      invariant FoldBoxes(hittables[i..], aabb, t0, t1) == ListBox(hittables, t0, t1)
    {
      assert hittables[i..][0] == hittables[i] && hittables[i..][1..] == hittables[i + 1..];
      var tempBox := BoundingBox(hittables[i], t0, t1);
      if tempBox.Some? {
        aabb := SurroundingBox(aabb, tempBox.value);
      } else {
        return None;
      }
    }
    assert hittables[|hittables|..] == [];
    return Some(aabb);
  }

  lemma {:induction false} FoldBoxesNone(cs: seq<Hittable>, acc: Aabb, t0: real, t1: real)
    requires AllWellFormed(cs)
    ensures FoldBoxes(cs, acc, t0, t1).None? <==> exists i | 0 <= i < |cs| :: BoundingBox(cs[i], t0, t1).None?
  {
    if |cs| > 0 {
      assert forall i | 1 <= i < |cs| :: cs[i] == cs[1..][i - 1];
      match BoundingBox(cs[0], t0, t1)
      case None =>
      case Some(b) =>
        FoldBoxesNone(cs[1..], SurroundingBox(acc, b), t0, t1);
        if FoldBoxes(cs, acc, t0, t1).None? {
          var j :| 0 <= j < |cs[1..]| && BoundingBox(cs[1..][j], t0, t1).None?;
          assert BoundingBox(cs[j + 1], t0, t1).None?;
        }
    }
  }

  /** `Scene::bounding_box` is none exactly for an empty scene or one with a box-less hittable. */
  lemma ListBoxNone(cs: seq<Hittable>, t0: real, t1: real)
    requires AllWellFormed(cs)
    ensures ListBox(cs, t0, t1).None? <==> |cs| == 0 || exists i | 0 <= i < |cs| :: BoundingBox(cs[i], t0, t1).None?
  {
    if |cs| > 0 && BoundingBox(cs[0], t0, t1).Some? {
      FoldBoxesNone(cs[1..], BoundingBox(cs[0], t0, t1).value, t0, t1);
      assert forall i | 1 <= i < |cs| :: cs[i] == cs[1..][i - 1];
      if ListBox(cs, t0, t1).None? {
        var j :| 0 <= j < |cs[1..]| && BoundingBox(cs[1..][j], t0, t1).None?;
        assert BoundingBox(cs[j + 1], t0, t1).None?;
      }
    }
  }

  lemma ContainsTransitive(a: Aabb, b: Aabb, c: Aabb)
    requires Contains(a, b) && Contains(b, c)
    ensures Contains(a, c)
  {
  }

  /** The fold contains its start and every box it folds in, and is the least such box. */
  lemma {:induction false} FoldBoxesBounds(cs: seq<Hittable>, acc: Aabb, t0: real, t1: real)
    requires AllWellFormed(cs) && FoldBoxes(cs, acc, t0, t1).Some?
    ensures var r := FoldBoxes(cs, acc, t0, t1).value;
      && Contains(r, acc)
      && (forall i | 0 <= i < |cs| :: BoundingBox(cs[i], t0, t1).Some? && Contains(r, BoundingBox(cs[i], t0, t1).value))
      && (forall c: Aabb | Contains(c, acc) && (forall i | 0 <= i < |cs| :: Contains(c, BoundingBox(cs[i], t0, t1).value))
            :: Contains(c, r))
  {
    if |cs| > 0 {
      var b := BoundingBox(cs[0], t0, t1).value;
      var acc' := SurroundingBox(acc, b);
      var r := FoldBoxes(cs, acc, t0, t1).value;
      FoldBoxesBounds(cs[1..], acc', t0, t1);
      SurroundingContains(acc, b);
      ContainsTransitive(r, acc', acc);
      ContainsTransitive(r, acc', b);
      forall i | 1 <= i < |cs|
        ensures BoundingBox(cs[i], t0, t1).Some? && Contains(r, BoundingBox(cs[i], t0, t1).value)
      {
        assert cs[i] == cs[1..][i - 1];
      }
      forall c: Aabb | Contains(c, acc) && (forall i | 0 <= i < |cs| :: Contains(c, BoundingBox(cs[i], t0, t1).value))
        ensures Contains(c, r)
      {
        SurroundingLeast(acc, b, c);
        assert forall i | 0 <= i < |cs[1..]| :: cs[1..][i] == cs[i + 1];
      }
    }
  }

  /**
   * When `Scene::bounding_box` is some, it contains every child box, and every box that
   * contains all the child boxes contains it.
   */
  lemma ListBoxBounds(cs: seq<Hittable>, t0: real, t1: real)
    requires AllWellFormed(cs) && ListBox(cs, t0, t1).Some?
    ensures var r := ListBox(cs, t0, t1).value;
      && (forall i | 0 <= i < |cs| :: BoundingBox(cs[i], t0, t1).Some? && Contains(r, BoundingBox(cs[i], t0, t1).value))
      && (forall c: Aabb | (forall i | 0 <= i < |cs| :: Contains(c, BoundingBox(cs[i], t0, t1).value)) :: Contains(c, r))
  {
    var b := BoundingBox(cs[0], t0, t1).value;
    FoldBoxesBounds(cs[1..], b, t0, t1);
    assert forall i | 1 <= i < |cs| :: cs[i] == cs[1..][i - 1];
    assert forall i | 0 <= i < |cs[1..]| :: cs[1..][i] == cs[i + 1];
  }

  /** Whether a hittable has a bounding box; the times play no part. */
  predicate HasBox(h: Hittable)
  {
    match h
    case SphereObject(_) => false
    case MovingSphereObject(_) => true
    case BvhNode(_, _, _) => true
    case List(cs) => |cs| > 0 && forall c | c in cs :: HasBox(c)
  }

  /** `bounding_box` returns some box exactly for the hittables that `HasBox`, at any times. */
  lemma {:induction false} BoundingBoxExists(h: Hittable, t0: real, t1: real)
    requires WellFormed(h)
    ensures BoundingBox(h, t0, t1).Some? <==> HasBox(h)
  {
    match h
    case SphereObject(_) =>
    case MovingSphereObject(m) =>
    case BvhNode(_, _, _) =>
    case List(cs) =>
      forall i | 0 <= i < |cs|
        ensures BoundingBox(cs[i], t0, t1).Some? <==> HasBox(cs[i])
      {
        BoundingBoxExists(cs[i], t0, t1);
      }
      ListBoxNone(cs, t0, t1);
      if HasBox(h) {
        assert forall i | 0 <= i < |cs| :: HasBox(cs[i]);
      } else if |cs| > 0 {
        var c :| c in cs && !HasBox(c);
        var i :| 0 <= i < |cs| && cs[i] == c;
      }
  }
}
