# Raytracer core in Dafny

A model of the discrete core of a small Rust path tracer (a "ray tracing in one weekend"
renderer with tiles, a BVH, moving spheres and Perlin tables). Geometry is over `real`, with
square root, unit vectors and refraction as function parameters; random draws are explicit
parameters; the 64-bit generator is over `bv64`; framebuffer pixels are `bv32`.

Modules, bottom-up:

- `Options`, `Vectors` (vectors.dfy): `Option`, `Vec3`, `Ray`, dot products, reflection,
  refraction over an abstract square root (`IsSqrt`).
- `Pixels` (pixels.dfy): 24-bit RGB packing `from_rgb`/`to_rgb` and the byte serialisation
  of the framebuffer.
- `Xoshiro` (xoshiro.dfy): the `XorShift32` generator (a Xoshiro256+ step) as a class over a
  four-word state array, its `split_mix_64` seeding (modelled as written, with a wrapping
  division where SplitMix64 adds), `rol_64`, and the integer numerator of `linear`.
- `Perlin` (perlin.rs tables): the in-place Fisher–Yates `permute` on an array driven by
  supplied draws, `perlin_generate_perm`, `perlin_generate`, and the `& 255` / XOR lattice
  hashing that fills the 2×2×2 corner array of `noise`.
- `Boxes` (aabb.rs): `surrounding_box` and the slab test `hit`, modelled as written: the
  window is widened (`min` on `t_min`, `max` on `t_max`), so the test never prunes.
- `Materials` (material.rs): the scatter decision rules of Lambertian, Metal and
  Dielectric.
- `Spheres` (sphere.rs, moving_sphere.rs): quadratic root selection in the open interval,
  the moving centre, and the moving sphere's bounding box (which uses `center(t1)` for both
  maxima).
- `Scenes` (hittable.rs, hitable.rs, bvh.rs queries): the `Hittable` datatype
  {sphere, moving sphere, BVH node, list}, the closest-so-far scan, BVH node queries, and the
  bounding-box fold.
- `Bvh` (bvh.rs construction): `BVHNode::new` over an array segment: sort by the drawn
  axis, one child aliased twice for a single hittable, two leaves, or two halves built
  recursively, and the node box.
- `Render` (chunk.rs, main.rs `color`): the depth-bounded integrator over an abstract scene
  query and scatter oracle.
- `Tiles` (chunk.rs `process`, main.rs frame): the tile loop writing `i + j*WIDTH` into one
  framebuffer array, the 16×12 tile grid, and the frame as a whole.

## Model

| member | source | states |
|---|---|---|
| Pixels.ToRgbChannels | src/chunk.rs:35-42 | `to_rgb` returns bits 16-23, 8-15 and 0-7 of the colour as its three bytes |
| Pixels.FromRgbLayout | src/chunk.rs:29-32 | for channels below 256, `from_rgb` is below 2^24 and puts r, g, b in bits 16-23, 8-15, 0-7 |
| Pixels.ToRgbFromRgb | src/main.rs:58-70 | `to_rgb(from_rgb(r, g, b)) == (r, g, b)` for channels below 256 |
| Pixels.FromRgbToRgb | src/main.rs:58-70 | `from_rgb(to_rgb(c)) == c` for every colour below 2^24 |
| Pixels.ToBytesLayout | src/main.rs:156-163 | the saved bytes are the `to_rgb` triples in pixel order: bytes 3k, 3k+1, 3k+2 are pixel k's r, g, b |
| Pixels.ToBytesLength | src/main.rs:156-163 | the byte buffer is three times as long as the pixel buffer |
| Xoshiro.XorShift32.constructor | src/random.rs:13-31 | `new(Some(seed))` fills the state with two split-mix outputs and their upper halves (`SeedState`) |
| Xoshiro.XorShift32.SplitMix64 | src/random.rs:52-59 | the seed is replaced by its wrapping quotient by 0x9E3779B97F4A7C15, and the result is the two-round xor-shift-multiply mix of the old seed |
| Xoshiro.XorShift32.Linear | src/random.rs:33-46 | the state becomes the Xoshiro256+ step of the old state, and the returned numerator is `(s0 + s3) >> 3` of the old state (wrapping) |
| Xoshiro.Rol45Bit | src/random.rs:48-50 | bit i of `rol_64(x, 45)` is bit (i + 19) mod 64 of x |
| Xoshiro.Rol45Inverse | src/random.rs:48-50 | `rol_64(rol_64(x, 45), 19) == x` |
| Xoshiro.NumeratorBound | src/random.rs:45 | the numerator is at most the denominator 2^61 - 1, so the ratio lies in [0, 1] |
| Xoshiro.NumeratorReachesDenominator | src/random.rs:45 | the ratio can equal 1: a state with s0 = 2^64 - 1 and s3 = 0 gives numerator 2^61 - 1 |
| Xoshiro.NumeratorWords | src/random.rs:34 | the drawn value depends only on state words 0 and 3 |
| Xoshiro.ZeroFixedPoint | src/random.rs:34-43 | the all-zero state is a fixed point of the step, and it yields numerator 0 |
| Xoshiro.MixZero | src/random.rs:56-58 | `split_mix_64` of 0 returns 0 |
| Xoshiro.DivideSmall | src/random.rs:55 | a seed below 0x9E3779B97F4A7C15 becomes 0 after one `split_mix_64` |
| Xoshiro.SeedStateShape | src/random.rs:20-30 | the seeded state has `state[1] == state[0] >> 32` and `state[3] == state[2] >> 32`, and words 2 and 3 are 0 for a seed below the constant |
| Xoshiro.UnShift17Inverse | src/random.rs:35-42 | the xor-shift `u ^ (u << 17)` is undone by `UnShift17` |
| Xoshiro.StepInvertible | src/random.rs:35-43 | the Xoshiro256+ step is a bijection on states: `Unstep(Step(s)) == s` |
| Perlin.Target | src/perlin.rs:67 | a draw in [0, 1) gives a swap target in [0, i] |
| Perlin.Permute | src/perlin.rs:65-72 | `permute` rearranges the array in place into the reverse Fisher–Yates shuffle of its old contents, keeping its multiset |
| Perlin.PerlinGeneratePerm | src/perlin.rs:74-81 | the table is the shuffle of 0..255, and holds each of 0..255 exactly once |
| Perlin.PerlinGenerate | src/perlin.rs:50-63 | 256 gradients, entry k the unit vector of `2*draw_k - 1` |
| Perlin.New | src/perlin.rs:15-22 | gradient k is `unit(2*draw_k - 1)` and each table is the shuffle of 0..255 by its own draws, so each holds 0..255 once |
| Perlin.ShufflePermutes | src/perlin.rs:65-72 | the shuffle keeps the length and the multiset of elements |
| Perlin.ShuffleKeepsAbove | src/perlin.rs:66-70 | positions from i on are never touched again by the iterations for smaller indices |
| Perlin.RangeMultiset | src/perlin.rs:76-78 | the filled table holds each of 0..n-1 once and nothing else |
| Perlin.PermutationTables | src/perlin.rs:74-81 | the shuffled table of 0..255 contains each of 0..255 exactly once |
| Perlin.LatticeIndex | src/perlin.rs:39-41 | `(x + d) & 255` lies in [0, 255] for every 32-bit x, negatives included |
| Perlin.LatticeIndexNegative | src/perlin.rs:39-41 | illustration: for x = -1, `(x + 0) & 255 == 255` and `(x + 1) & 255 == 0` |
| Perlin.Xor3 | src/perlin.rs:38-42 | the XOR of three entries in [0, 255] lies in [0, 255] |
| Perlin.CornerIndex | src/perlin.rs:38-42 | the `random_vec` lookup index is within the 256 gradients |
| Perlin.NoiseCorners | src/perlin.rs:33-45 | `noise` fills exactly the 8 cells `c[di][dj][dk]`, each with its hashed gradient |
| Perlin.FillCorners | src/perlin.rs:37-43 | the inner loop writes `c[di][dj][0..2]` and no other cell |
| Boxes.SurroundingContains | src/aabb.rs:43-55 | `surrounding_box(a, b)` contains both inputs |
| Boxes.SurroundingLeast | src/aabb.rs:43-55 | every box containing both inputs contains their surrounding box |
| Boxes.SurroundingChoice | src/aabb.rs:44-53 | each component of the result is that component of one of the inputs |
| Boxes.SurroundingCommutative | src/aabb.rs:43-55 | `surrounding_box` is commutative |
| Boxes.SurroundingAssociative | src/aabb.rs:43-55 | `surrounding_box` is associative |
| Boxes.SurroundingIdempotent | src/aabb.rs:43-55 | `surrounding_box(a, a) == a` |
| Boxes.SurroundingOrdered | src/aabb.rs:43-55 | two boxes with min ≤ max give a result with min ≤ max |
| Boxes.SlabTimesOrdered | src/aabb.rs:27-32 | with a non-zero direction component and min ≤ max, t0 ≤ t1 after the swap |
| Boxes.Hit | src/aabb.rs:25-41 | the axis loop returns the slab test over axes 0, 1, 2 in order, false at the first axis where `t_max <= t_min` |
| Boxes.SlabWidens | src/aabb.rs:33-34 | `t_min` never increases and `t_max` never decreases |
| Boxes.HitNeverPrunes | src/aabb.rs:33-40 | as written, `hit` is true whenever it is called with `t_min < t_max` |
| Boxes.HitFalseOnlyWhenClosed | src/aabb.rs:35-37 | `hit` is false only when the window it was given is already empty |
| Materials.MetalNew | src/material.rs:41-44 | `fuzz = min(f, 1)`: at most 1, and negative values are kept |
| Materials.LambertianScatter | src/material.rs:24-31 | always scatters, with the albedo as attenuation, from `rec.p` towards `normal + random_in_unit_sphere`, keeping the ray's time |
| Materials.MetalScatter | src/material.rs:48-62 | none exactly when the fuzzed reflection points into the surface; otherwise the albedo and that ray from `rec.p` at the ray's time |
| Materials.MirrorMetalScatters | src/material.rs:48-62 | a fuzz-free metal with a unit normal scatters exactly when the unit ray arrives against the normal |
| Materials.SchlickGrazing | src/material.rs:76-80 | Schlick's reflectance at cosine 0 is 1 |
| Materials.DielectricInterface | src/material.rs:87-99 | exiting (`dot > 0`) uses `-normal` and `ref_idx`, entering uses `normal` and `1/ref_idx`; the chosen normal always faces against the ray |
| Materials.DielectricScatter | src/material.rs:84-111 | always some with attenuation (1, 1, 1); when refraction is possible it reflects iff the draw is below Schlick's value, else refracts; otherwise the default ray |
| Materials.Scatter | src/material.rs:9 | only a metal absorbs; every scattered ray starts at `rec.p` with the ray's time, or is the default ray |
| Materials.Clip | src/hittable.rs:36 | narrowing a hit's window keeps it exactly when its t is below the new bound |
| Spheres.PickRoot | src/sphere.rs:33-54 | the root is in the open interval and is the near root when that is in range; none iff neither root is |
| Spheres.PickRootLeast | src/sphere.rs:33-54 | with near ≤ far, the picked root is the least root in the interval |
| Spheres.PickRootShrink | src/sphere.rs:33-55 | shrinking `t_max` keeps the picked root while it stays above it |
| Spheres.SphereHit | src/sphere.rs:26-57 | a hit lies strictly in (t_min, t_max), with point `origin + t*direction`, normal `(p - center)/radius` and the sphere's material |
| Spheres.SphereMissWithoutDiscriminant | src/sphere.rs:31-32 | no hit when the discriminant is ≤ 0 |
| Spheres.FullLeadingPositive | src/sphere.rs:28-32 | a positive discriminant implies a > 0 |
| Spheres.FullRootsOrdered | src/sphere.rs:33-44 | with a > 0 the `-sqrt` root is at most the `+sqrt` root, so the smaller root is tried first |
| Spheres.SphereHitIsRoot | src/sphere.rs:27-44 | the returned t is a root of the ray-sphere quadratic |
| Spheres.SphereHitOnSurface | src/sphere.rs:35-39 | the hit point is on the sphere: `(p - center)·(p - center) == radius²` |
| Spheres.SphereHitClip | src/sphere.rs:33-55 | querying with a smaller `t_max` equals clipping the full hit |
| Spheres.CenterEndpoints | src/moving_sphere.rs:38-42 | `center(initial_time) == initial_center` and `center(final_time) == final_center` |
| Spheres.MovingSphereHit | src/moving_sphere.rs:46-78 | a hit lies strictly in (t_min, t_max), uses `center(ray.time)` for the point's normal and carries the material |
| Spheres.MovingSphereMissWithoutDiscriminant | src/moving_sphere.rs:51-53 | no hit unless the half-b discriminant `b*b - a*c` is positive |
| Spheres.MovingSphereIsFrozenSphere | src/moving_sphere.rs:46-78 | the half-b computation selects the same hit as a static sphere at `center(ray.time)` |
| Spheres.MovingSphereHitClip | src/moving_sphere.rs:53-76 | querying with a smaller `t_max` equals clipping the full hit |
| Spheres.MovingSphereHitOnSurface | src/moving_sphere.rs:56-60 | the hit point is on the sphere at `center(ray.time)` |
| Spheres.MovingSphereBox | src/moving_sphere.rs:80-91 | always some; max corner `center(t1) + r`, min corner the componentwise min of `center(t0) - r` and `center(t1) - r`; covers the sphere at t1 |
| Spheres.MovingSphereBoxMissesStart | src/moving_sphere.rs:81-89 | a sphere moving towards −x is not covered at its start time |
| Scenes.NodeFreeAimed | src/hittable.rs:32-42 | a hittable with no BVH node below it can be queried with any ray, zero direction components included |
| Scenes.Hit | src/bvh.rs:71-95 | any hit lies strictly in (t_min, t_max); a node whose box misses is none without querying the children |
| Scenes.SceneHit | src/hittable.rs:32-42 | the closest-so-far loop computes `Scan`: each hittable queried with `(t_min, closest_so_far)` |
| Scenes.Scan | src/hittable.rs:34-39 | the result is the previous record or a hit strictly inside (t_min, closest) |
| Scenes.Earlier | src/hittable.rs:36-38 | the earlier of two hits by t, the first one on ties |
| Scenes.FirstLeastIsLeast | src/hittable.rs:35-41 | the least-first choice is at most every hit |
| Scenes.FirstLeastNone | src/hittable.rs:33-41 | the least-first choice is none iff every query misses |
| Scenes.FirstLeastIsEarliest | src/hittable.rs:35-41 | the choice is the earliest entry among those of least t |
| Scenes.FirstLeastAppend | src/hittable.rs:35-41 | the choice over a concatenation is the earlier of the two choices |
| Scenes.FirstLeastClip | src/hittable.rs:36-38 | clipping every entry then choosing equals choosing then clipping |
| Scenes.HitClip | src/hittable.rs:36 | every hittable's hit under a smaller `t_max` equals its clipped full hit |
| Scenes.ScanClip | src/hittable.rs:34-39 | the scan with a smaller `t_max` equals the clipped full scan |
| Scenes.ScanIsFirstLeast | src/hittable.rs:32-42 | the shrinking-window scan equals the least-first choice over the full-window hits |
| Scenes.SceneHitLeast | src/hittable.rs:32-42 | `Scene::hit` is none iff no hittable hits in (t_min, t_max); otherwise a least hit, earliest on ties; an empty scene gives none |
| Scenes.LegacySceneHit | src/hitable.rs:40-50 | the older sphere-list loop returns the least hit over all spheres, earliest on ties |
| Scenes.NearerTime | src/bvh.rs:76-91 | the node's nearer-child choice gives the same t as the earlier-first choice |
| Scenes.BvhNodeNeverPrunes | src/bvh.rs:72-91 | given the always-true box test, a node's hit is the nearer of its children's hits, smaller t winning and ties going to the right |
| Scenes.BvhHitIsLeastLeaf | src/bvh.rs:71-95 | the t a BVH returns is the least t over all its leaves |
| Scenes.HitsAppend | src/hittable.rs:35 | the per-hittable queries of a concatenation concatenate |
| Scenes.BvhMatchesScan | src/bvh.rs:71-95 | a BVH returns the same t as the linear scan over its leaves |
| Scenes.SceneBoundingBox | src/hittable.rs:44-64 | the loop computes `ListBox`: none for an empty scene, none at the first child without a box, else the fold of `surrounding_box` |
| Scenes.FoldBoxesNone | src/hittable.rs:55-61 | the fold is none iff some remaining child has no box |
| Scenes.ListBoxNone | src/hittable.rs:44-61 | the scene box is none iff the scene is empty or some child has no box |
| Scenes.FoldBoxesBounds | src/hittable.rs:55-63 | the fold contains its start and every child box, and is the least such box |
| Scenes.ListBoxBounds | src/hittable.rs:44-64 | the scene box contains every child box and is the least box that does |
| Scenes.BoundingBoxExists | src/bvh.rs:97-99 | a box exists exactly for hittables that have one, at any times; a BVH node returns its stored box whatever the times |
| Bvh.AxisOf | src/bvh.rs:17 | for a draw in [0, 1], `(3 * draw) as i32` selects x, y or z by the third the draw falls in, the `_` arm taking 2 and 3 |
| Bvh.AxisOfOne | src/bvh.rs:17 | the draw 1.0 selects the z axis |
| Bvh.SortSegment | src/bvh.rs:26-36 | the segment is rearranged in place into non-decreasing key order; nothing outside it changes |
| Bvh.SortBoxes | src/bvh.rs:19-36 | after sorting, the segment is a permutation of the old one, sorted by the drawn axis of each box's min, and every hittable still has a box |
| Bvh.Build | src/bvh.rs:16-67 | none iff some hittable of the segment has no box; otherwise a node whose box surrounds its children's, shaped by the split rule, over a permutation of the segment split at `len/2` by the drawn axis |
| Bvh.BuildBoxed | src/bvh.rs:16-67 | with every hittable boxed, a node with the surrounding box, shaped by the split rule, over the sorted and split segment |
| Bvh.Children | src/bvh.rs:40-55 | one hittable aliased twice, two leaves in sorted order, or two recursively built halves; both children have boxes |
| Bvh.BuildHalves | src/bvh.rs:43-54 | the halves `[..len/2]` and `[len/2..]` become two nodes; each half's slots keep that half's multiset |
| Bvh.Join | src/bvh.rs:57-66 | the node keeps both children and stores `surrounding_box` of their boxes, whatever the times |
| Bvh.Half | src/bvh.rs:45-50 | for len ≥ 2 both halves are non-empty and strictly shorter |
| Bvh.ShapedTips | src/bvh.rs:40-55 | the leaf slots of a built node read, in order, the segment with each lone hittable of the split doubled |
| Bvh.BuiltSlots | src/bvh.rs:27-54 | the multiset of leaf slots is the segment's multiset with each lone hittable counted twice |
| Bvh.LayoutMultiset | src/bvh.rs:40-55 | the slot layout's multiset is the segment plus its lone hittables |
| Bvh.NoSinglesInPowerOfTwo | src/bvh.rs:40-55 | a segment of length 2^k (k ≥ 1) has no aliased leaf |
| Bvh.HalvesStaySplit | src/bvh.rs:43-54 | rebuilding each half in place keeps every key of the left half at most every key of the right |
| Render.Sky | src/chunk.rs:22-26 | the background blends white into (0.5, 0.7, 1.0): blue is 1, and red and green stay in [0.5, 1] and [0.7, 1] |
| Render.Color | src/chunk.rs:11-27 | a miss gives the sky; a hit at or beyond `MAX_DEPTH` gives black |
| Render.BouncesBounded | src/chunk.rs:13-18 | from depth d, `color` scatters at most `MAX_DEPTH - d` times, and never at or beyond the cap |
| Render.ColorUsesFixedWindow | src/chunk.rs:12 | the scene is only queried with `t_min = 0.001`, `t_max = f32::MAX` |
| Render.ScatterOnlyBelowCap | src/main.rs:40-56 | `color` consults `scatter` only at depths in [d, MAX_DEPTH); a miss never calls it |
| Render.AbsorbedIsBlack | src/chunk.rs:13-21 | a hit whose material absorbs the ray is black, after one scatter call |
| Tiles.Process | src/chunk.rs:75-105 | the tile loop leaves the buffer equal to painting the tile row by row, skipping indices at or beyond the buffer length |
| Tiles.PaintWrites | src/chunk.rs:76-96 | for a tile at most a frame wide, every in-range pixel (i, j) of the tile holds the shade of (i, HEIGHT - j) |
| Tiles.PaintKeeps | src/chunk.rs:76-99 | an entry that no (i, j) of the tile indexes is unchanged |
| Tiles.WrapsToNextRow | src/chunk.rs:95 | illustration: there is no column clipping: the tile at x = 790 writes column 805 of row 0 into pixel 5 of row 1 |
| Tiles.PaintPoint | src/chunk.rs:76-99 | for a tile inside the frame's width, each entry is the shade exactly when the tile covers it, else unchanged |
| Tiles.Grid | src/main.rs:104-107 | the grid has ceil(600/50) × ceil(800/50) = 12 × 16 tiles, tile t being `GridChunk(t)` |
| Tiles.GridIndex | src/main.rs:105-107 | tile (i, j) has size 50×50 and offset (50i, 50j) |
| Tiles.GridChunkInFrame | src/main.rs:31-37 | every tile of the grid lies inside the 800×600 frame |
| Tiles.GridPartition | src/main.rs:105-107 | each pixel of the frame is covered by exactly one tile |
| Tiles.NewFramebuffer | src/main.rs:74 | the framebuffer starts as WIDTH*HEIGHT zeros |
| Tiles.RenderTiles | src/main.rs:105-117 | processing every tile of the grid writes every pixel k of the frame with its shade |
| Tiles.Frame | src/main.rs:74-163 | the rendered frame holds each pixel's shade, and the saved bytes are their `to_rgb` triples, `3*WIDTH*HEIGHT` long |

## Left out

- Window creation, the refresh loop, key handling and PNG saving (src/main.rs:77-83, 121-173): input and output; only the byte buffer handed to the PNG encoder is modelled.
- The thread pool, channel, `Arc`/`Mutex` locking (src/main.rs:100-119, src/chunk.rs:49, 95): concurrency; tiles are processed one after another over one array.
- The global `RANDOM`, `init_rand!`, `random()` and clock-based seeding (src/random.rs:14-19, 73-101): global state and the clock; seeds and draws are parameters.
- `XorShift32::normal` and the f32 division of `linear` (src/random.rs:45, 62-71): floating point; only the integer numerator and denominator are modelled.
- Xoshiro.Rol45Bit: the rotation laws are stated for the shift 45 that `linear` uses, not for every `k`, because this solver does not decide bit-vector shifts by a variable amount.
- Perlin gradient values beyond their construction, `trilinear_interp`, `perlin_interpolation` and `turb` (src/perlin.rs:83-135): floating-point numerics.
- Perlin.Permute: draws are required to lie in [0, 1). A draw of exactly 1.0 gives the target i + 1: at i = 255 that index is out of bounds and `swap` panics; at any other i it swaps with the already placed entry p[i + 1], which Perlin.ShuffleKeepsAbove does not allow. The model excludes both cases.
- The textures, the camera and vec3's sampling loops (src/texture.rs, src/camera.rs, src/vec3.rs): floating point and trigonometry; unit vectors, square root and refraction are function parameters, and `random_in_unit_sphere` is a supplied vector.
- `random_scene` (src/main.rs:176-249): preset scene data.
- Per-pixel sampling, averaging, the square-root tone curve and the ×255.99 quantisation (src/chunk.rs:78-94): floating point; a pixel's value is an abstract shade of (i, HEIGHT - j).
- Pixels.FromRgb: the saturating `f32 as u32` cast of each channel at the start of `from_rgb` (src/chunk.rs:30, src/main.rs:59) is not modelled; the channels are taken as the 32-bit words that cast produces.
- f32 rounding, NaN and infinity: reals are exact; `recip` of a zero direction component (src/aabb.rs:27) is excluded by requiring non-zero direction components for rays sent into a BVH node (`Scenes.Aimed`); spheres and lists of spheres take any ray, and `partial_cmp().unwrap()` (src/bvh.rs:28) cannot fail on reals.
- Tiles.RowsInFrame: `HEIGHT - j` (src/chunk.rs:82) is a usize subtraction; for j > HEIGHT a debug build panics and a release build wraps. The model requires every row of the tile to be at most HEIGHT and so does not describe either outcome; Tiles.GridChunkInFrame shows that every tile of the grid meets the requirement.
- Perlin.LatticeIndex: `i + d` wraps in 32 bits, which is how a release build behaves. A debug build panics on overflow at i = i32::MAX, and that i is reachable because `floor() as i32` (src/perlin.rs:29) saturates on large coordinates; the panic is not modelled.
- The f32 `ceil` of the grid size (src/main.rs:105-106) is the integer ceiling division, which agrees with it for these sizes.
- A sphere has no bounding box: in this revision `Sphere` implements only the older `Hitable` trait (src/sphere.rs:25), so the model gives it none.
- `Scene` of src/hittable.rs is a list of hittables; a list inside a scene stands for it (the `List` case of the datatype).
- Bvh.SortSegment: `sort_unstable_by` leaves the order of equal keys unspecified; the model sorts by insertion, one of those orders, and proves only what holds for every order (sorted, a permutation).
- Bvh.Build: the source recurses forever on an empty slice (src/bvh.rs:38-54); the model requires a non-empty segment. The `expect`/`panic!` on a missing box (src/bvh.rs:22, 61) is modelled as a `None` result.
- Bvh.Build: the axis draws of the whole build are one sequence indexed by position (node at `next`, left subtree from `next + 1`, right subtree from `next + 2*(len/2)`), not the order in which the global generator would hand them out.
- Render.Color: `scatter(ray, rec, depth)` is an oracle standing for `rec.material.scatter` with that bounce's draws; `Materials.Scatter` is the rule such an oracle follows, and the two are not composed.
