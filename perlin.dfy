/**
 * Perlin noise tables: the shuffled permutation tables, the table of gradient vectors,
 * and the lattice hashing `noise` uses to pick a gradient for each corner of the unit
 * cell around a point. The random draws the source takes from its global generator are
 * parameters here; a draw is a real in [0, 1).
 */
module Perlin {
  import opened Vectors

  /** Number of entries in each permutation table and in the gradient table. */
  const TableSize: nat := 256

  /** All draws lie in [0, 1). */
  ghost predicate ValidDraws(draws: seq<real>)
  {
    forall k :: 0 <= k < |draws| ==> 0.0 <= draws[k] < 1.0
  }

  /** `(random() * (i as f32 + 1.0)) as usize`: the swap partner drawn at index i. */
  function Target(draw: real, i: nat): (t: int)
    requires 0.0 <= draw < 1.0
    ensures 0 <= t <= i
  {
    MulBelow(draw, (i + 1) as real);
    (draw * (i + 1) as real).Floor
  }

  lemma MulBelow(d: real, n: real)
    requires 0.0 <= d < 1.0 && 0.0 < n
    ensures 0.0 <= d * n < n
  {
  }

  /** `swap(&mut p[i], &mut p[j])` on a sequence. */
  function Swap<T>(s: seq<T>, i: int, j: int): (r: seq<T>)
    requires 0 <= i < |s| && 0 <= j < |s|
    ensures |r| == |s| && r[i] == s[j] && r[j] == s[i]
    ensures forall k :: 0 <= k < |s| && k != i && k != j ==> r[k] == s[k]
  {
    s[i := s[j]][j := s[i]]
  }

  /**
   * The iterations of `permute` for the indices n-1, n-2, ..., 0, in that order: the
   * sequence after the loop has run from index n-1 down to the end.
   */
  function ShuffleDown<T>(s: seq<T>, draws: seq<real>, n: nat): seq<T>
    requires n <= |s| && |s| == |draws| && ValidDraws(draws)
    decreases n
  {
    if n == 0 then s
    else ShuffleDown(Swap(s, n - 1, Target(draws[n - 1], n - 1)), draws, n - 1)
  }

  /** `0, 1, ..., n-1`: the table `perlin_generate_perm` fills before shuffling. */
  function Range(n: nat): (r: seq<int>)
    ensures |r| == n
    ensures forall k :: 0 <= k < n ==> r[k] == k
  {
    seq(n, k => k)
  }

  /** A permutation table: 256 entries, holding each of 0..255 exactly once. */
  ghost predicate IsPermutationTable(t: seq<int>)
  {
    && |t| == TableSize
    && (forall k :: 0 <= k < |t| ==> 0 <= t[k] < TableSize)
    && (forall v :: 0 <= v < TableSize ==> multiset(t)[v] == 1)
  }

  /** `permute`: the Fisher–Yates shuffle in place, from the last index down. */
  method Permute<T>(p: array<T>, draws: seq<real>)
    requires |draws| == p.Length && ValidDraws(draws)
    modifies p
    ensures p[..] == ShuffleDown(old(p[..]), draws, p.Length)
    ensures multiset(p[..]) == multiset(old(p[..]))
  {
    var i := p.Length;
    while i > 0
      invariant 0 <= i <= p.Length
      invariant ShuffleDown(p[..], draws, i) == ShuffleDown(old(p[..]), draws, p.Length)
      decreases i
    {
      i := i - 1;
      var target := Target(draws[i], i);
      ghost var before := p[..];
      p[i], p[target] := p[target], p[i];
      assert p[..] == Swap(before, i, target);
    }
    ShufflePermutes(old(p[..]), draws, p.Length);
  }

  /** `perlin_generate_perm`: the identity table, shuffled. */
  method PerlinGeneratePerm(draws: seq<real>) returns (p: array<int>)
    requires |draws| == TableSize && ValidDraws(draws)
    ensures fresh(p)
    ensures p[..] == ShuffleDown(Range(TableSize), draws, TableSize)
    ensures IsPermutationTable(p[..])
  {
    p := new int[TableSize];
    for i := 0 to TableSize
      invariant forall k :: 0 <= k < i ==> p[k] == k
    {
      p[i] := i;
    }
    assert p[..] == Range(TableSize);
    Permute(p, draws);
    PermutationTables(draws);
  }

  /** `perlin_generate`: 256 unit vectors, each from three draws mapped to [-1, 1). */
  method PerlinGenerate(draws: seq<Vec3>, unit: Vec3 -> Vec3) returns (p: seq<Vec3>)
    requires |draws| == TableSize
    ensures |p| == TableSize
    ensures forall k :: 0 <= k < TableSize ==> p[k] == unit(Sub(Scale(draws[k], 2.0), One))
  {
    p := [];
    for i := 0 to TableSize
      invariant |p| == i
      invariant forall k :: 0 <= k < i ==> p[k] == unit(Sub(Scale(draws[k], 2.0), One))
    {
      var d := draws[i];
      p := p + [unit(Vec3(2.0 * d.x - 1.0, 2.0 * d.y - 1.0, 2.0 * d.z - 1.0))];
    }
  }

  /** The noise tables: `random_vec` and the three permutation tables. */
  datatype Noise = Noise(randomVec: seq<Vec3>, permX: seq<int>, permY: seq<int>, permZ: seq<int>)

  ghost predicate Valid(g: Noise)
  {
    && |g.randomVec| == TableSize
    && IsPermutationTable(g.permX)
    && IsPermutationTable(g.permY)
    && IsPermutationTable(g.permZ)
  }

  /** `Perlin::new`: each table from its own draws. */
  method New(vecDraws: seq<Vec3>, xDraws: seq<real>, yDraws: seq<real>, zDraws: seq<real>,
             unit: Vec3 -> Vec3) returns (g: Noise)
    requires |vecDraws| == TableSize
    requires |xDraws| == TableSize && ValidDraws(xDraws)
    requires |yDraws| == TableSize && ValidDraws(yDraws)
    requires |zDraws| == TableSize && ValidDraws(zDraws)
    ensures Valid(g)
    ensures forall k :: 0 <= k < TableSize ==> g.randomVec[k] == unit(Sub(Scale(vecDraws[k], 2.0), One))
    ensures g.permX == ShuffleDown(Range(TableSize), xDraws, TableSize)
    ensures g.permY == ShuffleDown(Range(TableSize), yDraws, TableSize)
    ensures g.permZ == ShuffleDown(Range(TableSize), zDraws, TableSize)
  {
    var v := PerlinGenerate(vecDraws, unit);
    var x := PerlinGeneratePerm(xDraws);
    var y := PerlinGeneratePerm(yDraws);
    var z := PerlinGeneratePerm(zDraws);
    g := Noise(v, x[..], y[..], z[..]);
  }

  /**
   * `((i + d) & 255) as usize`, for the 32-bit two's-complement lattice coordinate `i`
   * (`p.x().floor() as i32`) and an offset d of 0 or 1; the addition wraps.
   */
  function LatticeIndex(i: bv32, d: nat): (r: int)
    requires d < 2
    ensures 0 <= r < TableSize
  {
    ((i + if d == 0 then 0 else 1) & 0xFF) as int
  }

  /**
   * The XOR of three table entries, each in 0..255, is again in 0..255. The entries are
   * `i32`s below 256, so their XOR is the XOR of their low bytes.
   */
  function Xor3(a: int, b: int, c: int): (r: int)
    requires 0 <= a < TableSize && 0 <= b < TableSize && 0 <= c < TableSize
    ensures 0 <= r < TableSize
  {
    XorBytes(a as bv8, b as bv8, c as bv8) as int
  }

  function XorBytes(a: bv8, b: bv8, c: bv8): bv8 { a ^ b ^ c }

  /** The gradient index `noise` computes for the corner (i + di, j + dj, k + dk). */
  function CornerIndex(g: Noise, i: bv32, j: bv32, k: bv32, di: nat, dj: nat, dk: nat): (r: int)
    requires Valid(g) && di < 2 && dj < 2 && dk < 2
    ensures 0 <= r < |g.randomVec|
  {
    Xor3(g.permX[LatticeIndex(i, di)], g.permY[LatticeIndex(j, dj)], g.permZ[LatticeIndex(k, dk)])
  }

  /** The gradient `noise` stores in `c[di][dj][dk]`. */
  function Corner(g: Noise, i: bv32, j: bv32, k: bv32, di: nat, dj: nat, dk: nat): Vec3
    requires Valid(g) && di < 2 && dj < 2 && dk < 2
  {
    g.randomVec[CornerIndex(g, i, j, k, di, dj, dk)]
  }

  /** The eight corner gradients `noise` gathers into `c` before interpolating. */
  method NoiseCorners(g: Noise, i: bv32, j: bv32, k: bv32) returns (c: array3<Vec3>)
    requires Valid(g)
    ensures fresh(c) && c.Length0 == 2 && c.Length1 == 2 && c.Length2 == 2
    ensures forall di, dj, dk :: 0 <= di < 2 && 0 <= dj < 2 && 0 <= dk < 2 ==>
      c[di, dj, dk] == Corner(g, i, j, k, di, dj, dk)
  {
    c := new Vec3[2, 2, 2];
    for di := 0 to 2
      invariant forall a, b, e :: 0 <= a < di && 0 <= b < 2 && 0 <= e < 2 ==>
        c[a, b, e] == Corner(g, i, j, k, a, b, e)
    {
      for dj := 0 to 2
        invariant forall a, b, e :: 0 <= a < di && 0 <= b < 2 && 0 <= e < 2 ==>
          c[a, b, e] == Corner(g, i, j, k, a, b, e)
        invariant forall b, e :: 0 <= b < dj && 0 <= e < 2 ==>
          c[di, b, e] == Corner(g, i, j, k, di, b, e)
      {
        FillCorners(c, g, i, j, k, di, dj);
      }
    }
  }

  /** The innermost loop of `noise`: the two corners c[di][dj][0] and c[di][dj][1]. */
  method FillCorners(c: array3<Vec3>, g: Noise, i: bv32, j: bv32, k: bv32, di: nat, dj: nat)
    requires Valid(g) && di < 2 && dj < 2
    requires c.Length0 == 2 && c.Length1 == 2 && c.Length2 == 2
    modifies c
    ensures forall e :: 0 <= e < 2 ==> c[di, dj, e] == Corner(g, i, j, k, di, dj, e)
    ensures forall a, b, e :: 0 <= a < 2 && 0 <= b < 2 && 0 <= e < 2 && (a != di || b != dj) ==>
      c[a, b, e] == old(c[a, b, e])
  {
    for dk := 0 to 2
      invariant forall e :: 0 <= e < dk ==> c[di, dj, e] == Corner(g, i, j, k, di, dj, e)
      invariant forall a, b, e :: 0 <= a < 2 && 0 <= b < 2 && 0 <= e < 2 && (a != di || b != dj) ==>
        c[a, b, e] == old(c[a, b, e])
    {
      c[di, dj, dk] := Corner(g, i, j, k, di, dj, dk);
    }
  }

  /** Swapping two entries keeps the multiset. */
  lemma SwapMultiset<T>(s: seq<T>, i: int, j: int)
    requires 0 <= i < |s| && 0 <= j < |s|
    ensures multiset(Swap(s, i, j)) == multiset(s)
  {
    var r := s[i := s[j]];
    assert multiset(r) == multiset(s) - multiset{s[i]} + multiset{s[j]};
    assert multiset(r[j := s[i]]) == multiset(r) - multiset{r[j]} + multiset{s[i]};
  }

  /** The shuffle is a permutation: it keeps the length and the multiset. */
  lemma {:induction false} ShufflePermutes<T>(s: seq<T>, draws: seq<real>, n: nat)
    requires n <= |s| && |s| == |draws| && ValidDraws(draws)
    ensures |ShuffleDown(s, draws, n)| == |s|
    ensures multiset(ShuffleDown(s, draws, n)) == multiset(s)
    decreases n
  {
    if n > 0 {
      var t := Target(draws[n - 1], n - 1);
      SwapMultiset(s, n - 1, t);
      ShufflePermutes(Swap(s, n - 1, t), draws, n - 1);
    }
  }

  /**
   * The iterations for the indices below n move only entries below n, so once the
   * iteration for index i has run, the entries at i and above stay where they are.
   */
  lemma {:induction false} ShuffleKeepsAbove<T>(s: seq<T>, draws: seq<real>, n: nat)
    requires n <= |s| && |s| == |draws| && ValidDraws(draws)
    ensures |ShuffleDown(s, draws, n)| == |s|
    ensures forall k :: n <= k < |s| ==> ShuffleDown(s, draws, n)[k] == s[k]
    decreases n
  {
    if n > 0 {
      var t := Target(draws[n - 1], n - 1);
      ShuffleKeepsAbove(Swap(s, n - 1, t), draws, n - 1);
    }
  }

  /** Each of 0..n-1 occurs once in `Range(n)`, and nothing else occurs. */
  lemma {:induction false} RangeMultiset(n: nat)
    ensures forall v :: multiset(Range(n))[v] == (if 0 <= v < n then 1 else 0)
  {
    if n > 0 {
      RangeMultiset(n - 1);
      assert Range(n) == Range(n - 1) + [n - 1];
    }
  }

  /** `perlin_generate_perm` yields a permutation of 0..255 for every admissible draw. */
  lemma PermutationTables(draws: seq<real>)
    requires |draws| == TableSize && ValidDraws(draws)
    ensures IsPermutationTable(ShuffleDown(Range(TableSize), draws, TableSize))
  {
    var t := ShuffleDown(Range(TableSize), draws, TableSize);
    ShufflePermutes(Range(TableSize), draws, TableSize);
    RangeMultiset(TableSize);
    forall k | 0 <= k < |t|
      ensures 0 <= t[k] < TableSize
    {
      assert t[k] in multiset(Range(TableSize));
    }
  }

  /** Illustration of LatticeIndex at one point: a negative coordinate wraps, -1 selecting entry 255 and -1 + 1 entry 0. */
  lemma LatticeIndexNegative()
    ensures LatticeIndex(0xFFFF_FFFF, 0) == 255
    ensures LatticeIndex(0xFFFF_FFFF, 1) == 0
  {
  }
}
