/**
 * The renderer's pseudo-random generator: a Xoshiro256+ state of four 64-bit words
 * (the type is called `XorShift32` in the source), seeded through a SplitMix64-style
 * mixer. All arithmetic is on 64-bit words, so additions and multiplications wrap.
 *
 * Each word operation of the source (`^`, `<<`, `>>`, `wrapping_add`, `wrapping_mul`,
 * `wrapping_div`) is a named function below, so that the state-machine proofs work on
 * the terms the source builds and the bit-level facts are proved once, in small lemmas.
 */
module Xoshiro {
  /** The divisor `split_mix_64` applies to its state (SplitMix64 adds this constant instead). */
  const Golden: bv64 := 0x9E37_79B9_7F4A_7C15

  /** The two multipliers of the SplitMix64 output mix. */
  const MixMul1: bv64 := 0xBF58_476D_1CE4_E5B9
  const MixMul2: bv64 := 0x94D0_49BB_1331_11EB

  /** `2u64.pow(61) - 1`: the denominator of the drawn ratio. */
  const Denominator: bv64 := 0x1FFF_FFFF_FFFF_FFFF

  function Xor(a: bv64, b: bv64): bv64 { a ^ b }

  function Shl(a: bv64, k: bv64): bv64
    requires k < 64
  {
    a << k
  }

  function Shr(a: bv64, k: bv64): bv64
    requires k < 64
  {
    a >> k
  }

  function WrappingAdd(a: bv64, b: bv64): bv64 { a + b }

  function WrappingMul(a: bv64, b: bv64): bv64 { a * b }

  function WrappingDiv(a: bv64, b: bv64): bv64
    requires b != 0
  {
    a / b
  }

  /** `rol_64`: rotate left by `k` places. */
  function Rol64(u: bv64, k: bv64): bv64
    requires 0 < k < 64
  {
    (u << k) | (u >> (64 - k))
  }

  /** The output mix `split_mix_64` applies to the old value of `*s`. */
  function Mix(s: bv64): bv64
  {
    var a := WrappingMul(Xor(s, Shr(s, 30)), MixMul1);
    var b := WrappingMul(Xor(a, Shr(a, 27)), MixMul2);
    Xor(b, Shr(b, 31))
  }

  /**
   * The state `new(Some(seed))` builds: the first mix fills words 0 and 1, the second
   * (of the divided seed) words 2 and 3; each odd word is its even word shifted down 32.
   */
  function SeedState(seed: bv64): seq<bv64>
  {
    var first := Mix(seed);
    var second := Mix(WrappingDiv(seed, Golden));
    [first, Shr(first, 32), second, Shr(second, 32)]
  }

  /**
   * The state after one `linear` call, word by word, in the order the source combines
   * them: with t = s1 << 17, s2 ^= s0, s3 ^= s1, s1 ^= s2, s0 ^= s3, s2 ^= t, s3 = rol(s3, 45).
   */
  function Step(s: seq<bv64>): seq<bv64>
    requires |s| == 4
  {
    [Xor(s[0], Xor(s[3], s[1])),
     Xor(s[1], Xor(s[2], s[0])),
     Xor(Xor(s[2], s[0]), Shl(s[1], 17)),
     Rol64(Xor(s[3], s[1]), 45)]
  }

  /** The integer part of `linear`'s result: the wrapping sum of words 0 and 3, shifted down 3. */
  function Numerator(s: seq<bv64>): bv64
    requires |s| == 4
  {
    Shr(WrappingAdd(s[0], s[3]), 3)
  }

  /** Undoes `u ^ (u << 17)`. */
  function UnShift17(y: bv64): bv64
  {
    Xor(Xor(Xor(y, Shl(y, 17)), Shl(y, 34)), Shl(y, 51))
  }

  /** The state a step came from: an independent inverse of `Step`. */
  function Unstep(r: seq<bv64>): seq<bv64>
    requires |r| == 4
  {
    var s3x1 := Rol64(r[3], 19);
    var s0 := Xor(r[0], s3x1);
    var s1x2 := Xor(r[1], s0);
    var s1 := UnShift17(Xor(Xor(s1x2, r[2]), s0));
    [s0, s1, Xor(s1x2, s1), Xor(s3x1, s1)]
  }

  /** The generator: `state` is the source's `[u64; 4]`. */
  class XorShift32 {
    var state: array<bv64>

    ghost predicate Valid()
      reads this
    {
      state.Length == 4
    }

    /** The four words of the state, in order. */
    function Words(): seq<bv64>
      requires Valid()
      reads this, state
    {
      [state[0], state[1], state[2], state[3]]
    }

    /** `new(Some(seed))`: two `split_mix_64` calls, each spread over a pair of words. */
    constructor (seed: bv64)
      ensures Valid() && fresh(state)
      ensures Words() == SeedState(seed)
    {
      var s := seed;
      var words := new bv64[4];
      var tmp;
      tmp, s := SplitMix64(s);
      words[0] := tmp;
      words[1] := Shr(tmp, 32);
      tmp, s := SplitMix64(s);
      words[2] := tmp;
      words[3] := Shr(tmp, 32);
      state := words;
    }

    /**
     * `split_mix_64`: returns the mixed value and the new value of `*s`, which is
     * the old value divided (not advanced) by the constant.
     */
    static method SplitMix64(s: bv64) returns (result: bv64, next: bv64)
      ensures next == WrappingDiv(s, Golden)
      ensures result == Mix(s)
    {
      result := s;
      next := WrappingDiv(result, Golden);
      result := WrappingMul(Xor(result, Shr(result, 30)), MixMul1);
      result := WrappingMul(Xor(result, Shr(result, 27)), MixMul2);
      result := Xor(result, Shr(result, 31));
    }

    /** `linear` up to the float conversion: returns the numerator and advances the state. */
    method Linear() returns (numerator: bv64)
      requires Valid()
      modifies state
      ensures Valid()
      ensures Words() == Step(old(Words()))
      ensures numerator == Numerator(old(Words()))
    {
      var result := WrappingAdd(state[0], state[3]);
      var t := Shl(state[1], 17);
      state[2] := Xor(state[2], state[0]);
      state[3] := Xor(state[3], state[1]);
      state[1] := Xor(state[1], state[2]);
      state[0] := Xor(state[0], state[3]);
      state[2] := Xor(state[2], t);
      state[3] := Rol64(state[3], 45);
      numerator := Shr(result, 3);
    }
  }

  /** Bit i of `rol_64(u, 45)` is bit (i - 45) mod 64 of u. */
  lemma Rol45Bit(u: bv64, i: bv64)
    requires i < 64
    ensures (Rol64(u, 45) >> i) & 1 == (u >> ((i + 19) % 64)) & 1
  {
  }

  /** Rotating by 45 and then by 64 - 45 restores the word. */
  lemma Rol45Inverse(u: bv64)
    ensures Rol64(Rol64(u, 45), 19) == u
  {
  }

  /** The numerator is at most the denominator, so the drawn ratio lies in [0, 1]. */
  lemma NumeratorBound(s: seq<bv64>)
    requires |s| == 4
    ensures Numerator(s) <= Denominator
  {
  }

  /** ... and it reaches the denominator, so the ratio can be exactly 1. */
  lemma NumeratorReachesDenominator()
    ensures Numerator([0xFFFF_FFFF_FFFF_FFFF, 0, 0, 0]) == Denominator
  {
  }

  /** The result of `linear` depends on words 0 and 3 of the state only. */
  lemma NumeratorWords(s: seq<bv64>, s': seq<bv64>)
    requires |s| == 4 && |s'| == 4
    requires s[0] == s'[0] && s[3] == s'[3]
    ensures Numerator(s) == Numerator(s')
  {
  }

  /** The all-zero state is a fixed point of the step, and it draws numerator 0. */
  lemma ZeroFixedPoint()
    ensures Step([0, 0, 0, 0]) == [0, 0, 0, 0]
    ensures Numerator([0, 0, 0, 0]) == 0
  {
  }

  /** `split_mix_64` of 0 returns 0. */
  lemma MixZero()
    ensures Mix(0) == 0
  {
  }

  /** Any state value below the constant divides to 0. */
  lemma DivideSmall(s: bv64)
    requires s < Golden
    ensures WrappingDiv(s, Golden) == 0
  {
  }

  /**
   * The seeded state: each odd word is the upper half of the even word before it,
   * and a seed below the constant leaves words 2 and 3 zero.
   */
  lemma SeedStateShape(seed: bv64)
    ensures |SeedState(seed)| == 4
    ensures SeedState(seed)[1] == Shr(SeedState(seed)[0], 32)
    ensures SeedState(seed)[3] == Shr(SeedState(seed)[2], 32)
    ensures seed < Golden ==> SeedState(seed)[2] == 0 && SeedState(seed)[3] == 0
  {
    if seed < Golden {
      DivideSmall(seed);
      MixZero();
      assert Shr(0, 32) == 0;
    }
  }

  // Laws of the word operations. The proofs below rewrite with these laws instead of
  // unfolding the operations, which keeps each proof obligation small.

  lemma XorAssoc(a: bv64, b: bv64, c: bv64)
    ensures Xor(a, Xor(b, c)) == Xor(Xor(a, b), c)
  {
  }

  lemma XorComm(a: bv64, b: bv64)
    ensures Xor(a, b) == Xor(b, a)
  {
  }

  lemma XorCancel(a: bv64, b: bv64)
    ensures Xor(Xor(a, b), b) == a
  {
  }

  lemma XorTelescope(a: bv64, b: bv64, c: bv64)
    ensures Xor(Xor(a, b), Xor(b, c)) == Xor(a, c)
  {
    XorAssoc(Xor(a, b), b, c);
    XorCancel(a, b);
  }

  lemma XorZero(a: bv64)
    ensures Xor(a, 0) == a
  {
  }

  lemma ShlXor17(a: bv64, b: bv64)
    ensures Shl(Xor(a, b), 17) == Xor(Shl(a, 17), Shl(b, 17))
  {
  }

  lemma ShlXor34(a: bv64, b: bv64)
    ensures Shl(Xor(a, b), 34) == Xor(Shl(a, 34), Shl(b, 34))
  {
  }

  lemma ShlXor51(a: bv64, b: bv64)
    ensures Shl(Xor(a, b), 51) == Xor(Shl(a, 51), Shl(b, 51))
  {
  }

  lemma ShlShl(u: bv64)
    ensures Shl(Shl(u, 17), 17) == Shl(u, 34)
    ensures Shl(Shl(u, 17), 34) == Shl(u, 51)
    ensures Shl(Shl(u, 17), 51) == 0
  {
  }

  /** `UnShift17` undoes `u ^ (u << 17)`. */
  lemma UnShift17Inverse(u: bv64)
    ensures UnShift17(Xor(u, Shl(u, 17))) == u
  {
    var s17, s34, s51 := Shl(u, 17), Shl(u, 34), Shl(u, 51);
    var y := Xor(u, s17);
    ShlXor17(u, s17);
    ShlXor34(u, s17);
    ShlXor51(u, s17);
    ShlShl(u);
    assert Shl(y, 17) == Xor(s17, s34);
    assert Shl(y, 34) == Xor(s34, s51);
    XorZero(s51);
    assert Shl(y, 51) == s51;
    XorTelescope(u, s17, s34);
    XorTelescope(u, s34, s51);
    XorCancel(u, s51);
  }

  /** The step is a bijection on states: `Unstep` recovers the state before it. */
  lemma StepInvertible(s: seq<bv64>)
    requires |s| == 4
    ensures Unstep(Step(s)) == s
  {
    var r := Step(s);
    var x31 := Xor(s[3], s[1]);
    var t := Shl(s[1], 17);
    Rol45Inverse(x31);
    var s3x1 := Rol64(r[3], 19);
    assert s3x1 == x31;
    XorCancel(s[0], x31);
    var s0 := Xor(r[0], s3x1);
    assert s0 == s[0];
    XorAssoc(s[1], s[2], s[0]);
    XorCancel(Xor(s[1], s[2]), s[0]);
    var s1x2 := Xor(r[1], s0);
    assert s1x2 == Xor(s[1], s[2]);
    XorAssoc(s[2], s[0], t);
    XorTelescope(s[1], s[2], Xor(s[0], t));
    XorComm(s[0], t);
    XorAssoc(s[1], t, s[0]);
    XorCancel(Xor(s[1], t), s[0]);
    assert Xor(Xor(s1x2, r[2]), s0) == Xor(s[1], t);
    UnShift17Inverse(s[1]);
    var s1 := UnShift17(Xor(Xor(s1x2, r[2]), s0));
    assert s1 == s[1];
    XorComm(s[1], s[2]);
    XorCancel(s[2], s[1]);
    XorCancel(s[3], s[1]);
  }
}
