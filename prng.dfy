/** The xorshift32 generator that picks the column to evict (CacheTable/XorShiftRandom.cs). */
module Prng {
  import opened Arith

  /** `x ^= x << 13` */
  function XorShl13(x: bv32): bv32 { x ^ (x << 13) }

  /** `x ^= x >> 17` */
  function XorShr17(x: bv32): bv32 { x ^ (x >> 17) }

  /** `x ^= x << 5` */
  function XorShl5(x: bv32): bv32 { x ^ (x << 5) }

  /**
   * One xorshift32 step on an unsigned 32-bit word. Each xor-shift step is
   * invertible, so zero is the only word that maps to zero: a non-zero state
   * never reaches the all-zero fixed point.
   */
  function XorShift32(x: bv32): (y: bv32)
    ensures x != 0 ==> y != 0
  {
    XorShl5(XorShr17(XorShl13(x)))
  }

  /**
   * The value `Next(max)` returns from a generator in `state`: the successor state,
   * widened to `long` with `max`, reduced by C#'s `%` and narrowed to `int`.
   */
  function NextValue(state: bv32, max: int): (r: int)
    requires max != 0
    ensures 0 <= r < Abs(max)
  {
    CRem(XorShift32(state) as int, max)
  }

  /** The generator object; `state` is the whole of its internal state. */
  class XorShiftRandom {
    var state: bv32

    /** The seeded constructor keeps the seed as it is. */
    constructor (seed: bv32)
      ensures state == seed
    {
      state := seed;
    }

    /**
     * The default constructor draws a seed from the process-wide seed source until it is
     * non-zero; `draws` stands for what that source yields, in order.
     */
    constructor FromSeedSource(draws: seq<bv32>)
      requires exists i :: 0 <= i < |draws| && draws[i] != 0
      ensures state != 0
      ensures state in draws
    {
      var seed := GetNonZeroSeed(draws);
      state := seed;
    }

    /** Advances the state by one xorshift32 step and reduces it into `[0, |max|)`. */
    method Next(max: int) returns (r: int)
      requires max != 0
      modifies this
      ensures state == XorShift32(old(state))
      ensures r == NextValue(old(state), max)
      ensures old(state) != 0 ==> state != 0
    {
      var x := state;
      x := XorShl13(x);
      x := XorShr17(x);
      x := XorShl5(x);
      assert x == XorShift32(state);
      state := x;
      r := CRem(x as int, max);
    }
  }

  /**
   * Returns the first non-zero value the seed source yields, skipping zeros, so that
   * the generator never starts in the all-zero fixed point. The source loops until a
   * non-zero value arrives; here the stream is finite and must contain one.
   */
  method GetNonZeroSeed(draws: seq<bv32>) returns (seed: bv32)
    requires exists i :: 0 <= i < |draws| && draws[i] != 0
    ensures seed != 0
    ensures exists i :: 0 <= i < |draws| && draws[i] == seed && forall j :: 0 <= j < i ==> draws[j] == 0
  {
    var i := 0;
    while draws[i] == 0
      invariant 0 <= i < |draws|
      invariant forall j :: 0 <= j < i ==> draws[j] == 0
      invariant exists k :: i <= k < |draws| && draws[k] != 0
      decreases |draws| - i
    {
      i := i + 1;
    }
    seed := draws[i];
  }
}
