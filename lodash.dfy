/**
 The two lodash helpers the engine draws its randomness from. Callers rely
 only on the contracts: `Random(lo, hi)` yields some integer in [lo, hi] and
 `Shuffle(xs)` some permutation of `xs`. The bodies are one deterministic way
 of meeting those contracts; nothing proved about the engine depends on them.
 */
module Lodash {
  class RandomSource {
    var seed: nat

    constructor (seed: nat)
      ensures this.seed == seed
    {
      this.seed := seed;
    }

    /** `_.random(lo, hi)`: an integer in the inclusive range [lo, hi]. */
    method Random(lo: int, hi: int) returns (x: int)
      requires lo <= hi
      modifies this
      ensures lo <= x <= hi
    {
      x := lo + seed % (hi - lo + 1);
      seed := (seed * 1103515245 + 12345) % 2147483648;
    }

    /** `_.shuffle(xs)`: the elements of `xs` in some order. */
    method Shuffle(xs: seq<int>) returns (ys: seq<int>)
      modifies this
      ensures |ys| == |xs| && multiset(ys) == multiset(xs)
    {
      if xs == [] {
        ys := [];
      } else {
        var k := seed % |xs|;
        ys := xs[k..] + xs[..k];
        assert xs == xs[..k] + xs[k..];
        seed := (seed * 1103515245 + 12345) % 2147483648;
      }
    }
  }
}
