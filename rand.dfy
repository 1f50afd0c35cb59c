/**
 * The fuzzer's random source (libafl's `Rand`), as an oracle: the model
 * relies only on `below(n)` returning a number below `n`.
 */
module Random {
  /** A random source; its state and the update rule stand in for libafl's generator. */
  class Rand {
    var state: nat

    constructor (seed: nat)
      ensures state == seed
    {
      state := seed;
    }

    /** `below(n)`: some number below `n`. */
    method Below(n: nat) returns (r: nat)
      requires n > 0
      modifies this
      ensures r < n
    {
      state := (state * 6364136223846793005 + 1442695040888963407) % 0x1_0000_0000_0000_0000;
      r := state % n;
    }

    /** `choose`: the index of some element of a non-empty list. */
    method ChooseIndex<T>(options: seq<T>) returns (i: nat)
      requires |options| > 0
      modifies this
      ensures i < |options|
    {
      i := Below(|options|);
    }
  }
}
