/** `Math.random()` as an injected oracle.  A `Random` object replays a
    caller-supplied, otherwise arbitrary stream of draws, so every sequence of
    random choices the source can make is one some stream produces. */
module Randomness {

  class Random {
    /** The k-th value the stream yields. */
    const draw: nat -> nat
    /** How many values have been consumed so far. */
    var drawn: nat

    constructor (draw: nat -> nat)
      ensures this.draw == draw && drawn == 0
    {
      this.draw := draw;
      drawn := 0;
    }

    /** `Math.floor(Math.random() * n)`: an index below `n`. */
    method Below(n: nat) returns (k: nat)
      requires n > 0
      modifies this
      ensures k < n
      ensures k == draw(old(drawn)) % n
      ensures drawn == old(drawn) + 1
    {
      k := draw(drawn) % n;
      drawn := drawn + 1;
    }

    /** `Math.random() < p` for a fixed probability: an arbitrary boolean
        choice (its distribution is not modelled). */
    method Chance() returns (b: bool)
      modifies this
      ensures b == (draw(old(drawn)) % 2 == 1)
      ensures drawn == old(drawn) + 1
    {
      b := draw(drawn) % 2 == 1;
      drawn := drawn + 1;
    }
  }
}
