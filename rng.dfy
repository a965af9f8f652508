/**
 * System.Random as the carvers use it: each call to `Next(n)` consumes the
 * next draw of a stream that is fixed when the generator is created and
 * otherwise arbitrary, so every property proved about a carver holds for
 * every sequence of random choices.
 */
module Rng {

  class Random {
    /** The raw draws; the i-th call to Next reduces `stream(i)` into range. */
    const stream: nat -> nat
    /** How many draws have been consumed. */
    var draws: nat

    constructor(stream: nat -> nat)
      ensures this.stream == stream && draws == 0
    {
      this.stream := stream;
      draws := 0;
    }

    /** A draw in `[0, maxValue)`; 0 when `maxValue` is 0. */
    method Next(maxValue: int) returns (r: int)
      requires maxValue >= 0
      modifies this
      ensures maxValue == 0 ==> r == 0
      ensures maxValue > 0 ==> 0 <= r < maxValue && r == stream(old(draws)) % maxValue
      ensures draws == old(draws) + 1
    {
      r := if maxValue == 0 then 0 else stream(draws) % maxValue;
      draws := draws + 1;
    }
  }
}
