/** The random draws the generators and the game make through
    random_int_range and chance. Both go through floating point in the
    source; here each draw is an explicit oracle input: an arbitrary raw
    natural number for an integer draw and an arbitrary boolean for a
    chance, consumed in order. */
module Draws {

  /** The integer an integer draw yields from raw oracle value `raw`:
      every value of [low, high] is reachable and nothing outside it is. */
  function Pick(raw: nat, low: int, high: int): (r: int)
    requires low <= high
    ensures low <= r <= high
  {
    low + raw % (high - low + 1)
  }

  /** Every value of the range is the pick of some raw value. */
  lemma PickCovers(low: int, high: int, v: int)
    requires low <= v <= high
    ensures Pick(v - low, low, high) == v
  {
  }

  /** random_int_range(v, v) always returns v. */
  lemma PickSingleton(raw: nat, v: int)
    ensures Pick(raw, v, v) == v
  {
  }

  /** The stream of outcomes behind random_int_range and chance. */
  class Oracle {
    const ints: nat -> nat
    const coins: nat -> bool
    var usedInts: nat
    var usedCoins: nat

    constructor (ints: nat -> nat, coins: nat -> bool)
      ensures this.ints == ints && this.coins == coins
      ensures usedInts == 0 && usedCoins == 0
    {
      this.ints := ints;
      this.coins := coins;
      usedInts, usedCoins := 0, 0;
    }

    /** The `k`-th integer draw from now, in [low, high]. */
    function PeekInt(k: nat, low: int, high: int): int
      requires low <= high
      reads this
    {
      Pick(ints(usedInts + k), low, high)
    }

    /** random_int_range(low, high); callers guarantee low <= high. */
    method IntRange(low: int, high: int) returns (r: int)
      requires low <= high
      modifies this
      ensures r == old(PeekInt(0, low, high))
      ensures usedInts == old(usedInts) + 1 && usedCoins == old(usedCoins)
    {
      r := Pick(ints(usedInts), low, high);
      usedInts := usedInts + 1;
    }

    /** chance(p): the probability is not modelled, only the outcome. */
    method Chance() returns (b: bool)
      modifies this
      ensures b == coins(old(usedCoins))
      ensures usedCoins == old(usedCoins) + 1 && usedInts == old(usedInts)
    {
      b := coins(usedCoins);
      usedCoins := usedCoins + 1;
    }
  }
}
