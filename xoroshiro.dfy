/** The xoroshiro128+ pseudo-random generator behind every random draw:
    two 64-bit words of global state, an output that is their wrapping
    sum, and a rotate/xor-shift step. It is not cryptographically secure. */
module Xoroshiro {

  datatype State = State(s0: bv64, s1: bv64)

  /** LS(x, k): rotate left by k, written with the two shifts of the source. */
  function LS(x: bv64, k: bv64): bv64
    requires 0 < k < 64
  {
    (x << k) | (x >> (64 - k))
  }

  /** Rotate right, the inverse of LS. */
  function RS(x: bv64, k: bv64): bv64
    requires 0 < k < 64
  {
    (x >> k) | (x << (64 - k))
  }

  /** t ^ (t << 14), the xor-shift half of the first word's update. */
  function XorShift14(t: bv64): bv64 {
    t ^ (t << 14)
  }

  /** The value random_u64 returns from state `s`: s0 + s1 modulo 2^64. */
  function Output(s: State): bv64 {
    s.s0 + s.s1
  }

  /** The first word after a step: LS(s0, 55) ^ t ^ (t << 14) with t = s1 ^ s0. */
  function NextS0(s0: bv64, s1: bv64): bv64 {
    LS(s0, 55) ^ XorShift14(s1 ^ s0)
  }

  /** The second word after a step: LS(s1 ^ s0, 36). */
  function NextS1(s0: bv64, s1: bv64): bv64 {
    LS(s1 ^ s0, 36)
  }

  /** The state random_u64 leaves behind. */
  function Next(s: State): State {
    State(NextS0(s.s0, s.s1), NextS1(s.s0, s.s1))
  }

  /** The state `n` calls of random_u64 leave behind. */
  function Advance(s: State, n: nat): State
    decreases n
  {
    if n == 0 then s else Advance(Next(s), n - 1)
  }

  function PrevS0(s0: bv64, s1: bv64): bv64 {
    RS(s0 ^ XorShift14(RS(s1, 36)), 55)
  }

  /** The state that Next maps to `s`. */
  function Prev(s: State): State {
    State(PrevS0(s.s0, s.s1), RS(s.s1, 36) ^ PrevS0(s.s0, s.s1))
  }

  lemma Rotate36Inverse(x: bv64)
    ensures RS(LS(x, 36), 36) == x
  {
  }

  lemma Rotate55Inverse(x: bv64)
    ensures RS(LS(x, 55), 55) == x
  {
  }

  /** The step is a bijection of the state space: Prev undoes it. */
  lemma PrevNext(s: State)
    ensures Prev(Next(s)) == s
  {
    PrevNextS0(s.s0, s.s1);
  }

  lemma PrevNextS0(a: bv64, b: bv64)
    ensures PrevS0(NextS0(a, b), NextS1(a, b)) == a
  {
    Rotate36Inverse(b ^ a);
    Rotate55Inverse(a);
  }

  /** The all-zero state is a fixed point that only ever yields 0. */
  lemma ZeroIsFixed()
    ensures Next(State(0, 0)) == State(0, 0)
    ensures Output(State(0, 0)) == 0
  {
  }

  /** No non-zero state ever steps to the all-zero state. */
  lemma NonZeroStaysNonZero(s: State)
    requires s != State(0, 0)
    ensures Next(s) != State(0, 0)
  {
    PrevNext(s);
    assert Prev(State(0, 0)) == State(0, 0);
  }

  /** Any number of steps from a non-zero state stays non-zero. */
  lemma {:induction false} AdvanceNonZero(s: State, n: nat)
    requires s != State(0, 0)
    ensures Advance(s, n) != State(0, 0)
    decreases n
  {
    if n > 0 {
      NonZeroStaysNonZero(s);
      AdvanceNonZero(Next(s), n - 1);
    }
  }

  /** Advancing n + 1 times is advancing n times and then once more. */
  lemma {:induction false} AdvanceSucc(s: State, n: nat)
    ensures Advance(s, n + 1) == Next(Advance(s, n))
    decreases n
  {
    if n > 0 {
      AdvanceSucc(Next(s), n - 1);
    }
  }

  /** The state with the seed (a, b) xored in. */
  function Mix(s: State, a: bv64, b: bv64): State {
    State(s.s0 ^ a, s.s1 ^ b)
  }

  /** The number of outputs set_seed discards after mixing in the seed. */
  const SEED_DISCARDS: nat := 64

  /** The global `random_seed` array with the two operations that change it. */
  class Generator {
    var s0: bv64
    var s1: bv64

    function Current(): State
      reads this
    {
      State(s0, s1)
    }

    /** The initial seed, which the source takes from build-time strings. */
    constructor (a: bv64, b: bv64)
      ensures Current() == State(a, b)
    {
      s0, s1 := a, b;
    }

    /** random_u64: return s0 + s1 and step the state. */
    method RandomU64() returns (r: bv64)
      modifies this
      ensures r == old(s0) + old(s1)
      ensures s0 == NextS0(old(s0), old(s1)) && s1 == NextS1(old(s0), old(s1))
    {
      r := s0 + s1;
      s0, s1 := NextS0(s0, s1), NextS1(s0, s1);
    }

    /** set_seed: xor (a, b) into the state, then discard 64 outputs. */
    method SetSeed(a: bv64, b: bv64)
      modifies this
      ensures Current() == Advance(Mix(old(Current()), a, b), SEED_DISCARDS)
    {
      s0, s1 := Mix(Current(), a, b).s0, Mix(Current(), a, b).s1;
      Discard(SEED_DISCARDS);
    }

    /** `n` calls of random_u64 whose results are dropped. */
    method Discard(n: nat)
      modifies this
      ensures Current() == Advance(old(Current()), n)
    {
      ghost var start := Current();
      var i := 0;
      while i < n
        invariant 0 <= i <= n
        invariant Current() == Advance(start, i)
      {
        AdvanceSucc(start, i);
        var _ := RandomU64();
        i := i + 1;
      }
    }
  }

  /** Seeding so that the mixed state is non-zero leaves a state the
      generator can never leave for the all-zero one. */
  lemma SeededStateNonZero(s: State, a: bv64, b: bv64)
    requires Mix(s, a, b) != State(0, 0)
    ensures Advance(Mix(s, a, b), SEED_DISCARDS) != State(0, 0)
  {
    AdvanceNonZero(Mix(s, a, b), SEED_DISCARDS);
  }
}
