/** The deterministic Knuth (Fisher-Yates) shuffle shared by the Rust, Python
    and Go programs: a linear congruential generator with the glibc
    constants, and Algorithm P of section 3.4.2 of Knuth's "The Art of
    Computer Programming", volume 2, driven by it. This module holds the
    reference definitions the three implementations are proved against. */
module LcgSpec {

  const A: nat := 1103515245
  const C: nat := 12345
  /** The modulus, 2^31. */
  const M: nat := 0x8000_0000
  /** One more than the largest u64. */
  const U64: nat := 0x1_0000_0000_0000_0000

  /** One generator step: the new state, which is also the value drawn. */
  function Step(state: nat): (r: nat)
    ensures r < M
  {
    (A * state + C) % M
  }

  /** The state after k steps from `state`. */
  function Iterate(state: nat, k: nat): nat
    decreases k
  {
    if k == 0 then state else Iterate(Step(state), k - 1)
  }

  /** A state below 2^31 keeps the product A * state + C inside u64, so the
      unsigned arithmetic of the Rust and Go versions does not wrap. */
  lemma StepFitsU64(state: nat)
    requires state < M
    ensures A * state + C < U64
  {
  }

  /** Every state reached from a state below 2^31 is below 2^31. */
  lemma {:induction false} IterateBounded(state: nat, k: nat)
    requires state < M
    ensures Iterate(state, k) < M
    decreases k
  {
    if k > 0 {
      IterateBounded(Step(state), k - 1);
    }
  }

  /** What a shuffle leaves: the items and the generator state. */
  datatype Outcome = Outcome(items: seq<int>, state: nat)

  /** The shuffle's remaining steps, for i, i - 1, ..., 1: draw j in [0, i]
      as the next value mod i + 1, then exchange slots i and j. */
  function ShuffleDown(a: seq<int>, state: nat, i: int): Outcome
    requires i < |a|
    decreases i
  {
    if i < 1 then Outcome(a, state)
    else
      var next := Step(state);
      var j := next % (i + 1);
      ShuffleDown(a[i := a[j]][j := a[i]], next, i - 1)
  }

  /** The whole shuffle of a from generator state `state`. */
  function Shuffle(a: seq<int>, state: nat): Outcome
  {
    if |a| == 0 then Outcome(a, state) else ShuffleDown(a, state, |a| - 1)
  }

  /** The remaining steps only exchange elements: a permutation of the same
      length. */
  lemma {:induction false} ShuffleDownPermutes(a: seq<int>, state: nat, i: int)
    requires i < |a|
    ensures |ShuffleDown(a, state, i).items| == |a|
    ensures multiset(ShuffleDown(a, state, i).items) == multiset(a)
    decreases i
  {
    if i >= 1 {
      var next := Step(state);
      var j := next % (i + 1);
      var b := a[i := a[j]][j := a[i]];
      assert multiset(b) == multiset(a) by {
        assert b == a[i := a[j]][j := a[i]];
      }
      ShuffleDownPermutes(b, next, i - 1);
    }
  }

  /** The remaining steps for i draw exactly i values (none when i < 1). */
  lemma {:induction false} ShuffleDownDraws(a: seq<int>, state: nat, i: int)
    requires i < |a|
    ensures ShuffleDown(a, state, i).state == Iterate(state, if i < 1 then 0 else i)
    decreases i
  {
    if i >= 1 {
      var next := Step(state);
      var j := next % (i + 1);
      ShuffleDownDraws(a[i := a[j]][j := a[i]], next, i - 1);
      if i == 1 {
        assert Iterate(next, 0) == Iterate(state, 1);
      }
    }
  }

  /** The shuffle is a permutation of its input. */
  lemma ShufflePermutes(a: seq<int>, state: nat)
    ensures |Shuffle(a, state).items| == |a|
    ensures multiset(Shuffle(a, state).items) == multiset(a)
  {
    if |a| > 0 {
      ShuffleDownPermutes(a, state, |a| - 1);
    }
  }

  /** The shuffle advances the generator exactly n - 1 times for n >= 1 items
      and not at all for an empty input; the state stays below 2^31. */
  lemma ShuffleDraws(a: seq<int>, state: nat)
    requires state < M
    ensures Shuffle(a, state).state == Iterate(state, if |a| == 0 then 0 else |a| - 1)
    ensures Shuffle(a, state).state < M
  {
    if |a| > 0 {
      ShuffleDownDraws(a, state, |a| - 1);
    }
    IterateBounded(state, if |a| == 0 then 0 else |a| - 1);
  }

  /** Zero or one item: nothing moves and no value is drawn. */
  lemma ShortShuffle(a: seq<int>, state: nat)
    requires |a| <= 1
    ensures Shuffle(a, state) == Outcome(a, state)
  {
  }
}

/** `rust/src/main.rs`: the generator is a struct with a `state` field. */
module RustShuffle {
  import opened LcgSpec
  import SortSpec

  /** `struct Lcg`: the generator state, a u64 kept below 2^31. */
  class Lcg {
    var state: nat

    ghost predicate Valid()
      reads this
    {
      state < M
    }

    /** `Lcg::new`: the seed reduced mod 2^31. */
    constructor (seed: nat)
      requires seed < U64
      ensures Valid() && state == seed % M
    {
      state := seed % M;
    }

    /** `next`: one step; the new state is also the value returned. */
    method Next() returns (r: nat)
      requires Valid()
      modifies this
      ensures Valid() && state == Step(old(state)) && r == state
    {
      StepFitsU64(state);
      state := (A * state + C) % M;
      r := state;
    }

    /** `intn`: the next value mod the bound, so below the bound. */
    method Intn(upperBound: nat) returns (r: nat)
      requires Valid() && 0 < upperBound < U64
      modifies this
      ensures Valid() && state == Step(old(state))
      ensures r == state % upperBound && r < upperBound
    {
      var next := Next();
      r := next % upperBound;
    }
  }

  /** `knuth_random_shuffle`: for i from n - 1 down to 1, exchange slot i with
      a slot drawn from [0, i]. The slice ends as the reference shuffle and
      the generator as the reference state. */
  method KnuthRandomShuffle(arr: array<int>, rng: Lcg)
    requires rng.Valid() && arr.Length < U64
    modifies arr, rng
    ensures rng.Valid()
    ensures Shuffle(old(arr[..]), old(rng.state)) == Outcome(arr[..], rng.state)
  {
    var n := arr.Length;
    if n == 0 { return; }
    var i := n - 1;
    while i >= 1
      invariant 0 <= i < n && rng.Valid()
      invariant ShuffleDown(arr[..], rng.state, i) == Shuffle(old(arr[..]), old(rng.state))
    {
      var j := rng.Intn(i + 1);
      SortSpec.Swap(arr, i, j);
      i := i - 1;
    }
  }
}

/** `python/knuth_random_shuffle.py`: the generator state is the module
    global `lcg_state`, an unbounded Python integer. */
module PythonShuffle {
  import opened LcgSpec

  /** The module's global state. */
  class Globals {
    var lcgState: int

    ghost predicate Valid()
      reads this
    {
      0 <= lcgState < M
    }

    /** Module load: `lcg_state = 0`. */
    constructor ()
      ensures Valid() && lcgState == 0
    {
      lcgState := 0;
    }

    /** `lcg_seed`: Python's `%` takes the sign of the divisor, so even a
        negative seed leaves a state in [0, 2^31) congruent to the seed.
        (Dafny's `%` with a positive divisor agrees with Python's.) */
    method LcgSeed(seed: int)
      modifies this
      ensures Valid()
      ensures (lcgState - seed) % M == 0
      ensures 0 <= seed ==> lcgState == seed % M
    {
      lcgState := seed % M;
      SeedCongruent(seed);
    }

    /** `lcg_next`. */
    method LcgNext() returns (r: int)
      requires Valid()
      modifies this
      ensures Valid() && lcgState == Step(old(lcgState)) && r == lcgState
    {
      lcgState := (A * lcgState + C) % M;
      r := lcgState;
    }

    /** `lcg_intn`: the next value mod the bound. */
    method LcgIntn(upperBound: int) returns (r: int)
      requires Valid() && upperBound > 0
      modifies this
      ensures Valid() && lcgState == Step(old(lcgState))
      ensures r == lcgState % upperBound && 0 <= r < upperBound
    {
      var next := LcgNext();
      r := next % upperBound;
    }
  }

  /** The reduced seed differs from the seed by a multiple of 2^31. */
  lemma SeedCongruent(seed: int)
    ensures (seed % M - seed) % M == 0
  {
    var q := seed / M;
    assert seed == M * q + seed % M;
    assert seed % M - seed == M * (-q);
  }

  /** `knuth_random_shuffle`: shuffles the list in place and returns that
      same list. */
  method KnuthRandomShuffle(arr: array<int>, g: Globals) returns (r: array<int>)
    requires g.Valid()
    modifies arr, g
    ensures r == arr && g.Valid()
    ensures Shuffle(old(arr[..]), old(g.lcgState)) == Outcome(arr[..], g.lcgState)
  {
    var n := arr.Length;
    if n == 0 { return arr; }
    var i := n - 1;
    while i > 0
      invariant 0 <= i < n && g.Valid()
      invariant ShuffleDown(arr[..], g.lcgState, i) == Shuffle(old(arr[..]), old(g.lcgState))
    {
      var j := g.LcgIntn(i + 1);
      arr[i], arr[j] := arr[j], arr[i];
      i := i - 1;
    }
    return arr;
  }
}

/** `go/main.go`: the generator state is the package variable `lcgState`. */
module GoShuffle {
  import opened LcgSpec

  /** The package's global state. */
  class Globals {
    var lcgState: nat

    ghost predicate Valid()
      reads this
    {
      lcgState < M
    }

    /** Package initialisation: the zero value of `uint64`. */
    constructor ()
      ensures Valid() && lcgState == 0
    {
      lcgState := 0;
    }

    /** `lcgSeed`. */
    method LcgSeed(seed: nat)
      requires seed < U64
      modifies this
      ensures Valid() && lcgState == seed % M
    {
      lcgState := seed % M;
    }

    /** `lcgNext`. */
    method LcgNext() returns (r: nat)
      requires Valid()
      modifies this
      ensures Valid() && lcgState == Step(old(lcgState)) && r == lcgState
    {
      StepFitsU64(lcgState);
      lcgState := (A * lcgState + C) % M;
      r := lcgState;
    }

    /** `lcgIntn`: the next value mod the bound, converted back to int. */
    method LcgIntn(upperBound: int) returns (r: int)
      requires Valid() && upperBound > 0
      modifies this
      ensures Valid() && lcgState == Step(old(lcgState))
      ensures r == lcgState % upperBound && 0 <= r < upperBound
    {
      var next := LcgNext();
      r := next % upperBound;
    }
  }

  /** `KnuthRandomShuffle`: shuffles the slice in place and returns it. */
  method KnuthRandomShuffle(arr: array<int>, g: Globals) returns (r: array<int>)
    requires g.Valid()
    modifies arr, g
    ensures r == arr && g.Valid()
    ensures Shuffle(old(arr[..]), old(g.lcgState)) == Outcome(arr[..], g.lcgState)
  {
    var n := arr.Length;
    var i := n - 1;
    while i >= 1
      invariant i < n && g.Valid()
      invariant n == 0 ==> i == -1 && arr[..] == old(arr[..]) && g.lcgState == old(g.lcgState)
      invariant n > 0 ==> 0 <= i && ShuffleDown(arr[..], g.lcgState, i) == Shuffle(old(arr[..]), old(g.lcgState))
    {
      var j := g.LcgIntn(i + 1);
      arr[i], arr[j] := arr[j], arr[i];
      i := i - 1;
    }
    return arr;
  }
}
