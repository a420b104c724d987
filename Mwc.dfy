/** Marsaglia's multiply-with-carry generator with two 32-bit lanes
    (src/QuickCheck/Random/Implementations/MwcRandom.cs) and the factory that
    builds it (MwcFactory.cs). */
module Mwc {
  import opened Words

  /** The lanes a zero seed half is replaced by. */
  const DEFAULT_LANE1: u32 := 521288629
  const DEFAULT_LANE2: u32 := 362436069

  datatype Lanes = Lanes(lane1: u32, lane2: u32)

  ghost predicate NonzeroLanes(l: Lanes) {
    l.lane1 != 0 && l.lane2 != 0
  }

  /** One lane update `mul * (s & 65535) + (s >> 16)` in unchecked `uint`
      arithmetic: the mathematical value never needs the 33rd bit, so the
      wrap-around never fires, and a nonzero lane stays nonzero. */
  function LaneStep(mul: int, s: u32): (r: u32)
    requires mul == 18000 || mul == 36969
    ensures r == mul * (s % TWO16) + s / TWO16
    ensures s != 0 ==> r != 0
  {
    var lo, hi := s % TWO16, s / TWO16;
    assert mul * lo <= mul * 65535;
    ToU32(mul * lo + hi)
  }

  /** `m_Seed1 + (m_Seed2 << 16)` in unchecked `uint` arithmetic. */
  function Output(l: Lanes): (w: u32)
    ensures w == (l.lane1 + l.lane2 * TWO16) % TWO32
  {
    Pow2Low();
    ModAddRight(l.lane1, l.lane2 * TWO16);
    ToU32(l.lane1 + ShlU32(l.lane2, 16))
  }

  lemma ModAddRight(a: int, b: int)
    ensures (a + b % TWO32) % TWO32 == (a + b) % TWO32
  {
  }

  function Step(l: Lanes): (l': Lanes)
    ensures NonzeroLanes(l) ==> NonzeroLanes(l')
  {
    Lanes(LaneStep(18000, l.lane1), LaneStep(36969, l.lane2))
  }

  /** The lanes after `k` calls of `UInt32`. */
  function Iterate(l: Lanes, k: nat): Lanes
    decreases k
  {
    if k == 0 then l else Iterate(Step(l), k - 1)
  }

  /** The first `k` words produced from lanes `l`. */
  function Stream(l: Lanes, k: nat): (ws: seq<u32>)
    ensures |ws| == k
    decreases k
  {
    if k == 0 then [] else [Output(Step(l))] + Stream(Step(l), k - 1)
  }

  /** Word `i` of the stream, read off the `i+1`-th state. */
  lemma {:induction false} StreamAt(l: Lanes, k: nat, i: nat)
    requires i < k
    ensures Stream(l, k)[i] == Output(Iterate(l, i + 1))
    decreases i
  {
    if i > 0 {
      StreamAt(Step(l), k - 1, i - 1);
      assert Stream(l, k)[i] == Stream(Step(l), k - 1)[i - 1];
      assert Iterate(l, i + 1) == Iterate(Step(l), i);
    } else {
      assert Iterate(l, 1) == Iterate(Step(l), 0) == Step(l);
    }
  }

  /** Every state reached from nonzero lanes has nonzero lanes. */
  lemma {:induction false} IterateNonzero(l: Lanes, k: nat)
    requires NonzeroLanes(l)
    ensures NonzeroLanes(Iterate(l, k))
    decreases k
  {
    if k > 0 { IterateNonzero(Step(l), k - 1); }
  }

  /** The `(uint, uint)` constructor: a zero half falls back to the default. */
  function InitialLanes(seed1: u32, seed2: u32): (l: Lanes)
    ensures NonzeroLanes(l)
    ensures l.lane1 == (if seed1 != 0 then seed1 else DEFAULT_LANE1)
    ensures l.lane2 == (if seed2 != 0 then seed2 else DEFAULT_LANE2)
  {
    Lanes(if seed1 != 0 then seed1 else DEFAULT_LANE1,
          if seed2 != 0 then seed2 else DEFAULT_LANE2)
  }

  /** The `ulong` constructor: the low half seeds lane 1, the high half lane 2. */
  function LanesOfSeed(seed: u64): (l: Lanes)
    ensures NonzeroLanes(l)
    ensures seed % TWO32 != 0 ==> l.lane1 == seed % TWO32
    ensures seed / TWO32 != 0 ==> l.lane2 == seed / TWO32
  {
    InitialLanes(ToU32(seed), ToU32(seed / TWO32))
  }

  /** The `Seed` getter as written: `m_Seed1 | m_Seed2 << 32` on `uint`
      operands, where the shift count 32 is masked to 0. */
  function SeedOf(l: Lanes): (s: u64)
  {
    Or32(l.lane1, ShlU32(l.lane2, 32))
  }

  /** `Seed` is not a 64-bit packing: it is the 32-bit OR of the two lanes. */
  lemma SeedIsLaneOr(l: Lanes)
    ensures SeedOf(l) == Or32(l.lane1, l.lane2)
    ensures SeedOf(l) < TWO32
  {
    assert ShlU32(l.lane2, 32) == l.lane2;
  }

  lemma OrNonzero(a: u32, b: u32)
    requires a != 0
    ensures Or32(a, b) != 0
  {
    Pow2Constants();
    OrBitsNonzero(a, b, 32);
  }

  /** A seed below 2^32 leaves lane 2 at its default. */
  lemma LanesOfSmallSeed(s: u64)
    requires 0 < s < TWO32
    ensures LanesOfSeed(s) == Lanes(s, DEFAULT_LANE2)
  {
    assert ToU32(s) == s;
    assert ToU32(s / TWO32) == 0;
  }

  /** Recreating a generator from its reported seed gives lanes
      `(lane1 | lane2, 362436069)`. */
  lemma ReplayLanes(l: Lanes)
    requires NonzeroLanes(l)
    ensures LanesOfSeed(SeedOf(l)) == Lanes(Or32(l.lane1, l.lane2), DEFAULT_LANE2)
  {
    SeedIsLaneOr(l);
    OrNonzero(l.lane1, l.lane2);
    LanesOfSmallSeed(SeedOf(l));
  }

  /** The factory's promise that the passed-back seed recreates the
      generator holds exactly when lane 2 is the default and its bits are
      a subset of lane 1's. */
  lemma ReplayRecreatesIff(l: Lanes)
    requires NonzeroLanes(l)
    ensures LanesOfSeed(SeedOf(l)) == l <==>
              l.lane2 == DEFAULT_LANE2 && Or32(l.lane1, l.lane2) == l.lane1
  {
    ReplayLanes(l);
  }

  /** A concrete pair of lanes for which replay does not recreate the stream. */
  lemma ReplayCounterexample()
    ensures SeedOf(Lanes(1, 2)) == 3
    ensures LanesOfSeed(SeedOf(Lanes(1, 2))) == Lanes(3, DEFAULT_LANE2)
  {
    ReplayLanes(Lanes(1, 2));
    OrOneTwo();
  }

  lemma OrOneTwo()
    ensures Or32(1, 2) == 3
  {
    Pow2Constants();
    OrBitsZero(0, 30);
    assert OrBits(0, 1, 31) == 1 + 2 * OrBits(0, 0, 30);
    assert OrBits(1, 2, 32) == 1 + 2 * OrBits(0, 1, 31);
  }

  /** The seed the getter evidently means, `(ulong)m_Seed1 | (ulong)m_Seed2 << 32`:
      lane 1 in the low half and lane 2 in the high half. */
  function PackedSeed(l: Lanes): (s: u64)
    ensures s % TWO32 == l.lane1 && s / TWO32 == l.lane2
  {
    l.lane2 * TWO32 + l.lane1
  }

  /** With the packed seed, replay recreates every generator the
      constructors can build. */
  lemma PackedSeedRecreates(l: Lanes)
    requires NonzeroLanes(l)
    ensures LanesOfSeed(PackedSeed(l)) == l
  {
  }

  class MwcRandom {
    var lane1: u32
    var lane2: u32

    function State(): Lanes
      reads this
    {
      Lanes(lane1, lane2)
    }

    /** `new MwcRandom(seed1, seed2)` */
    constructor FromLanes(seed1: u32, seed2: u32)
      ensures State() == InitialLanes(seed1, seed2)
    {
      lane1 := if seed1 != 0 then seed1 else DEFAULT_LANE1;
      lane2 := if seed2 != 0 then seed2 else DEFAULT_LANE2;
    }

    /** `new MwcRandom(seed)` */
    constructor FromSeed(seed: u64)
      ensures State() == LanesOfSeed(seed)
    {
      var s1, s2 := ToU32(seed), ToU32(seed / TWO32);
      lane1 := if s1 != 0 then s1 else DEFAULT_LANE1;
      lane2 := if s2 != 0 then s2 else DEFAULT_LANE2;
    }

    /** The `Seed` property. */
    function Seed(): (s: u64)
      reads this
      ensures s == SeedOf(State())
    {
      Or32(lane1, ShlU32(lane2, 32))
    }

    method UInt32() returns (w: u32)
      modifies this
      ensures State() == Step(old(State()))
      ensures w == Output(State())
    {
      lane1 := LaneStep(18000, lane1);
      lane2 := LaneStep(36969, lane2);
      w := ToU32(lane1 + ShlU32(lane2, 16));
    }
  }

  /** Draws `k` words from one generator, in order. */
  method DrawMany(r: MwcRandom, k: nat) returns (ws: seq<u32>)
    modifies r
    ensures ws == Stream(old(r.State()), k)
    ensures r.State() == Iterate(old(r.State()), k)
  {
    ghost var start := r.State();
    ws := [];
    var i := 0;
    while i < k
      invariant 0 <= i <= k
      invariant ws + Stream(r.State(), k - i) == Stream(start, k)
      invariant r.State() == Iterate(start, i)
    {
      ghost var before := r.State();
      var w := r.UInt32();
      assert Stream(before, k - i) == [w] + Stream(r.State(), k - i - 1);
      ws := ws + [w];
      IterateSplit(start, i);
      i := i + 1;
    }
  }

  lemma {:induction false} IterateSplit(l: Lanes, i: nat)
    ensures Iterate(l, i + 1) == Step(Iterate(l, i))
    decreases i
  {
    if i > 0 { IterateSplit(Step(l), i - 1); }
  }

  /** Two generators with equal lanes produce identical outputs. */
  method SameLanesSameStream(seed1: u32, seed2: u32, k: nat) returns (xs: seq<u32>, ys: seq<u32>)
    ensures xs == ys && |xs| == k
  {
    var a := new MwcRandom.FromLanes(seed1, seed2);
    var b := new MwcRandom.FromLanes(seed1, seed2);
    xs := DrawMany(a, k);
    ys := DrawMany(b, k);
  }
}

/** The factory for multiply-with-carry generators. */
module MwcFactory {
  import opened Words
  import opened Mwc

  /** `NewRandom(out seed)`: the fresh lanes (read from the clock in the
      source) are inputs here; the seed is read before any draw. */
  method NewRandomFresh(clock1: u32, clock2: u32) returns (r: MwcRandom, seed: u64)
    ensures fresh(r)
    ensures r.State() == InitialLanes(clock1, clock2)
    ensures seed == Or32(r.State().lane1, r.State().lane2)
  {
    r := new MwcRandom.FromLanes(clock1, clock2);
    seed := r.Seed();
    SeedIsLaneOr(r.State());
  }

  /** `NewRandom(seed)` is `new MwcRandom(seed)`. */
  method NewRandom(seed: u64) returns (r: MwcRandom)
    ensures fresh(r)
    ensures r.State() == LanesOfSeed(seed)
  {
    r := new MwcRandom.FromSeed(seed);
  }

  /** `NewRandom(out seed)` passing back the packed seed. */
  method NewRandomFreshPacked(clock1: u32, clock2: u32) returns (r: MwcRandom, seed: u64)
    ensures fresh(r)
    ensures r.State() == InitialLanes(clock1, clock2)
    ensures seed == PackedSeed(r.State())
  {
    r := new MwcRandom.FromLanes(clock1, clock2);
    seed := PackedSeed(r.State());
  }

  /** With the packed seed, a replayed generator draws the same words as
      the fresh one it was recorded from. */
  method FreshThenReplayPacked(clock1: u32, clock2: u32, k: nat) returns (xs: seq<u32>, ys: seq<u32>)
    ensures xs == ys && xs == Stream(InitialLanes(clock1, clock2), k)
  {
    var a, seed := NewRandomFreshPacked(clock1, clock2);
    PackedSeedRecreates(a.State());
    var b := NewRandom(seed);
    xs := DrawMany(a, k);
    ys := DrawMany(b, k);
  }

  /** Two calls with the same seed yield identical streams. */
  method SameSeedSameStream(seed: u64, k: nat) returns (xs: seq<u32>, ys: seq<u32>)
    ensures xs == ys && xs == Stream(LanesOfSeed(seed), k)
  {
    var a := NewRandom(seed);
    var b := NewRandom(seed);
    xs := DrawMany(a, k);
    ys := DrawMany(b, k);
  }
}
