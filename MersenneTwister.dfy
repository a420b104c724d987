/** MT19937 state initialisation and twist after Matsumoto and Nishimura's
    2002 reference code (src/QuickCheck/Random/Implementations/MersenneTwisterRandom.cs).
    The C# code returns the raw state word: the reference output tempering
    is not applied. */
module MersenneTwister {
  import opened Words

  const N: nat := 624
  const M: nat := 397
  const UPPER_MASK: bv32 := 0x8000_0000
  const LOWER_MASK: bv32 := 0x7FFF_FFFF
  const MATRIX_A: bv32 := 0x9908_B0DF

  /** `mt[i] = 1812433253 * (mt[i-1] ^ (mt[i-1] >> 30)) + i` in `uint`. */
  function InitWord(prev: bv32, i: nat): bv32
    requires i < N
  {
    1812433253 * (prev ^ (prev >> 30)) + (i as bv32)
  }

  /** The first `k` words written by the constructor. */
  function InitPrefix(seed: bv32, k: nat): (s: seq<bv32>)
    requires 1 <= k <= N
    ensures |s| == k && s[0] == seed
  {
    if k == 1 then [seed] else
    var s := InitPrefix(seed, k - 1);
    s + [InitWord(s[k - 2], k - 1)]
  }

  lemma InitPrefixStep(seed: bv32, k: nat)
    requires 1 <= k < N
    ensures InitPrefix(seed, k + 1) == InitPrefix(seed, k) + [InitWord(InitPrefix(seed, k)[k - 1], k)]
  {
  }

  function InitState(seed: bv32): seq<bv32>
  {
    InitPrefix(seed, N)
  }

  /** The state the constructor leaves satisfies the initialisation
      recurrence at every index. */
  lemma {:induction false} InitRecurrence(seed: bv32, k: nat)
    requires 1 <= k <= N
    ensures forall i :: 1 <= i < k ==> InitPrefix(seed, k)[i] == InitWord(InitPrefix(seed, k)[i - 1], i)
  {
    if k > 1 {
      InitRecurrence(seed, k - 1);
      var s := InitPrefix(seed, k - 1);
      var t := InitPrefix(seed, k);
      assert t == s + [InitWord(s[k - 2], k - 1)];
      forall i | 1 <= i < k
        ensures t[i] == InitWord(t[i - 1], i)
      {
        if i < k - 1 {
          assert t[i] == s[i] && t[i - 1] == s[i - 1];
        }
      }
    }
  }

  /** The new value of a state word: `far ^ (y >> 1) ^ mag01[y & 1]`, where
      `y` joins the top bit of `cur` with the low 31 bits of `next`. */
  function Mix(cur: bv32, next: bv32, far: bv32): bv32
  {
    var y := (cur & UPPER_MASK) | (next & LOWER_MASK);
    far ^ (y >> 1) ^ (if y & 1 == 0 then 0 else MATRIX_A)
  }

  /** Step `kk` of the twist, with the indices taken modulo `N`: the three
      loops of the source are this step with their own index arithmetic. */
  function TwistStep(s: seq<bv32>, kk: nat): (r: seq<bv32>)
    requires |s| == N && kk < N
    ensures |r| == N
  {
    s[kk := Mix(s[kk], s[(kk + 1) % N], s[(kk + M) % N])]
  }

  /** The state after the first `k` steps of the twist. */
  function TwistUpTo(s: seq<bv32>, k: nat): (r: seq<bv32>)
    requires |s| == N && k <= N
    ensures |r| == N
  {
    if k == 0 then s else TwistStep(TwistUpTo(s, k - 1), k - 1)
  }

  function Twist(s: seq<bv32>): (r: seq<bv32>)
    requires |s| == N
    ensures |r| == N
  {
    TwistUpTo(s, N)
  }

  /** Words at or after step `k` are not yet touched. */
  lemma {:induction false} TwistUntouched(s: seq<bv32>, k: nat, j: nat)
    requires |s| == N && k <= j < N
    ensures TwistUpTo(s, k)[j] == s[j]
  {
    if k > 0 { TwistUntouched(s, k - 1, j); }
  }

  /** A word written at step `j` is never written again. */
  lemma {:induction false} TwistFinal(s: seq<bv32>, j: nat, k: nat)
    requires |s| == N && j < k <= N
    ensures TwistUpTo(s, k)[j] == TwistUpTo(s, j + 1)[j]
  {
    if k > j + 1 { TwistFinal(s, j, k - 1); }
  }

  /** Step `kk` wrote `Mix` of the words as they stood before it. */
  lemma TwistWritten(s: seq<bv32>, kk: nat)
    requires |s| == N && kk < N
    ensures Twist(s)[kk] == Mix(TwistUpTo(s, kk)[kk], TwistUpTo(s, kk)[(kk + 1) % N], TwistUpTo(s, kk)[(kk + M) % N])
  {
    TwistFinal(s, kk, N);
  }

  /** What each twisted word is computed from. The first 227 words read only
      old words; the next 396 read their `kk + M - N` partner after it was
      updated; the last one reads the updated `mt[0]` and `mt[M-1]`. */
  lemma TwistReadsLower(s: seq<bv32>, kk: nat)
    requires |s| == N && kk < N - M
    ensures Twist(s)[kk] == Mix(s[kk], s[kk + 1], s[kk + M])
  {
    TwistWritten(s, kk);
    LowerIndices(kk);
    TwistUntouched(s, kk, kk);
    TwistUntouched(s, kk, kk + 1);
    TwistUntouched(s, kk, kk + M);
  }

  lemma TwistReadsUpper(s: seq<bv32>, kk: nat)
    requires |s| == N && N - M <= kk < N - 1
    ensures Twist(s)[kk] == Mix(s[kk], s[kk + 1], Twist(s)[kk + M - N])
  {
    TwistWritten(s, kk);
    UpperIndices(kk);
    TwistUntouched(s, kk, kk);
    TwistUntouched(s, kk, kk + 1);
    TwistFinal(s, kk + M - N, kk);
    TwistFinal(s, kk + M - N, N);
  }

  lemma TwistReadsLast(s: seq<bv32>)
    requires |s| == N
    ensures Twist(s)[N - 1] == Mix(s[N - 1], Twist(s)[0], Twist(s)[M - 1])
  {
    TwistWritten(s, N - 1);
    assert (N - 1 + 1) % N == 0 && (N - 1 + M) % N == M - 1;
    TwistUntouched(s, N - 1, N - 1);
    TwistFinal(s, 0, N - 1);
    TwistFinal(s, 0, N);
    TwistFinal(s, M - 1, N - 1);
    TwistFinal(s, M - 1, N);
  }

  /** The generator's value: its 624 state words and the index of the next
      word to hand out. */
  datatype MtState = MtState(mt: seq<bv32>, mti: nat)

  ghost predicate ValidState(st: MtState) {
    |st.mt| == N && st.mti <= N
  }

  function Seeded(seed: bv32): (st: MtState)
    ensures ValidState(st)
  {
    MtState(InitState(seed), N)
  }

  /** One call of `UInt32`: twist when the index reached `N`, then hand out
      the word at the index, untempered, and advance the index. */
  function Next(st: MtState): (r: (MtState, u32))
    requires ValidState(st)
    ensures ValidState(r.0) && 1 <= r.0.mti <= N
    ensures st.mti == N ==> r.0.mt == Twist(st.mt) && r.0.mti == 1 && r.1 == Twist(st.mt)[0] as int
    ensures st.mti < N ==> r.0.mt == st.mt && r.0.mti == st.mti + 1 && r.1 == st.mt[st.mti] as int
  {
    if st.mti == N then
      var mt := Twist(st.mt);
      (MtState(mt, 1), mt[0] as int)
    else
      (MtState(st.mt, st.mti + 1), st.mt[st.mti] as int)
  }

  /** The first `k` words handed out from state `st`. */
  function Stream(st: MtState, k: nat): (ws: seq<u32>)
    requires ValidState(st)
    ensures |ws| == k
    decreases k
  {
    if k == 0 then [] else
    var (st', w) := Next(st);
    [w] + Stream(st', k - 1)
  }

  /** The first draw after construction is the first word of the twisted
      initial state, untempered. */
  lemma FirstWordUntempered(seed: bv32)
    ensures Stream(Seeded(seed), 1) == [Twist(InitState(seed))[0] as int]
  {
  }

  class MersenneTwisterRandom {
    const mt: array<bv32>
    var mti: nat

    ghost predicate Valid()
      reads this
    {
      mt.Length == N && mti <= N
    }

    function State(): MtState
      reads this, mt
    {
      MtState(mt[..], mti)
    }

    /** `init_genrand(seed)` */
    constructor (seed: bv32)
      ensures Valid() && fresh(mt)
      ensures State() == Seeded(seed)
    {
      var a := new bv32[N];
      InitFill(a, seed);
      mt := a;
      mti := N;
    }

    method UInt32() returns (w: u32)
      requires Valid()
      modifies this, mt
      ensures Valid()
      ensures (State(), w) == Next(old(State()))
    {
      if mti == N {
        TwistInPlace(mt);
        mti := 0;
      }
      w := mt[mti] as int;
      mti := mti + 1;
    }
  }

  /** The constructor's loop: `mt[0] = seed`, then the recurrence. */
  method InitFill(a: array<bv32>, seed: bv32)
    requires a.Length == N
    modifies a
    ensures a[..] == InitState(seed)
  {
    a[0] := seed;
    var i := 1;
    while i < N
      invariant 1 <= i <= N
      invariant a[..i] == InitPrefix(seed, i)
    {
      InitStep(a, seed, i);
      i := i + 1;
    }
    assert a[..] == a[..N];
  }

  /** One pass of the constructor's loop: `mt[i]` from `mt[i - 1]`. */
  method InitStep(a: array<bv32>, seed: bv32, i: nat)
    requires 1 <= i < N == a.Length && a[..i] == InitPrefix(seed, i)
    modifies a
    ensures a[..i + 1] == InitPrefix(seed, i + 1)
  {
    ghost var prefix := a[..i];
    a[i] := InitWord(a[i - 1], i);
    assert a[..i + 1] == prefix + [a[i]];
    InitPrefixStep(seed, i);
  }

  /** The three twist loops of `UInt32`, run on the state array. */
  method TwistInPlace(mt: array<bv32>)
    requires mt.Length == N
    modifies mt
    ensures mt[..] == Twist(old(mt[..]))
  {
    TwistLower(mt);
    TwistUpper(mt, old(mt[..]));
    TwistLast(mt, old(mt[..]));
  }

  /** First loop: `kk < N - M`, the partner word `kk + M` is still old. */
  method TwistLower(mt: array<bv32>)
    requires mt.Length == N
    modifies mt
    ensures mt[..] == TwistUpTo(old(mt[..]), N - M)
  {
    ghost var s := mt[..];
    var kk := 0;
    while kk < N - M
      invariant 0 <= kk <= N - M
      invariant mt[..] == TwistUpTo(s, kk)
    {
      ghost var cur := mt[..];
      var v := Mix(mt[kk], mt[kk + 1], mt[kk + M]);
      LowerIndices(kk);
      mt[kk] := v;
      assert mt[..] == TwistStep(cur, kk);
      kk := kk + 1;
    }
  }

  /** Second loop: `N - M <= kk < N - 1`, the partner word `kk + M - N`. */
  method TwistUpper(mt: array<bv32>, ghost s: seq<bv32>)
    requires mt.Length == N && |s| == N
    requires mt[..] == TwistUpTo(s, N - M)
    modifies mt
    ensures mt[..] == TwistUpTo(s, N - 1)
  {
    var kk := N - M;
    while kk < N - 1
      invariant N - M <= kk <= N - 1
      invariant mt[..] == TwistUpTo(s, kk)
    {
      ghost var cur := mt[..];
      var v := Mix(mt[kk], mt[kk + 1], mt[kk + M - N]);
      UpperIndices(kk);
      mt[kk] := v;
      assert mt[..] == TwistStep(cur, kk);
      kk := kk + 1;
    }
  }

  lemma LowerIndices(kk: nat)
    requires kk < N - M
    ensures (kk + 1) % N == kk + 1 && (kk + M) % N == kk + M
  {
  }

  lemma UpperIndices(kk: nat)
    requires N - M <= kk < N - 1
    ensures (kk + 1) % N == kk + 1 && (kk + M) % N == kk + M - N
  {
  }

  /** The final word wraps around to `mt[0]` and `mt[M - 1]`. */
  method TwistLast(mt: array<bv32>, ghost s: seq<bv32>)
    requires mt.Length == N && |s| == N
    requires mt[..] == TwistUpTo(s, N - 1)
    modifies mt
    ensures mt[..] == TwistUpTo(s, N)
  {
    ghost var cur := mt[..];
    var v := Mix(mt[N - 1], mt[0], mt[M - 1]);
    assert (N - 1 + 1) % N == 0 && (N - 1 + M) % N == M - 1;
    mt[N - 1] := v;
    assert mt[..] == TwistStep(cur, N - 1);
  }

  /** Draws `k` words from one generator, in order. */
  method DrawMany(r: MersenneTwisterRandom, k: nat) returns (ws: seq<u32>)
    requires r.Valid()
    modifies r, r.mt
    ensures r.Valid()
    ensures ws == Stream(old(r.State()), k)
  {
    ghost var start := r.State();
    ws := [];
    var i := 0;
    while i < k
      invariant 0 <= i <= k && r.Valid()
      invariant ValidState(r.State())
      invariant ws + Stream(r.State(), k - i) == Stream(start, k)
    {
      ghost var before := r.State();
      var w := r.UInt32();
      assert Stream(before, k - i) == [w] + Stream(r.State(), k - i - 1);
      ws := ws + [w];
      i := i + 1;
    }
  }
}

/** The factory for Mersenne Twister generators
    (src/QuickCheck/Random/Implementations/MersenneTwisterFactory.cs). */
module MersenneTwisterFactory {
  import opened Words
  import opened MersenneTwister

  /** The generator seed the factory derives from a 64-bit seed: `(uint)seed`. */
  function SeedWord(seed: u64): bv32
  {
    (seed % TWO32) as bv32
  }

  /** `NewRandom(seed)` keeps only the low 32 bits of the seed. */
  method NewRandom(seed: u64) returns (r: MersenneTwisterRandom)
    ensures fresh(r) && fresh(r.mt) && r.Valid()
    ensures r.State() == Seeded(SeedWord(seed))
  {
    r := new MersenneTwisterRandom(SeedWord(seed));
  }

  /** `NewRandom(out seed)`: `drawn` is the value of the factory's own
      `System.Random.Next()`, widened to the recorded `ulong` seed. */
  method NewRandomFresh(drawn: i32) returns (r: MersenneTwisterRandom, seed: u64)
    ensures fresh(r) && fresh(r.mt) && r.Valid()
    ensures seed == ToU64(drawn)
    ensures r.State() == Seeded(SeedWord(seed))
  {
    seed := ToU64(drawn);
    r := new MersenneTwisterRandom(SeedWord(seed));
  }

  /** Seeds equal modulo 2^32 give identical streams. */
  lemma SeedsModuloWord(s1: u64, s2: u64, k: nat)
    requires s1 % TWO32 == s2 % TWO32
    ensures Stream(Seeded(SeedWord(s1)), k) == Stream(Seeded(SeedWord(s2)), k)
  {
    assert SeedWord(s1) == SeedWord(s2);
  }

  /** Seeds whose words differ start from different states: the first
      state word is the seed word itself. */
  lemma SeedWordsDiffer(s1: u64, s2: u64)
    requires SeedWord(s1) != SeedWord(s2)
    ensures Seeded(SeedWord(s1)) != Seeded(SeedWord(s2))
  {
    SeededFirst(SeedWord(s1));
    SeededFirst(SeedWord(s2));
  }

  lemma SeededFirst(w: bv32)
    ensures Seeded(w).mt[0] == w
  {
    var s := InitPrefix(w, N);
    assert s[0] == w;
  }

  /** Replaying the recorded seed reproduces the fresh generator's stream. */
  method FreshThenReplay(drawn: i32, k: nat) returns (xs: seq<u32>, ys: seq<u32>)
    ensures xs == ys && |xs| == k
  {
    var a, seed := NewRandomFresh(drawn);
    var b := NewRandom(seed);
    xs := DrawMany(a, k);
    ys := DrawMany(b, k);
  }
}
