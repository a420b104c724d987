/** Ordered sequence equality and the sequence hash
    (src/QuickCheck/Internal/Sequence.cs). */
module Sequence {
  import opened Words

  /** `SequenceEqual` under an element equality: the same length and equal
      elements position by position. */
  predicate SeqEquals<T>(xs: seq<T>, ys: seq<T>, eq: (T, T) -> bool) {
    |xs| == |ys| && forall i :: 0 <= i < |xs| ==> eq(xs[i], ys[i])
  }

  /** Under plain equality `SequenceEqual` is sequence identity. */
  lemma SeqEqualsIdentity<T>(xs: seq<T>, ys: seq<T>)
    ensures SeqEquals(xs, ys, (a, b) => a == b) <==> xs == ys
  {
  }

  const SEED: i32 := 19

  /** `Aggregate(19, (hash, x) => hash * 31 + x)` over the element hashes,
      each step wrapping to 32 bits. */
  function SeqHash(hs: seq<i32>): (h: i32)
    ensures hs == [] ==> h == SEED
  {
    if hs == [] then SEED else ToI32(SeqHash(hs[..|hs| - 1]) * 31 + hs[|hs| - 1])
  }

  /** The same fold over unbounded integers. */
  function Horner(acc: int, hs: seq<int>): int
    decreases |hs|
  {
    if hs == [] then acc else Horner(acc * 31 + hs[0], hs[1..])
  }

  lemma {:induction false} HornerSnoc(acc: int, hs: seq<int>, x: int)
    ensures Horner(acc, hs + [x]) == Horner(acc, hs) * 31 + x
    decreases |hs|
  {
    if hs != [] {
      assert (hs + [x])[1..] == hs[1..] + [x];
      HornerSnoc(acc * 31 + hs[0], hs[1..], x);
    }
  }

  lemma WrapStep(a: int, x: int)
    ensures ToI32(ToI32(a) * 31 + x) == ToI32(a * 31 + x)
  {
    var d := ToI32(a) - a;
    assert d % TWO32 == 0;
    assert ToI32(a) * 31 + x == (a * 31 + x) + 31 * d;
    var q := d / TWO32;
    assert 31 * d == (31 * q) * TWO32;
    ShiftByPeriod(a * 31 + x, 31 * q);
  }

  lemma ShiftByPeriod(y: int, q: int)
    ensures ToI32(y + q * TWO32) == ToI32(y)
  {
    assert (y + q * TWO32) % TWO32 == y % TWO32;
  }

  /** Wrapping at every step gives the same hash as wrapping once at the end. */
  lemma {:induction false} SeqHashWrapsOnce(hs: seq<i32>)
    ensures SeqHash(hs) == ToI32(Horner(SEED, hs))
  {
    if hs != [] {
      var init := hs[..|hs| - 1];
      SeqHashWrapsOnce(init);
      assert hs == init + [hs[|hs| - 1]];
      HornerSnoc(SEED, init, hs[|hs| - 1]);
      WrapStep(Horner(SEED, init), hs[|hs| - 1]);
    }
  }

  /** Sequences equal position by position under an equality that respects
      the element hash get the same sequence hash. */
  lemma {:induction false} SeqHashConsistent<T>(xs: seq<T>, ys: seq<T>, eq: (T, T) -> bool, hash: T -> i32)
    requires SeqEquals(xs, ys, eq)
    requires forall a, b :: eq(a, b) ==> hash(a) == hash(b)
    ensures SeqHash(Hashes(xs, hash)) == SeqHash(Hashes(ys, hash))
  {
    assert Hashes(xs, hash) == Hashes(ys, hash);
  }

  function Hashes<T>(xs: seq<T>, hash: T -> i32): (hs: seq<i32>)
    ensures |hs| == |xs| && forall i :: 0 <= i < |xs| ==> hs[i] == hash(xs[i])
  {
    seq(|xs|, i requires 0 <= i < |xs| => hash(xs[i]))
  }
}
