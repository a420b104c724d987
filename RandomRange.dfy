/** The unbiased inclusive-range sampler (src/QuickCheck/Random/RandomRange.cs).

    The span `n = j - i + 1` is computed in unsigned arithmetic; a span that
    wraps to 0 is the whole type and is served by one raw draw. Otherwise the
    largest multiple `maxN = buckets * n` below the word range is the
    acceptance limit: raw draws at or above it are rejected and redrawn, and
    an accepted draw `x` maps to `i + x / buckets`. */
module RandomRange {
  import opened Words
  import opened Random

  /** The `j`-th raw draw from `p` on: a word, or a two-word 64-bit value. */
  function RawAt(t: Tape, p: nat, wide: bool, j: nat): (x: nat)
    ensures wide ==> x < TWO64 && x == UInt64(t, p + 2 * j).value
    ensures !wide ==> x < TWO32 && x == t(p + j)
  {
    if wide then UInt64(t, p + 2 * j).value else t(p + j)
  }

  function Width(wide: bool): nat {
    if wide then 2 else 1
  }

  /** The least acceptance limit of a rejection loop: a word with its top
      bit clear, or a 64-bit draw whose high word has it clear, is below it. */
  function Floor(wide: bool): nat {
    if wide then TWO63 else TWO31
  }

  /** Draw `k` is the first one below `limit`. */
  ghost predicate FirstBelow(t: Tape, p: nat, wide: bool, limit: nat, k: nat) {
    RawAt(t, p, wide, k) < limit &&
    forall j :: 0 <= j < k ==> RawAt(t, p, wide, j) >= limit
  }

  lemma {:induction false} LeastBelow(t: Tape, p: nat, wide: bool, limit: nat, j: nat)
    requires RawAt(t, p, wide, j) < limit
    ensures exists k: nat :: k <= j && FirstBelow(t, p, wide, limit, k)
  {
    if !FirstBelow(t, p, wide, limit, j) {
      var i :| 0 <= i < j && RawAt(t, p, wide, i) < limit;
      LeastBelow(t, p, wide, limit, i);
    }
  }

  /** On a fair tape every rejection loop with a limit of at least `Floor`
      accepts some draw. */
  lemma AcceptExists(t: Tape, p: nat, wide: bool, limit: nat)
    requires Fair(t) && limit >= Floor(wide)
    ensures exists k: nat :: FirstBelow(t, p, wide, limit, k)
  {
    assert ClearAhead(t, p);
    var c :| HighClear(t, p, c);
    var j := if wide then c else 2 * c;
    assert RawAt(t, p, wide, j) < limit;
    LeastBelow(t, p, wide, limit, j);
  }

  lemma FirstBelowUnique(t: Tape, p: nat, wide: bool, limit: nat, k1: nat, k2: nat)
    requires FirstBelow(t, p, wide, limit, k1) && FirstBelow(t, p, wide, limit, k2)
    ensures k1 == k2
  {
  }

  /** The index of the draw a rejection loop accepts. */
  ghost function Accept(t: Tape, p: nat, wide: bool, limit: nat): (k: nat)
    requires Fair(t) && limit >= Floor(wide)
    ensures FirstBelow(t, p, wide, limit, k)
  {
    AcceptExists(t, p, wide, limit);
    var k :| FirstBelow(t, p, wide, limit, k);
    k
  }

  /** The `while (true)` loop: draw until a value is below `limit`. */
  method Reject(t: Tape, p: nat, wide: bool, limit: nat) returns (x: nat, next: nat)
    requires Fair(t) && limit >= Floor(wide)
    ensures x < limit
    ensures x == RawAt(t, p, wide, Accept(t, p, wide, limit))
    ensures next == p + Width(wide) * (Accept(t, p, wide, limit) + 1)
  {
    ghost var k := Accept(t, p, wide, limit);
    var q := p;
    ghost var j: nat := 0;
    while true
      invariant j <= k && q == p + Width(wide) * j
      decreases k - j
    {
      var w := if wide then UInt64(t, q).value else UInt32(t, q).value;
      assert w == RawAt(t, p, wide, j);
      if w < limit {
        return w, q + Width(wide);
      }
      q := q + Width(wide);
      j := j + 1;
    }
  }

  /** The acceptance scheme for a span `n` of a word range of size `range`. */
  function Buckets(range: nat, n: nat): (b: nat)
    requires 0 < n < range
    ensures b >= 1
  {
    (range - 1) / n
  }

  function Limit(range: nat, n: nat): (m: nat)
    requires 0 < n < range && range % 2 == 0
    ensures range / 2 <= m < range
  {
    AcceptLimit(range, n);
    Buckets(range, n) * n
  }

  /** `buckets * n` fits the word range, is at least half of it, and each
      of the `n` outputs is reached from exactly `buckets` accepted draws. */
  lemma {:induction false} AcceptLimit(range: nat, n: nat)
    requires 0 < n < range && range % 2 == 0
    ensures Buckets(range, n) * n <= range - 1
    ensures Buckets(range, n) * n >= range / 2
  {
    var b := Buckets(range, n);
    assert range - 1 == b * n + (range - 1) % n;
    if n <= range / 2 {
      assert b * n > range - 1 - n;
    } else {
      assert b == 1;
    }
  }

  /** The accepted draws that map to output `k`. */
  ghost function Preimage(buckets: nat, maxN: nat, k: int): set<int>
    requires buckets > 0
  {
    set x | 0 <= x < maxN && InInterval(0, maxN, x) && x / buckets == k
  }

  ghost predicate InInterval(a: int, b: int, x: int) {
    a <= x < b
  }

  ghost function Interval(a: int, b: int): set<int> {
    set x | a <= x < b && InInterval(a, b, x)
  }

  lemma {:induction false} IntervalSize(a: int, b: int)
    requires a <= b
    ensures |Interval(a, b)| == b - a
    decreases b - a
  {
    if a < b {
      assert Interval(a, b) == Interval(a, b - 1) + {b - 1};
      IntervalSize(a, b - 1);
    } else {
      assert Interval(a, b) == {};
    }
  }

  /** A draw maps to output `k` exactly when it lies in the `k`-th run of
      `buckets` consecutive values. */
  lemma PreimageMember(buckets: nat, n: nat, k: int, x: int)
    requires buckets > 0 && 0 <= k < n
    ensures x in Preimage(buckets, buckets * n, k) <==> x in Interval(k * buckets, (k + 1) * buckets)
  {
    if k * buckets <= x < (k + 1) * buckets {
      DivInBucket(x, buckets, k);
      MulMono(k + 1, n, buckets);
    }
    if 0 <= x && x / buckets == k {
      assert x == (x / buckets) * buckets + x % buckets;
    }
  }

  /** Unbiasedness as counting: every output `k` in `[0, n)` is the image of
      exactly `buckets` accepted raw draws, namely a contiguous run. */
  lemma Unbiased(buckets: nat, n: nat, k: int)
    requires buckets > 0 && 0 <= k < n
    ensures Preimage(buckets, buckets * n, k) == Interval(k * buckets, (k + 1) * buckets)
    ensures |Preimage(buckets, buckets * n, k)| == buckets
  {
    var s := Preimage(buckets, buckets * n, k);
    var r := Interval(k * buckets, (k + 1) * buckets);
    forall x ensures x in s <==> x in r {
      PreimageMember(buckets, n, k, x);
    }
    assert s == r;
    IntervalSize(k * buckets, (k + 1) * buckets);
  }

  /** An accepted draw below `buckets * n` maps to an offset below `n`. */
  lemma OffsetBelowSpan(x: nat, buckets: nat, n: nat)
    requires buckets > 0 && x < buckets * n
    ensures x / buckets < n
  {
    DivMono(x, n * buckets - 1, buckets);
    DivInBucket(n * buckets - 1, buckets, n - 1);
  }

  /** The size of the raw draw range. */
  function Span(wide: bool): nat {
    if wide then TWO64 else TWO32
  }

  /** The offset `x / buckets` of the accepted draw `x` for a span `n`
      that did not wrap, and the position after it. */
  ghost function Offset(t: Tape, p: nat, wide: bool, n: nat): (d: Draw<nat>)
    requires Fair(t) && 0 < n < Span(wide)
    ensures d.value < n && d.next >= p + Width(wide)
  {
    var buckets := Buckets(Span(wide), n);
    AcceptLimit(Span(wide), n);
    var k := Accept(t, p, wide, Buckets(Span(wide), n) * n);
    OffsetBelowSpan(RawAt(t, p, wide, k), buckets, n);
    Draw(RawAt(t, p, wide, k) / buckets, p + Width(wide) * (k + 1))
  }

  /** `buckets = MaxValue / n; maxN = buckets * n;` then the rejection loop. */
  method Sample(t: Tape, p: nat, wide: bool, n: nat) returns (off: nat, next: nat)
    requires Fair(t) && 0 < n < Span(wide)
    ensures Draw(off, next) == Offset(t, p, wide, n)
    ensures next >= p + Width(wide)
  {
    SampleRange(wide, n);
    var range := Span(wide);
    var buckets := Buckets(range, n);
    var maxN := Limit(range, n);
    var x;
    x, next := Reject(t, p, wide, maxN);
    off := x / buckets;
    OffsetOf(t, p, wide, n, x, off, next);
  }

  lemma SampleRange(wide: bool, n: nat)
    requires 0 < n < Span(wide)
    ensures Span(wide) % 2 == 0 && Limit(Span(wide), n) >= Floor(wide)
  {
  }

  lemma OffsetOf(t: Tape, p: nat, wide: bool, n: nat, x: nat, off: nat, next: nat)
    requires Fair(t) && 0 < n < Span(wide)
    requires Limit(Span(wide), n) >= Floor(wide)
    requires x == RawAt(t, p, wide, Accept(t, p, wide, Limit(Span(wide), n)))
    requires off == x / Buckets(Span(wide), n)
    requires next == p + Width(wide) * (Accept(t, p, wide, Limit(Span(wide), n)) + 1)
    ensures Offset(t, p, wide, n) == Draw(off, next)
    ensures next >= p + Width(wide)
  {
    AcceptLimit(Span(wide), n);
  }

  // Int32

  /** `(UInt32)x - (UInt32)y` */
  function Sub32(x: i32, y: i32): u32 {
    ToU32(ToU32(x) - ToU32(y))
  }

  /** `x + (Int32)y` */
  function Add32(x: i32, y: u32): i32 {
    ToI32(x + ToI32(y))
  }

  lemma Sub32Exact(j: i32, i: i32)
    requires i <= j
    ensures Sub32(j, i) == j - i
  {
  }

  lemma Add32Exact(i: i32, j: i32, d: u32)
    requires i <= j && d <= j - i
    ensures Add32(i, d) == i + d
  {
  }

  /** The span `1 + Sub(j, i)` wraps to 0 exactly for the whole `int` range. */
  lemma Span32Wraps(i: i32, j: i32)
    requires i <= j
    ensures ToU32(1 + Sub32(j, i)) == 0 <==> i == -TWO31 && j == TWO31 - 1
    ensures ToU32(1 + Sub32(j, i)) != 0 ==> ToU32(1 + Sub32(j, i)) == j - i + 1
  {
    Sub32Exact(j, i);
  }

  ghost function RangeInt32(t: Tape, p: nat, x1: i32, x2: i32): Draw<i32>
    requires Fair(t)
  {
    var i := Min(x1, x2);
    var j := Max(x1, x2);
    var n := ToU32(1 + Sub32(j, i));
    if n == 0 then Int32(t, p)
    else
      var d := Offset(t, p, false, n);
      Draw(Add32(i, d.value), d.next)
  }

  /** `Range(Int32, Int32)` */
  method Int32Range(t: Tape, p: nat, x1: i32, x2: i32) returns (r: i32, next: nat)
    requires Fair(t)
    ensures Draw(r, next) == RangeInt32(t, p, x1, x2)
  {
    var i: i32, j: i32;
    if x1 < x2 {
      i, j := x1, x2;
    } else {
      i, j := x2, x1;
    }
    var n := ToU32(1 + Sub32(j, i));
    if n == 0 {
      var d := Int32(t, p);
      return d.value, d.next;
    }
    var off;
    off, next := Sample(t, p, false, n);
    r := Add32(i, off);
  }

  /** The result lies between the bounds, in either order, and at least one
      draw is consumed. */
  lemma RangeInt32Bounds(t: Tape, p: nat, x1: i32, x2: i32)
    requires Fair(t)
    ensures Min(x1, x2) <= RangeInt32(t, p, x1, x2).value <= Max(x1, x2)
    ensures RangeInt32(t, p, x1, x2).next > p
  {
    var i := Min(x1, x2);
    var j := Max(x1, x2);
    Span32Wraps(i, j);
    var n := ToU32(1 + Sub32(j, i));
    if n != 0 {
      Add32Exact(i, j, Offset(t, p, false, n).value);
    }
  }

  /** Swapping the bounds changes nothing: same value, same draws. */
  lemma RangeInt32Symmetric(t: Tape, p: nat, x1: i32, x2: i32)
    requires Fair(t)
    ensures RangeInt32(t, p, x1, x2) == RangeInt32(t, p, x2, x1)
  {
  }

  /** The whole `int` range is one raw draw, reinterpreted. */
  lemma RangeInt32Full(t: Tape, p: nat)
    requires Fair(t)
    ensures RangeInt32(t, p, -TWO31, TWO31 - 1) == Int32(t, p)
  {
    Span32Wraps(-TWO31, TWO31 - 1);
  }

  // UInt32

  ghost function RangeUInt32(t: Tape, p: nat, x1: u32, x2: u32): Draw<u32>
    requires Fair(t)
  {
    var i: int := Min(x1, x2);
    var j: int := Max(x1, x2);
    var n := ToU32(1 + j - i);
    if n == 0 then UInt32(t, p)
    else
      var d := Offset(t, p, false, n);
      Draw(ToU32(i + d.value), d.next)
  }

  /** `Range(UInt32, UInt32)` */
  method UInt32Range(t: Tape, p: nat, x1: u32, x2: u32) returns (r: u32, next: nat)
    requires Fair(t)
    ensures Draw(r, next) == RangeUInt32(t, p, x1, x2)
  {
    var i: int, j: int;
    if x1 < x2 {
      i, j := x1, x2;
    } else {
      i, j := x2, x1;
    }
    var n := ToU32(1 + j - i);
    if n == 0 {
      var d := UInt32(t, p);
      return d.value, d.next;
    }
    var off;
    off, next := Sample(t, p, false, n);
    r := ToU32(i + off);
  }

  lemma RangeUInt32Bounds(t: Tape, p: nat, x1: u32, x2: u32)
    requires Fair(t)
    ensures Min(x1, x2) <= RangeUInt32(t, p, x1, x2).value <= Max(x1, x2)
    ensures RangeUInt32(t, p, x1, x2).next > p
  {
  }

  lemma RangeUInt32Symmetric(t: Tape, p: nat, x1: u32, x2: u32)
    requires Fair(t)
    ensures RangeUInt32(t, p, x1, x2) == RangeUInt32(t, p, x2, x1)
  {
  }

  /** The whole `uint` range is one raw draw. */
  lemma RangeUInt32Full(t: Tape, p: nat)
    requires Fair(t)
    ensures RangeUInt32(t, p, 0, TWO32 - 1) == UInt32(t, p)
  {
  }

  // Int64

  /** `(UInt64)x - (UInt64)y` */
  function Sub64(x: i64, y: i64): u64 {
    ToU64(ToU64(x) - ToU64(y))
  }

  /** `x + (Int64)y` */
  function Add64(x: i64, y: u64): i64 {
    ToI64(x + ToI64(y))
  }

  lemma Sub64Exact(j: i64, i: i64)
    requires i <= j
    ensures Sub64(j, i) == j - i
  {
  }

  lemma Add64Exact(i: i64, j: i64, d: u64)
    requires i <= j && d <= j - i
    ensures Add64(i, d) == i + d
  {
  }

  lemma Span64Wraps(i: i64, j: i64)
    requires i <= j
    ensures ToU64(1 + Sub64(j, i)) == 0 <==> i == -TWO63 && j == TWO63 - 1
    ensures ToU64(1 + Sub64(j, i)) != 0 ==> ToU64(1 + Sub64(j, i)) == j - i + 1
  {
    Sub64Exact(j, i);
  }

  ghost function RangeInt64(t: Tape, p: nat, x1: i64, x2: i64): Draw<i64>
    requires Fair(t)
  {
    var i := Min(x1, x2);
    var j := Max(x1, x2);
    var n := ToU64(1 + Sub64(j, i));
    if n == 0 then Int64(t, p)
    else
      var d := Offset(t, p, true, n);
      Draw(Add64(i, d.value), d.next)
  }

  /** `Range(Int64, Int64)`: each raw draw is a two-word `UInt64`. */
  method Int64Range(t: Tape, p: nat, x1: i64, x2: i64) returns (r: i64, next: nat)
    requires Fair(t)
    ensures Draw(r, next) == RangeInt64(t, p, x1, x2)
  {
    var i: i64, j: i64;
    if x1 < x2 {
      i, j := x1, x2;
    } else {
      i, j := x2, x1;
    }
    var n := ToU64(1 + Sub64(j, i));
    if n == 0 {
      var d := Int64(t, p);
      return d.value, d.next;
    }
    var off;
    off, next := Sample(t, p, true, n);
    r := Add64(i, off);
  }

  lemma RangeInt64Bounds(t: Tape, p: nat, x1: i64, x2: i64)
    requires Fair(t)
    ensures Min(x1, x2) <= RangeInt64(t, p, x1, x2).value <= Max(x1, x2)
    ensures RangeInt64(t, p, x1, x2).next >= p + 2
  {
    var i := Min(x1, x2);
    var j := Max(x1, x2);
    Span64Wraps(i, j);
    var n := ToU64(1 + Sub64(j, i));
    if n != 0 {
      var d := Offset(t, p, true, n);
      Add64Exact(i, j, d.value);
      assert RangeInt64(t, p, x1, x2) == Draw(Add64(i, d.value), d.next);
    }
  }

  lemma RangeInt64Symmetric(t: Tape, p: nat, x1: i64, x2: i64)
    requires Fair(t)
    ensures RangeInt64(t, p, x1, x2) == RangeInt64(t, p, x2, x1)
  {
  }

  /** The whole `long` range is one two-word draw, reinterpreted. */
  lemma RangeInt64Full(t: Tape, p: nat)
    requires Fair(t)
    ensures RangeInt64(t, p, -TWO63, TWO63 - 1) == Int64(t, p)
  {
    Span64Wraps(-TWO63, TWO63 - 1);
  }

  // UInt64

  ghost function RangeUInt64(t: Tape, p: nat, x1: u64, x2: u64): Draw<u64>
    requires Fair(t)
  {
    var i: int := Min(x1, x2);
    var j: int := Max(x1, x2);
    var n := ToU64(1 + j - i);
    if n == 0 then UInt64(t, p)
    else
      var d := Offset(t, p, true, n);
      Draw(ToU64(i + d.value), d.next)
  }

  /** `Range(UInt64, UInt64)` */
  method UInt64Range(t: Tape, p: nat, x1: u64, x2: u64) returns (r: u64, next: nat)
    requires Fair(t)
    ensures Draw(r, next) == RangeUInt64(t, p, x1, x2)
  {
    var i: int, j: int;
    if x1 < x2 {
      i, j := x1, x2;
    } else {
      i, j := x2, x1;
    }
    var n := ToU64(1 + j - i);
    if n == 0 {
      var d := UInt64(t, p);
      return d.value, d.next;
    }
    var off;
    off, next := Sample(t, p, true, n);
    r := ToU64(i + off);
  }

  lemma RangeUInt64Bounds(t: Tape, p: nat, x1: u64, x2: u64)
    requires Fair(t)
    ensures Min(x1, x2) <= RangeUInt64(t, p, x1, x2).value <= Max(x1, x2)
    ensures RangeUInt64(t, p, x1, x2).next >= p + 2
  {
  }

  lemma RangeUInt64Symmetric(t: Tape, p: nat, x1: u64, x2: u64)
    requires Fair(t)
    ensures RangeUInt64(t, p, x1, x2) == RangeUInt64(t, p, x2, x1)
  {
  }

  /** The whole `ulong` range is one two-word draw. */
  lemma RangeUInt64Full(t: Tape, p: nat)
    requires Fair(t)
    ensures RangeUInt64(t, p, 0, TWO64 - 1) == UInt64(t, p)
  {
  }

  // Narrow types route through the 32-bit samplers; the cast back loses
  // nothing because the result stays between the narrow bounds.

  /** `(SByte)Range((Int32)x1, x2)` */
  method SByteRange(t: Tape, p: nat, x1: int, x2: int) returns (r: int, next: nat)
    requires Fair(t) && -128 <= x1 < 128 && -128 <= x2 < 128
    ensures Min(x1, x2) <= r <= Max(x1, x2)
    ensures Draw(r, next) == RangeInt32(t, p, x1, x2)
  {
    var v;
    v, next := Int32Range(t, p, x1, x2);
    RangeInt32Bounds(t, p, x1, x2);
    r := ToI8(v);
  }

  /** `(Int16)Range((Int32)x1, x2)` */
  method Int16Range(t: Tape, p: nat, x1: int, x2: int) returns (r: int, next: nat)
    requires Fair(t) && -0x8000 <= x1 < 0x8000 && -0x8000 <= x2 < 0x8000
    ensures Min(x1, x2) <= r <= Max(x1, x2)
    ensures Draw(r, next) == RangeInt32(t, p, x1, x2)
  {
    var v;
    v, next := Int32Range(t, p, x1, x2);
    RangeInt32Bounds(t, p, x1, x2);
    r := ToI16(v);
  }

  /** `(Byte)Range((UInt32)x1, x2)` */
  method ByteRange(t: Tape, p: nat, x1: int, x2: int) returns (r: int, next: nat)
    requires Fair(t) && 0 <= x1 < TWO8 && 0 <= x2 < TWO8
    ensures Min(x1, x2) <= r <= Max(x1, x2)
    ensures Draw(r, next) == RangeUInt32(t, p, x1, x2)
  {
    var v;
    v, next := UInt32Range(t, p, x1, x2);
    RangeUInt32Bounds(t, p, x1, x2);
    r := ToU8(v);
  }

  /** `(UInt16)Range((UInt32)x1, x2)` */
  method UInt16Range(t: Tape, p: nat, x1: int, x2: int) returns (r: int, next: nat)
    requires Fair(t) && 0 <= x1 < TWO16 && 0 <= x2 < TWO16
    ensures Min(x1, x2) <= r <= Max(x1, x2)
    ensures Draw(r, next) == RangeUInt32(t, p, x1, x2)
  {
    var v;
    v, next := UInt32Range(t, p, x1, x2);
    RangeUInt32Bounds(t, p, x1, x2);
    r := ToU16(v);
  }

  /** `x1 == x2 ? x1 : random.Bool()`: no draw for equal bounds. */
  function BoolRange(t: Tape, p: nat, x1: bool, x2: bool): (d: Draw<bool>)
    ensures x1 == x2 ==> d.value == x1 && d.next == p
    ensures x1 != x2 ==> d.next == p + 1 && (d.value <==> t(p) % 2 == 1)
  {
    if x1 == x2 then Draw(x1, p) else Bool(t, p)
  }
}
