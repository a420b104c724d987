/** Sized draws over a whole integer type (src/QuickCheck/Random/RandomSizeable.cs).

    Each is the size-scaled range over the type's full bounds, so its window
    is `[-2^n, 2^n]` (or `[0, 2^n]` for unsigned types) with `n` growing
    from 0 at size 1 to 30 (32-bit) or 62 (64-bit) at size 100. */
module Sizeable {
  import opened Words
  import opened Random
  import opened RandomRange
  import opened RangeSizeable

  /** `BitLen(m)` is `e` when `2^(e-1) <= m < 2^e`. */
  lemma BitLenExact(m: nat, e: nat)
    requires 1 <= e && Pow2(e - 1) <= m < Pow2(e)
    ensures BitLen(m) == e
  {
    BitLenAtMost(m, e);
    BitLenBounds(m);
    if BitLen(m) < e {
      Pow2Monotone(BitLen(m), e - 1);
    }
  }

  /** The 64-bit types have width 64: `Bits(long.MinValue)` and
      `Bits(ulong.MaxValue)` are 64. */
  lemma Width64Full()
    ensures WidthOf(-TWO63, TWO63 - 1) == 64
    ensures WidthOf(0, TWO64 - 1) == 64
  {
    Pow2Constants();
    BitLenFacts();
    BitLenAtMost(TWO63 - 1, 63);
    BitLenExact(TWO64 - 1, 64);
  }

  /** `Int32(size)`: in `[-2^n, 2^n]` with `n = min(40*size/100, 30)`. */
  method Int32(t: Tape, pos: nat, size: i32) returns (r: i32, next: nat)
    requires Fair(t)
    ensures var w := Window32(size, -TWO31, TWO31 - 1);
      Draw(r, next) == RangeInt32(t, pos, w.0, w.1)
    ensures SafeSize(size) ==>
      var n := Min(40 * size / 100, 30); -(Pow2(n) as int) <= r <= Pow2(n)
  {
    r, next := SizedInt32Range(t, pos, size, -TWO31, TWO31 - 1);
    if SafeSize(size) {
      Int32Bound(t, pos, size);
    }
  }

  lemma Int32Bound(t: Tape, pos: nat, size: i32)
    requires Fair(t) && SafeSize(size)
    ensures var w := Window32(size, -TWO31, TWO31 - 1);
      var n := Min(40 * size / 100, 30);
      -(Pow2(n) as int) <= RangeInt32(t, pos, w.0, w.1).value <= Pow2(n)
  {
    var w := Window32(size, -TWO31, TWO31 - 1);
    RangeInt32Bounds(t, pos, w.0, w.1);
    Window32Exact(size, -TWO31, TWO31 - 1);
    Pow2Constants();
    Pow2Monotone(Min(40 * size / 100, 30), 30);
  }

  /** At size 1 the window is `[-1, 1]`; at size 100 it is `[-2^30, 2^30]`. */
  lemma Int32WindowEnds()
    ensures Window32(1, -TWO31, TWO31 - 1) == (-1, 1)
    ensures Window32(100, -TWO31, TWO31 - 1) == (-(Pow2(30) as int), Pow2(30))
  {
    WindowAtOne();
    WindowAtHundred();
  }

  lemma WindowAtOne()
    ensures Window32(1, -TWO31, TWO31 - 1) == (-1, 1)
  {
    Window32Exact(1, -TWO31, TWO31 - 1);
  }

  lemma WindowAtHundred()
    ensures Window32(100, -TWO31, TWO31 - 1) == (-(Pow2(30) as int), Pow2(30))
  {
    Window32Full(100);
    assert Min(40 * 100 / 100, 30) == 30;
  }

  /** Over the whole `int` range the window is exactly `[-2^n, 2^n]`. */
  lemma Window32Full(size: i32)
    requires SafeSize(size)
    ensures var n := Min(40 * size / 100, 30);
      Window32(size, -TWO31, TWO31 - 1) == (-(Pow2(n) as int), Pow2(n))
  {
    Window32Exact(size, -TWO31, TWO31 - 1);
    Pow2Below31(Min(40 * size / 100, 30));
  }

  /** `Int64(size)`: in `[-2^n, 2^n]` with `n = min(64*size/100, 62)`. */
  method Int64(t: Tape, pos: nat, size: i32) returns (r: i64, next: nat)
    requires Fair(t)
    ensures var w := Window64(size, -TWO63, TWO63 - 1);
      Draw(r, next) == RangeInt64(t, pos, w.0, w.1)
    ensures SafeSize(size) ==>
      var n := Min(64 * size / 100, 62); -(Pow2(n) as int) <= r <= Pow2(n)
  {
    r, next := SizedInt64Range(t, pos, size, -TWO63, TWO63 - 1);
    if SafeSize(size) {
      Int64Bound(t, pos, size);
    }
  }

  lemma Int64Bound(t: Tape, pos: nat, size: i32)
    requires Fair(t) && SafeSize(size)
    ensures var w := Window64(size, -TWO63, TWO63 - 1);
      var n := Min(64 * size / 100, 62);
      -(Pow2(n) as int) <= RangeInt64(t, pos, w.0, w.1).value <= Pow2(n)
  {
    var w := Window64(size, -TWO63, TWO63 - 1);
    RangeInt64Bounds(t, pos, w.0, w.1);
    Width64Full();
    Window64Exact(size, -TWO63, TWO63 - 1);
    Pow2Constants();
    Pow2Monotone(Min(64 * size / 100, 62), 62);
    Pow2Monotone(62, 63);
  }

  /** `UInt32(size)`: in `[0, 2^n]` with `n = min(40*size/100, 30)`. */
  method UInt32(t: Tape, pos: nat, size: i32) returns (r: u32, next: nat)
    requires Fair(t)
    ensures var w := WindowU32(size, 0, TWO32 - 1);
      Draw(r, next) == RangeUInt32(t, pos, w.0, w.1)
    ensures SafeSize(size) ==> r <= Pow2(Min(40 * size / 100, 30))
  {
    r, next := SizedUInt32Range(t, pos, size, 0, TWO32 - 1);
    ghost var w := WindowU32(size, 0, TWO32 - 1);
    RangeUInt32Bounds(t, pos, w.0, w.1);
    if SafeSize(size) {
      WindowU32Exact(size, 0, TWO32 - 1);
    }
  }

  /** `UInt64(size)`: in `[0, 2^n]` with `n = min(64*size/100, 62)`. */
  method UInt64(t: Tape, pos: nat, size: i32) returns (r: u64, next: nat)
    requires Fair(t)
    ensures var w := WindowU64(size, 0, TWO64 - 1);
      Draw(r, next) == RangeUInt64(t, pos, w.0, w.1)
    ensures SafeSize(size) ==> r <= Pow2(Min(64 * size / 100, 62))
  {
    r, next := SizedUInt64Range(t, pos, size, 0, TWO64 - 1);
    ghost var w := WindowU64(size, 0, TWO64 - 1);
    RangeUInt64Bounds(t, pos, w.0, w.1);
    if SafeSize(size) {
      Width64Full();
      WindowU64Exact(size, 0, TWO64 - 1);
    }
  }

  /** `SByte(size)`, `Int16(size)`, `Byte(size)`, `UInt16(size)`: the sized
      narrow ranges over the type's bounds, so always inside them. Each takes
      exactly the draws of the 32-bit sampler over its window, and its value
      is that sample, cut to the type's width. */
  method SByte(t: Tape, pos: nat, size: i32) returns (r: int, next: nat)
    requires Fair(t)
    ensures -128 <= r < 128
    ensures var w := Window32(size, -128, 127);
      var d := RangeInt32(t, pos, w.0, w.1);
      next == d.next && (r - d.value) % TWO8 == 0 && (SafeSize(size) ==> r == d.value)
  {
    r, next := SizedSByteRange(t, pos, size, -128, 127);
  }

  method Int16(t: Tape, pos: nat, size: i32) returns (r: int, next: nat)
    requires Fair(t)
    ensures -0x8000 <= r < 0x8000
    ensures var w := Window32(size, -0x8000, 0x7FFF);
      var d := RangeInt32(t, pos, w.0, w.1);
      next == d.next && (r - d.value) % TWO16 == 0 && (SafeSize(size) ==> r == d.value)
  {
    r, next := SizedInt16Range(t, pos, size, -0x8000, 0x7FFF);
  }

  method Byte(t: Tape, pos: nat, size: i32) returns (r: int, next: nat)
    requires Fair(t)
    ensures 0 <= r < TWO8
    ensures var w := Window32(size, 0, TWO8 - 1);
      var d := RangeInt32(t, pos, w.0, w.1);
      next == d.next && (r - d.value) % TWO8 == 0 && (SafeSize(size) ==> r == d.value)
  {
    r, next := SizedByteRange(t, pos, size, 0, TWO8 - 1);
  }

  method UInt16(t: Tape, pos: nat, size: i32) returns (r: int, next: nat)
    requires Fair(t)
    ensures 0 <= r < TWO16
    ensures var w := Window32(size, 0, TWO16 - 1);
      var d := RangeInt32(t, pos, w.0, w.1);
      next == d.next && (r - d.value) % TWO16 == 0 && (SafeSize(size) ==> r == d.value)
  {
    r, next := SizedUInt16Range(t, pos, size, 0, TWO16 - 1);
  }

  const FLOAT_PRECISION: int := 9999999
  const DOUBLE_PRECISION: int := 9999999999999

  /** The integer draws of `Float(size)`: the numerator in
      `[-size*9999999, size*9999999]` first, then the denominator in
      `[1, 9999999]`, both by the 64-bit sampler. The products are `long`
      arithmetic and never wrap for an `int` size. The final division is
      floating point. */
  method FloatFraction(t: Tape, pos: nat, size: i32) returns (a: i64, b: i64, next: nat)
    requires Fair(t)
    ensures var lo := ToI64(-(size as int) * FLOAT_PRECISION);
      var da := RangeInt64(t, pos, lo, ToI64(size * FLOAT_PRECISION));
      a == da.value && Draw(b, next) == RangeInt64(t, da.next, 1, FLOAT_PRECISION)
    ensures 0 <= size ==> -(size as int) * FLOAT_PRECISION <= a <= size * FLOAT_PRECISION
    ensures 1 <= b <= FLOAT_PRECISION && next >= pos + 4
  {
    var n: i64 := size;
    var lo := ToI64(-(n as int) * FLOAT_PRECISION);
    var hi := ToI64(n * FLOAT_PRECISION);
    var mid;
    a, mid := Int64Range(t, pos, lo, hi);
    b, next := Int64Range(t, mid, 1, FLOAT_PRECISION);
    RangeInt64Bounds(t, pos, lo, hi);
    RangeInt64Bounds(t, mid, 1, FLOAT_PRECISION);
    FloatBoundsExact(size);
  }

  /** For `Float` the products never wrap: `|size| * 9999999 < 2^63`. */
  lemma FloatBoundsExact(size: i32)
    ensures ToI64(size * FLOAT_PRECISION) == size * FLOAT_PRECISION
    ensures ToI64(-(size as int) * FLOAT_PRECISION) == -(size as int) * FLOAT_PRECISION
  {
  }

  /** The integer draws of `Double(size)`, with precision 9999999999999.
      Here the `long` products wrap once `size >= 922338`; the bounds below
      are stated for sizes up to 922337. */
  method DoubleFraction(t: Tape, pos: nat, size: i32) returns (a: i64, b: i64, next: nat)
    requires Fair(t)
    ensures var lo := ToI64(-(size as int) * DOUBLE_PRECISION);
      var da := RangeInt64(t, pos, lo, ToI64(size * DOUBLE_PRECISION));
      a == da.value && Draw(b, next) == RangeInt64(t, da.next, 1, DOUBLE_PRECISION)
    ensures 0 <= size <= 922337 ==> -(size as int) * DOUBLE_PRECISION <= a <= size * DOUBLE_PRECISION
    ensures 1 <= b <= DOUBLE_PRECISION && next >= pos + 4
  {
    var n: i64 := size;
    var lo := ToI64(-(n as int) * DOUBLE_PRECISION);
    var hi := ToI64(n * DOUBLE_PRECISION);
    var mid;
    a, mid := Int64Range(t, pos, lo, hi);
    b, next := Int64Range(t, mid, 1, DOUBLE_PRECISION);
    RangeInt64Bounds(t, pos, lo, hi);
    RangeInt64Bounds(t, mid, 1, DOUBLE_PRECISION);
    if 0 <= size <= 922337 {
      DoubleBoundsExact(size);
    }
  }

  lemma DoubleBoundsExact(size: i32)
    requires 0 <= size <= 922337
    ensures ToI64(size * DOUBLE_PRECISION) == size * DOUBLE_PRECISION
    ensures ToI64(-(size as int) * DOUBLE_PRECISION) == -(size as int) * DOUBLE_PRECISION
  {
  }

  /** Size 922338 is the first whose `Double` numerator bound wraps. */
  lemma DoubleNumeratorWraps()
    ensures ToI64(922337 * DOUBLE_PRECISION) == 922337 * DOUBLE_PRECISION
    ensures ToI64(922338 * DOUBLE_PRECISION) != 922338 * DOUBLE_PRECISION
  {
  }
}
