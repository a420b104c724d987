/** The size-scaled range sampler (src/QuickCheck/Random/RandomRangeSizeable.cs)
    and its whole-type wrappers (src/QuickCheck/Random/RandomSizeable.cs).

    The sampling window of a sized draw is `[max(min, -2^n), min(max, 2^n)]`
    where `n` grows with `size` from the bit length of the larger bound,
    floored at 40. The window is handed to the unbiased sampler, which swaps
    inverted bounds. */
module RangeSizeable {
  import opened Words
  import opened Random
  import opened RandomRange

  /** The number of bits needed to write `n`, at least 1. */
  function BitLen(n: nat): (b: nat)
    ensures b >= 1
  {
    if n <= 1 then 1 else 1 + BitLen(n / 2)
  }

  /** `BitLen(n)` is the unique `b` with `2^(b-1) <= n < 2^b`, for `n > 0`. */
  lemma {:induction false} BitLenBounds(n: nat)
    ensures n < Pow2(BitLen(n))
    ensures n > 0 ==> Pow2(BitLen(n) - 1) <= n
  {
    if n > 1 {
      BitLenBounds(n / 2);
    }
  }

  lemma {:induction false} DivDiv(n: nat, a: nat, b: nat)
    requires a > 0 && b > 0
    ensures n / a / b == n / (a * b)
  {
    var q := n / a;
    var q2 := q / b;
    var r := q % b;
    assert n == q * a + n % a;
    assert q * a == q2 * (a * b) + r * a by {
      assert q == q2 * b + r;
      assert (q2 * b + r) * a == q2 * b * a + r * a;
    }
    assert r * a <= a * b - a by {
      MulMono(r, b - 1, a);
      assert (b - 1) * a == a * b - a;
    }
    assert (q2 + 1) * (a * b) == q2 * (a * b) + a * b;
    DivInBucket(n, a * b, q2);
  }

  /** Shifting `n >= 2^s` right by `s` removes exactly `s` bits. */
  lemma {:induction false} BitLenShift(n: nat, s: nat)
    requires n >= Pow2(s)
    ensures BitLen(n) == s + BitLen(n / Pow2(s))
  {
    if s > 0 {
      assert n >= 2;
      assert Pow2(s) == 2 * Pow2(s - 1);
      DivDiv(n, 2, Pow2(s - 1));
      assert n / 2 >= Pow2(s - 1);
      BitLenShift(n / 2, s - 1);
    }
  }

  lemma DivBelow(n: nat, d: nat)
    requires d > 0 && n < d * d
    ensures n / d < d
  {
    if n / d >= d {
      MulMono(d, n / d, d);
    }
  }

  /** One step `if (n >> s != 0) { bits += s; n >>= s; }` of the cascade:
      the bits counted so far plus those left in `n` stay the same. */
  method Cascade(bits: int, n: nat, s: nat) returns (bits': int, n': nat)
    requires n < Pow2(s + s)
    ensures bits' + BitLen(n') == bits + BitLen(n)
    ensures n' < Pow2(s)
  {
    var d := Pow2(s);
    ShiftFacts(n, s);
    if n / d != 0 {
      bits', n' := bits + s, n / d;
    } else {
      bits', n' := bits, n;
    }
  }

  /** What one step of the cascade relies on: a nonzero shift removes `s`
      bits and leaves fewer than `s`; a zero shift means `n` already fits. */
  lemma ShiftFacts(n: nat, s: nat)
    requires n < Pow2(s + s)
    ensures n / Pow2(s) != 0 ==> BitLen(n) == s + BitLen(n / Pow2(s)) && n / Pow2(s) < Pow2(s)
    ensures n / Pow2(s) == 0 ==> n < Pow2(s)
  {
    var d := Pow2(s);
    Pow2Add(s, s);
    if n / d != 0 {
      DivAtLeast(n, d);
      BitLenShift(n, s);
      DivBelow(n, d);
    } else {
      DivZeroBelow(n, d);
    }
  }

  lemma DivAtLeast(n: nat, d: nat)
    requires d > 0 && n / d != 0
    ensures n >= d
  {
    assert n == (n / d) * d + n % d;
    MulMono(1, n / d, d);
  }

  lemma DivZeroBelow(n: nat, d: nat)
    requires d > 0 && n / d == 0
    ensures n < d
  {
    assert n == (n / d) * d + n % d;
  }

  /** `Bits(ulong)`: the shift cascade 32, 16, 8, 4, 2, 1. */
  method BitsU64(n0: u64) returns (bits: int)
    ensures bits == BitLen(n0)
  {
    Pow2Constants();
    var n: nat := n0;
    bits := 0;
    bits, n := Cascade(bits, n, 32);
    bits, n := Cascade(bits, n, 16);
    bits, n := Cascade(bits, n, 8);
    bits, n := Cascade(bits, n, 4);
    bits, n := Cascade(bits, n, 2);
    assert n < 4 && BitLen(n) == if n < 2 then 1 else 2;
    if n / 2 != 0 { bits := bits + 1; }
    bits := bits + 1;
  }

  /** The magnitude of a `long`, as `(ulong)(n < 0 ? -n : n)` computes it:
      the negation of `long.MinValue` wraps, and the cast reads it as 2^63. */
  function Magnitude(n: i64): (m: u64)
    ensures m == if n < 0 then -(n as int) else n
  {
    ToU64(if n < 0 then ToI64(-(n as int)) else n)
  }

  /** `Bits(long)` */
  method BitsI64(n: i64) returns (bits: int)
    ensures bits == BitLen(Abs(n))
  {
    bits := BitsU64(Magnitude(n));
  }

  lemma BitLenOfPow2(e: nat)
    ensures BitLen(Pow2(e)) == e + 1
  {
    BitLenBounds(Pow2(e));
    if BitLen(Pow2(e)) < e + 1 {
      Pow2Monotone(BitLen(Pow2(e)), e);
    } else if BitLen(Pow2(e)) > e + 1 {
      Pow2Monotone(e + 1, BitLen(Pow2(e)) - 1);
    }
  }

  lemma BitLenFacts()
    ensures BitLen(0) == 1 && BitLen(1) == 1
    ensures BitLen(TWO63) == 64 && BitLen(TWO31) == 32
  {
    Pow2Constants();
    BitLenOfPow2(63);
    BitLenOfPow2(31);
  }

  lemma BitLenAtMost(m: nat, e: nat)
    requires 1 <= e && m < Pow2(e)
    ensures BitLen(m) <= e
  {
    BitLenBounds(m);
    if m > 0 && BitLen(m) > e {
      Pow2Monotone(e, BitLen(m) - 1);
    }
  }

  function Abs(x: int): nat {
    if x < 0 then -x else x
  }

  /** `Math.Max(Bits(min), Math.Max(Bits(max), 40))`: never below 40. */
  function WidthOf(min: int, max: int): (w: nat)
    ensures w >= 40
  {
    Max(BitLen(Abs(min)), Max(BitLen(Abs(max)), 40))
  }

  /** `Math.Min(p * size / 100, cap)` in `int` arithmetic. */
  function Exponent(width: nat, size: i32, cap: int): int {
    Min(TruncDiv(ToI32(width * size), 100), cap)
  }

  /** Sizes for which `p * size` does not overflow, whatever the bounds. */
  predicate SafeSize(size: int) {
    0 <= size < 0x200_0000
  }

  /** The window of `Range(size, int, int)` for ordered bounds: `k = 1 << n`
      with the shift count masked to five bits, and `-k` wrapping. */
  function Window32(size: i32, min: i32, max: i32): (i32, i32) {
    var n := Exponent(WidthOf(min, max), size, 30);
    var k := ToI32(Pow2(n % 32));
    (Max(min, ToI32(-(k as int))), Min(max, k))
  }

  /** For 32-bit bounds the width is always 40. */
  lemma Width32(min: int, max: int)
    requires Abs(min) < TWO32 && Abs(max) < TWO32
    ensures WidthOf(min, max) == 40
  {
    Pow2Constants();
    BitLenAtMost(Abs(min), 32);
    BitLenAtMost(Abs(max), 32);
  }

  /** In the safe range `p * size` does not wrap, so the exponent is the
      plain `min(p*size/100, cap)`, it is not negative, and it only grows
      with the size. */
  lemma ExponentSafe(width: nat, size: i32, cap: nat)
    requires width <= 64 && SafeSize(size)
    ensures Exponent(width, size, cap) == Min(width * size / 100, cap)
    ensures 0 <= Exponent(width, size, cap) <= cap
  {
    MulMono(width, 64, size);
    var x := width * size;
    assert 0 <= x < TWO31;
    assert ToI32(x) == x;
    assert TruncDiv(x, 100) == x / 100;
  }

  lemma ExponentMonotone(width: nat, s1: i32, s2: i32, cap: nat)
    requires width <= 64 && SafeSize(s1) && SafeSize(s2) && s1 <= s2
    ensures Exponent(width, s1, cap) <= Exponent(width, s2, cap)
  {
    ExponentSafe(width, s1, cap);
    ExponentSafe(width, s2, cap);
    MulMono(s1, s2, width);
    DivMono(width * s1, width * s2, 100);
  }

  /** `1 << n` for `0 <= n <= 30` is `2^n`; so is `1L << n` for `n <= 62`. */
  lemma ShiftExact(n: nat)
    requires n <= 62
    ensures n <= 30 ==> ToI32(Pow2(n % 32)) == Pow2(n) && ToU32(Pow2(n % 32)) == Pow2(n)
    ensures ToI64(Pow2(n % 64)) == Pow2(n) && ToU64(Pow2(n % 64)) == Pow2(n)
  {
    if n <= 30 {
      Shift32(n);
    }
    Shift64(n);
  }

  lemma Shift32(n: nat)
    requires n <= 30
    ensures ToI32(Pow2(n % 32)) == Pow2(n) && ToU32(Pow2(n % 32)) == Pow2(n)
  {
    assert n % 32 == n;
    Pow2Below31(n);
    Fits32(Pow2(n));
  }

  lemma Shift64(n: nat)
    requires n <= 62
    ensures ToI64(Pow2(n % 64)) == Pow2(n) && ToU64(Pow2(n % 64)) == Pow2(n)
  {
    assert n % 64 == n;
    Pow2Below63(n);
    Fits64(Pow2(n));
  }

  lemma Pow2Below31(n: nat)
    requires n <= 30
    ensures Pow2(n) < TWO31
  {
    Pow2Monotone(n, 30);
    Pow2Caps();
  }

  lemma Pow2Below63(n: nat)
    requires n <= 62
    ensures Pow2(n) < TWO63
  {
    Pow2Monotone(n, 62);
    Pow2Caps();
  }

  lemma Fits32(x: nat)
    requires x < TWO31
    ensures ToI32(x) == x && ToU32(x) == x
  {
  }

  lemma Fits64(x: nat)
    requires x < TWO63
    ensures ToI64(x) == x && ToU64(x) == x
  {
  }

  lemma Pow2Caps()
    ensures Pow2(30) < TWO31 && Pow2(62) < TWO63
  {
    Pow2High();
    assert Pow2(31) == 2 * Pow2(30);
    assert Pow2(63) == 2 * Pow2(62);
  }

  /** The 32-bit window for a safe size: `n = min(40*size/100, 30)` and
      the window is `[max(min, -2^n), min(max, 2^n)]`. */
  lemma Window32Exact(size: i32, min: i32, max: i32)
    requires SafeSize(size)
    ensures var n := Min(40 * size / 100, 30);
      0 <= n <= 30 && Exponent(WidthOf(min, max), size, 30) == n &&
      Window32(size, min, max) == (Max(min, -(Pow2(n) as int)), Min(max, Pow2(n)))
  {
    Width32(min, max);
    ExponentSafe(40, size, 30);
    Window32Clamp(size, min, max);
  }

  /** The 32-bit window is the clamp of the bounds to `[-2^n, 2^n]`, for
      the exponent `n` of any safe size. */
  lemma Window32Clamp(size: i32, min: i32, max: i32)
    requires SafeSize(size)
    ensures var n := Exponent(WidthOf(min, max), size, 30);
      0 <= n <= 30 && Window32(size, min, max) == (Max(min, -(Pow2(n) as int)), Min(max, Pow2(n)))
  {
    var n := Exponent(WidthOf(min, max), size, 30);
    assert 0 <= n <= 30 by {
      Width64(min, max);
      ExponentSafe(WidthOf(min, max), size, 30);
    }
    Shift32(n);
    Pow2Below31(n);
    assert ToI32(-(Pow2(n) as int)) == -(Pow2(n) as int);
  }

  /** The window computation of `SizedInt32Range` for ordered bounds. */
  method Window32Of(size: i32, min: i32, max: i32) returns (kmin: i32, kmax: i32)
    ensures (kmin, kmax) == Window32(size, min, max)
  {
    var pmin := BitsI64(min);
    var pmax := BitsI64(max);
    var p := Max(pmin, Max(pmax, 40));
    var n := Exponent(p, size, 30);
    var k := ToI32(Pow2(n % 32));
    kmin := Max(min, ToI32(-(k as int)));
    kmax := Min(max, k);
  }

  /** `Range(size, int x1, int x2)` */
  method SizedInt32Range(t: Tape, pos: nat, size: i32, x1: i32, x2: i32)
    returns (r: i32, next: nat)
    requires Fair(t)
    ensures var w := Window32(size, Min(x1, x2), Max(x1, x2));
      Draw(r, next) == RangeInt32(t, pos, w.0, w.1)
  {
    var min: i32, max: i32;
    if x1 < x2 {
      min, max := x1, x2;
    } else {
      min, max := x2, x1;
    }
    var kmin, kmax := Window32Of(size, min, max);
    r, next := Int32Range(t, pos, kmin, kmax);
  }

  /** A window around zero stays inside the bounds. */
  lemma Window32Inside(size: i32, min: i32, max: i32)
    requires SafeSize(size) && min <= 0 <= max
    ensures var w := Window32(size, min, max); min <= w.0 <= 0 <= w.1 <= max
  {
    Window32Exact(size, min, max);
  }

  /** Whatever the ordered bounds, both ends of the window lie in any
      interval `[lo, hi]` around zero that holds the bounds; so the sampled
      value does too. */
  lemma Window32Within(size: i32, min: i32, max: i32, lo: int, hi: int)
    requires SafeSize(size) && lo <= min <= max <= hi && lo <= 0 <= hi
    ensures var w := Window32(size, min, max); lo <= w.0 <= hi && lo <= w.1 <= hi
  {
    Window32Exact(size, min, max);
  }

  /** The window only widens as the size grows. */
  lemma Window32Monotone(s1: i32, s2: i32, min: i32, max: i32)
    requires SafeSize(s1) && SafeSize(s2) && s1 <= s2
    ensures Window32(s2, min, max).0 <= Window32(s1, min, max).0
    ensures Window32(s1, min, max).1 <= Window32(s2, min, max).1
  {
    var w := WidthOf(min, max);
    Window32Clamp(s1, min, max);
    Window32Clamp(s2, min, max);
    Width64(min, max);
    ExponentMonotone(w, s1, s2, 30);
    Pow2Monotone(Exponent(w, s1, 30), Exponent(w, s2, 30));
  }

  /** The window can be inverted: at size 1 the bounds 1000..2000 give the
      window (1000, 1), which the sampler swaps to [1, 1000], below `min`. */
  lemma Window32Escapes()
    ensures Window32(1, 1000, 2000) == (1000, 1)
  {
    Window32Exact(1, 1000, 2000);
  }

  /** So the value `Range(1, 1000, 2000)` returns lies in [1, 1000]: every
      value the sampler can give but 1000 is below the lower bound. */
  lemma SizedInt32Escapes(t: Tape, pos: nat)
    requires Fair(t)
    ensures var w := Window32(1, 1000, 2000);
      var d := RangeInt32(t, pos, w.0, w.1);
      1 <= d.value <= 1000
  {
    Window32Escapes();
    RangeInt32Bounds(t, pos, 1000, 1);
  }

  function Clamp(x: int, lo: int, hi: int): (r: int)
    requires lo <= hi
    ensures lo <= r <= hi
    ensures lo <= x <= hi ==> r == x
  {
    Max(lo, Min(hi, x))
  }

  /** The window with both ends clamped into the bounds. Where the sized
      window meets `[min, max]` it is unchanged; where it misses them, it
      shrinks to the bound nearest zero. */
  function Window32Bounded(size: i32, min: i32, max: i32): (i32, i32)
    requires min <= max
  {
    var w := Window32(size, min, max);
    (Clamp(w.0, min, max), Clamp(w.1, min, max))
  }

  /** The clamped window is ordered and inside the bounds for every size,
      and agrees with the window as written whenever that one is ordered. */
  lemma Window32BoundedInside(size: i32, min: i32, max: i32)
    requires min <= max
    ensures var w := Window32Bounded(size, min, max); min <= w.0 <= w.1 <= max
    ensures var w := Window32(size, min, max);
      w.0 <= w.1 ==> Window32Bounded(size, min, max) == w
  {
    var a, b := Window32Ends(size, min, max);
    ClampMonotone(a, b, min, max);
  }

  /** The window is the bounds cut at `-k` and `k`, where `-k <= k` even
      when the shift reaches the sign bit. */
  lemma Window32Ends(size: i32, min: i32, max: i32) returns (a: int, b: int)
    ensures Window32(size, min, max) == (Max(min, a), Min(max, b)) && a <= b
  {
    var n := Exponent(WidthOf(min, max), size, 30);
    var k := ToI32(Pow2(n % 32));
    ShiftSign(n % 32);
    NegateShift(k);
    a, b := ToI32(-(k as int)), k;
  }

  lemma NegateShift(k: i32)
    requires k > 0 || k == -TWO31
    ensures ToI32(-(k as int)) <= k
  {
  }

  lemma ClampMonotone(a: int, b: int, lo: int, hi: int)
    requires lo <= hi && a <= b
    ensures Clamp(a, lo, hi) <= Clamp(b, lo, hi)
  {
  }

  /** Sampling from the clamped window never leaves the bounds. */
  lemma SizedInt32Bounded(t: Tape, pos: nat, size: i32, min: i32, max: i32)
    requires Fair(t) && min <= max
    ensures var w := Window32Bounded(size, min, max);
      min <= RangeInt32(t, pos, w.0, w.1).value <= max
  {
    Window32BoundedInside(size, min, max);
    var w := Window32Bounded(size, min, max);
    RangeInt32Bounds(t, pos, w.0, w.1);
  }

  /** `1 << s` for a masked count `s`: positive below 31, `int.MinValue` at 31. */
  lemma ShiftSign(s: nat)
    requires s < 32
    ensures var k := ToI32(Pow2(s)); k > 0 || k == -TWO31
  {
    if s <= 30 {
      Pow2Below31(s);
    } else {
      Pow2High();
      assert ToI32(TWO31) == -TWO31;
    }
  }


  /** The window of `Range(size, uint, uint)`: only the upper end is
      clamped. For unsigned arguments both `Bits` overloads agree. */
  function WindowU32(size: i32, min: u32, max: u32): (u32, u32) {
    var n := Exponent(WidthOf(min, max), size, 30);
    var k := ToU32(Pow2(n % 32));
    (min, Min(max, k))
  }

  lemma WindowU32Exact(size: i32, min: u32, max: u32)
    requires SafeSize(size)
    ensures WindowU32(size, min, max) == (min, Min(max, Pow2(Min(40 * size / 100, 30))))
  {
    Width32(min, max);
    ExponentSafe(40, size, 30);
    ShiftExact(Min(40 * size / 100, 30));
  }

  /** The window computation of `SizedUInt32Range` for ordered bounds. */
  method WindowU32Of(size: i32, min: u32, max: u32) returns (kmin: u32, kmax: u32)
    ensures (kmin, kmax) == WindowU32(size, min, max)
  {
    var pmin := BitsU64(min);
    var pmax := BitsU64(max);
    var p := Max(pmin, Max(pmax, 40));
    var n := Exponent(p, size, 30);
    var k := ToU32(Pow2(n % 32));
    kmin := min;
    kmax := Min(max, k);
  }

  /** `Range(size, uint x1, uint x2)` */
  method SizedUInt32Range(t: Tape, pos: nat, size: i32, x1: u32, x2: u32)
    returns (r: u32, next: nat)
    requires Fair(t)
    ensures var w := WindowU32(size, Min(x1, x2), Max(x1, x2));
      Draw(r, next) == RangeUInt32(t, pos, w.0, w.1)
  {
    var min: u32, max: u32;
    if x1 < x2 {
      min, max := x1, x2;
    } else {
      min, max := x2, x1;
    }
    var kmin, kmax := WindowU32Of(size, min, max);
    r, next := UInt32Range(t, pos, kmin, kmax);
  }

  /** When `min <= 2^n` the unsigned window is `[min, min(max, 2^n)]`,
      inside the bounds and not inverted. */
  lemma WindowU32Inside(size: i32, min: u32, max: u32)
    requires SafeSize(size) && min <= max && min <= Pow2(Min(40 * size / 100, 30))
    ensures var w := WindowU32(size, min, max); min == w.0 <= w.1 <= max
  {
    WindowU32Exact(size, min, max);
  }

  // 64-bit windows

  function Window64(size: i32, min: i64, max: i64): (i64, i64) {
    var n := Exponent(WidthOf(min, max), size, 62);
    var k := ToI64(Pow2(n % 64));
    (Max(min, ToI64(-(k as int))), Min(max, k))
  }

  lemma Width64(min: int, max: int)
    requires Abs(min) < TWO64 && Abs(max) < TWO64
    ensures WidthOf(min, max) <= 64
  {
    Pow2Constants();
    BitLenAtMost(Abs(min), 64);
    BitLenAtMost(Abs(max), 64);
  }

  /** The 64-bit window for a safe size: `n = min(p*size/100, 62)` with `p`
      the width of the bounds, and the window is `[max(min, -2^n), min(max, 2^n)]`. */
  lemma Window64Exact(size: i32, min: i64, max: i64)
    requires SafeSize(size)
    ensures WidthOf(min, max) <= 64
    ensures var n := Exponent(WidthOf(min, max), size, 62);
      0 <= n <= 62 && n == Min(WidthOf(min, max) * size / 100, 62) &&
      Window64(size, min, max) == (Max(min, -(Pow2(n) as int)), Min(max, Pow2(n)))
  {
    Width64(min, max);
    ExponentSafe(WidthOf(min, max), size, 62);
    Window64Clamp(size, min, max);
  }

  /** The 64-bit window is the clamp of the bounds to `[-2^n, 2^n]`, for
      the exponent `n` of any safe size. */
  lemma Window64Clamp(size: i32, min: i64, max: i64)
    requires SafeSize(size)
    ensures var n := Exponent(WidthOf(min, max), size, 62);
      0 <= n <= 62 && Window64(size, min, max) == (Max(min, -(Pow2(n) as int)), Min(max, Pow2(n)))
  {
    var n := Exponent(WidthOf(min, max), size, 62);
    assert 0 <= n <= 62 by {
      Width64(min, max);
      ExponentSafe(WidthOf(min, max), size, 62);
    }
    Shift64(n);
    Pow2Below63(n);
    assert ToI64(-(Pow2(n) as int)) == -(Pow2(n) as int);
  }

  /** The window computation of `SizedInt64Range` for ordered bounds. */
  method Window64Of(size: i32, min: i64, max: i64) returns (kmin: i64, kmax: i64)
    ensures (kmin, kmax) == Window64(size, min, max)
  {
    var pmin := BitsI64(min);
    var pmax := BitsI64(max);
    var p := Max(pmin, Max(pmax, 40));
    var n := Exponent(p, size, 62);
    var k := ToI64(Pow2(n % 64));
    kmin := Max(min, ToI64(-(k as int)));
    kmax := Min(max, k);
  }

  /** `Range(size, long x1, long x2)` */
  method SizedInt64Range(t: Tape, pos: nat, size: i32, x1: i64, x2: i64)
    returns (r: i64, next: nat)
    requires Fair(t)
    ensures var w := Window64(size, Min(x1, x2), Max(x1, x2));
      Draw(r, next) == RangeInt64(t, pos, w.0, w.1)
  {
    var min: i64, max: i64;
    if x1 < x2 {
      min, max := x1, x2;
    } else {
      min, max := x2, x1;
    }
    var kmin, kmax := Window64Of(size, min, max);
    r, next := Int64Range(t, pos, kmin, kmax);
  }

  lemma Window64Inside(size: i32, min: i64, max: i64)
    requires SafeSize(size) && min <= 0 <= max
    ensures var w := Window64(size, min, max); min <= w.0 <= 0 <= w.1 <= max
  {
    Window64Exact(size, min, max);
  }

  lemma Window64Monotone(s1: i32, s2: i32, min: i64, max: i64)
    requires SafeSize(s1) && SafeSize(s2) && s1 <= s2
    ensures Window64(s2, min, max).0 <= Window64(s1, min, max).0
    ensures Window64(s1, min, max).1 <= Window64(s2, min, max).1
  {
    var w := WidthOf(min, max);
    Window64Clamp(s1, min, max);
    Window64Clamp(s2, min, max);
    Width64(min, max);
    ExponentMonotone(w, s1, s2, 62);
    Pow2Monotone(Exponent(w, s1, 62), Exponent(w, s2, 62));
  }

  function WindowU64(size: i32, min: u64, max: u64): (u64, u64) {
    var n := Exponent(WidthOf(min, max), size, 62);
    var k := ToU64(Pow2(n % 64));
    (min, Min(max, k))
  }

  lemma WindowU64Exact(size: i32, min: u64, max: u64)
    requires SafeSize(size) && max < TWO64
    ensures var n := Min(WidthOf(min, max) * size / 100, 62);
      0 <= n <= 62 && WindowU64(size, min, max) == (min, Min(max, Pow2(n)))
  {
    Width64(min, max);
    ExponentSafe(WidthOf(min, max), size, 62);
    ShiftExact(Exponent(WidthOf(min, max), size, 62));
  }

  /** The window computation of `SizedUInt64Range` for ordered bounds. */
  method WindowU64Of(size: i32, min: u64, max: u64) returns (kmin: u64, kmax: u64)
    ensures (kmin, kmax) == WindowU64(size, min, max)
  {
    var pmin := BitsU64(min);
    var pmax := BitsU64(max);
    var p := Max(pmin, Max(pmax, 40));
    var n := Exponent(p, size, 62);
    var k := ToU64(Pow2(n % 64));
    kmin := min;
    kmax := Min(max, k);
  }

  /** `Range(size, ulong x1, ulong x2)` */
  method SizedUInt64Range(t: Tape, pos: nat, size: i32, x1: u64, x2: u64)
    returns (r: u64, next: nat)
    requires Fair(t)
    ensures var w := WindowU64(size, Min(x1, x2), Max(x1, x2));
      Draw(r, next) == RangeUInt64(t, pos, w.0, w.1)
  {
    var min: u64, max: u64;
    if x1 < x2 {
      min, max := x1, x2;
    } else {
      min, max := x2, x1;
    }
    var kmin, kmax := WindowU64Of(size, min, max);
    r, next := UInt64Range(t, pos, kmin, kmax);
  }

  lemma WindowU64Inside(size: i32, min: u64, max: u64)
    requires SafeSize(size) && min <= max
    requires min <= Pow2(Min(WidthOf(min, max) * size / 100, 62))
    ensures var w := WindowU64(size, min, max); min == w.0 <= w.1 <= max
  {
    WindowU64Exact(size, min, max);
  }

  // Narrow types route through `Range(size, int, int)` and cast back.
  // With a safe size the cast loses nothing: the sampled value lies between
  // the window's ends, which lie in the narrow type's range.

  /** `(sbyte)Range(size, (int)x1, x2)` */
  method SizedSByteRange(t: Tape, pos: nat, size: i32, x1: int, x2: int)
    returns (r: int, next: nat)
    requires Fair(t) && -128 <= x1 < 128 && -128 <= x2 < 128
    ensures -128 <= r < 128
    ensures var w := Window32(size, Min(x1, x2), Max(x1, x2));
      var d := RangeInt32(t, pos, w.0, w.1);
      next == d.next && (r - d.value) % TWO8 == 0 && (SafeSize(size) ==> r == d.value)
  {
    var v;
    v, next := SizedInt32Range(t, pos, size, x1, x2);
    ghost var w := Window32(size, Min(x1, x2), Max(x1, x2));
    RangeInt32Bounds(t, pos, w.0, w.1);
    if SafeSize(size) {
      Window32Within(size, Min(x1, x2), Max(x1, x2), -128, 127);
    }
    r := ToI8(v);
  }

  /** `(byte)Range(size, (int)x1, x2)` */
  method SizedByteRange(t: Tape, pos: nat, size: i32, x1: int, x2: int)
    returns (r: int, next: nat)
    requires Fair(t) && 0 <= x1 < TWO8 && 0 <= x2 < TWO8
    ensures 0 <= r < TWO8
    ensures var w := Window32(size, Min(x1, x2), Max(x1, x2));
      var d := RangeInt32(t, pos, w.0, w.1);
      next == d.next && (r - d.value) % TWO8 == 0 && (SafeSize(size) ==> r == d.value)
  {
    var v;
    v, next := SizedInt32Range(t, pos, size, x1, x2);
    ghost var w := Window32(size, Min(x1, x2), Max(x1, x2));
    RangeInt32Bounds(t, pos, w.0, w.1);
    if SafeSize(size) {
      Window32Within(size, Min(x1, x2), Max(x1, x2), 0, TWO8 - 1);
    }
    r := ToU8(v);
  }

  /** `(short)Range(size, (int)x1, x2)` */
  method SizedInt16Range(t: Tape, pos: nat, size: i32, x1: int, x2: int)
    returns (r: int, next: nat)
    requires Fair(t) && -0x8000 <= x1 < 0x8000 && -0x8000 <= x2 < 0x8000
    ensures -0x8000 <= r < 0x8000
    ensures var w := Window32(size, Min(x1, x2), Max(x1, x2));
      var d := RangeInt32(t, pos, w.0, w.1);
      next == d.next && (r - d.value) % TWO16 == 0 && (SafeSize(size) ==> r == d.value)
  {
    var v;
    v, next := SizedInt32Range(t, pos, size, x1, x2);
    ghost var w := Window32(size, Min(x1, x2), Max(x1, x2));
    RangeInt32Bounds(t, pos, w.0, w.1);
    if SafeSize(size) {
      Window32Within(size, Min(x1, x2), Max(x1, x2), -0x8000, 0x7FFF);
    }
    r := ToI16(v);
  }

  /** `(ushort)Range(size, (int)x1, x2)` */
  method SizedUInt16Range(t: Tape, pos: nat, size: i32, x1: int, x2: int)
    returns (r: int, next: nat)
    requires Fair(t) && 0 <= x1 < TWO16 && 0 <= x2 < TWO16
    ensures 0 <= r < TWO16
    ensures var w := Window32(size, Min(x1, x2), Max(x1, x2));
      var d := RangeInt32(t, pos, w.0, w.1);
      next == d.next && (r - d.value) % TWO16 == 0 && (SafeSize(size) ==> r == d.value)
  {
    var v;
    v, next := SizedInt32Range(t, pos, size, x1, x2);
    ghost var w := Window32(size, Min(x1, x2), Max(x1, x2));
    RangeInt32Bounds(t, pos, w.0, w.1);
    if SafeSize(size) {
      Window32Within(size, Min(x1, x2), Max(x1, x2), 0, TWO16 - 1);
    }
    r := ToU16(v);
  }
}
