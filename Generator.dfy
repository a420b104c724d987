/** The older value source built on `System.Random` (src/QuickCheck/Generator.cs).

    `System.Random` itself is not part of this model: it is seen through two
    abstract streams, `next(p)` for the p-th call of `Next()` and
    `nextIn(p, min, max)` for a p-th call of `Next(min, max)`. Every call
    consumes one position. Nothing is assumed about either stream except,
    where a lemma says so, that `Next()` returned a non-negative value. */
module Generator {
  import opened Words
  import opened Outcomes
  import opened Random
  import opened RangeSizeable

  datatype SysRandom = SysRandom(next: nat -> i32, nextIn: (nat, i32, i32) -> i32)

  /** `Next()` returned a non-negative value at positions `p` and `p + 1`. */
  predicate NonNegativeAt(r: SysRandom, p: nat) {
    r.next(p) >= 0 && r.next(p + 1) >= 0
  }

  /** `Int32()`: one call of `Next()`. */
  function Int32(r: SysRandom, p: nat): (d: Draw<i32>)
    ensures d.next == p + 1 && d.value == r.next(p)
  {
    Draw(r.next(p), p + 1)
  }

  /** `Choose(int min, int max)`: one call of `Next(min, max)`, which throws
      `ArgumentOutOfRangeException` when `min > max`. Otherwise nothing is
      assumed about what `Next(min, max)` returns. */
  function Choose(r: SysRandom, p: nat, min: i32, max: i32): (o: Outcome<Draw<i32>>)
    ensures o.Throw? <==> min > max
    ensures o.Throw? ==> o.error.kind == ArgumentOutOfRange
    ensures o.Ok? ==> o.value.next == p + 1 && o.value.value == r.nextIn(p, min, max)
  {
    if min > max then Throw(Runtime(ArgumentOutOfRange))
    else Ok(Draw(r.nextIn(p, min, max), p + 1))
  }

  /** `Bool()`: `Choose(0, 1) != 0`; the bounds are ordered, so it never
      throws. */
  function Bool(r: SysRandom, p: nat): (d: Draw<bool>)
    ensures d.next == p + 1
    ensures d.value <==> r.nextIn(p, 0, 1) != 0
  {
    var c := Choose(r, p, 0, 1).value;
    Draw(c.value != 0, c.next)
  }

  /** `long` bitwise or, on the two's-complement bit patterns. */
  function OrI64(a: i64, b: i64): i64 {
    ToI64(Or64(ToU64(a), ToU64(b)))
  }

  /** `Int64()`: `high << 32 | low`, where `high` is the first `Next()` and
      `low` the second, both widened to `long`. */
  function Int64(r: SysRandom, p: nat): (d: Draw<i64>)
    ensures d.next == p + 2
  {
    var high := Int32(r, p);
    var low := Int32(r, high.next);
    Draw(OrI64(ToI64(high.value * Pow2(32 % 64)), low.value), low.next)
  }

  /** With non-negative halves the or is an addition: the first call gives
      bits 32..62 and the second bits 0..30, so the value is non-negative. */
  lemma Int64NonNegative(r: SysRandom, p: nat)
    requires NonNegativeAt(r, p)
    ensures Int64(r, p).value == r.next(p) * TWO32 + r.next(p + 1)
    ensures 0 <= Int64(r, p).value < TWO63
  {
    var h := r.next(p);
    var l := r.next(p + 1);
    var hi := HighHalf(h);
    OrDisjoint(hi, l);
  }

  /** `(long)h << 32` for a non-negative `h`: the word moved up, exactly. */
  lemma HighHalf(h: i32) returns (hi: nat)
    requires h >= 0
    ensures hi == h * TWO32 <= TWO63 - TWO32 && hi % TWO32 == 0
    ensures ToI64(h * Pow2(32 % 64)) == hi && ToU64(hi) == hi
  {
    Pow2Constants();
    MulMono(h, TWO31 - 1, TWO32);
    hi := h * TWO32;
  }

  /** Or-ing a value with its low word clear and a word is adding them. */
  lemma OrDisjoint(hi: nat, l: nat)
    requires hi <= TWO63 - TWO32 && hi % TWO32 == 0 && l < TWO31
    ensures OrI64(hi, l) == hi + l
  {
    assert ToU64(hi) == hi && ToU64(l) == l;
    Or64Disjoint(hi, l);
    OrI64Of(hi, l, hi + l);
  }

  lemma OrI64Of(a: i64, b: i64, u: u64)
    requires u == Or64(ToU64(a), ToU64(b))
    ensures OrI64(a, b) == ToI64(u)
  {
  }

  /** `max - min + 1` in unchecked `long` arithmetic. */
  function SpanOf(min: i64, max: i64): (d: i64)
    ensures d == 0 <==> (max - min + 1) % TWO64 == 0
    ensures 0 < max - min + 1 < TWO63 ==> d == max - min + 1
  {
    var s := ToI64(ToI64(max - min) + 1);
    SpanWraps(max - min, s);
    s
  }

  lemma SpanWraps(a: int, s: i64)
    requires -TWO64 < a < TWO64 && s == ToI64(ToI64(a) + 1)
    ensures s == 0 <==> (a + 1) % TWO64 == 0
    ensures 0 <= a < TWO63 - 1 ==> s == a + 1
  {
    var b := ToI64(a);
    assert (b - a) % TWO64 == 0;
    assert (s - (b + 1)) % TWO64 == 0;
    var q := (b - a) / TWO64;
    assert b - a == q * TWO64;
    assert -2 < q < 2;
  }

  /** `min + x % diff` in unchecked `long` arithmetic. */
  function Offset(min: i64, x: i64, diff: i64): (v: i64)
    requires diff != 0
    ensures 0 <= x && 0 < diff && min + diff - 1 < TWO63 ==> min <= v < min + diff
  {
    ToI64(min + TruncRem(x, diff))
  }

  /** `Choose(long min, long max)`: `min` without a draw when the bounds are
      equal; otherwise `min + Int64() % diff` with `diff = max - min + 1`,
      all in unchecked `long` arithmetic. A `diff` that wraps to 0 divides by
      zero, and `long.MinValue % -1` overflows. */
  function ChooseLong(r: SysRandom, p: nat, min: i64, max: i64): (o: Outcome<Draw<i64>>)
    ensures min == max ==> o == Ok(Draw(min, p))
    ensures min != max && (max - min + 1) % TWO64 == 0 ==> o == Throw(Runtime(DivideByZero))
    ensures o.Ok? && min != max ==> o.value.next == p + 2
  {
    if min == max then Ok(Draw(min, p))
    else
      var diff := SpanOf(min, max);
      var x := Int64(r, p);
      if diff == 0 then Throw(Runtime(DivideByZero))
      else if diff == -1 && x.value == -TWO63 then Throw(Runtime(Overflow))
      else Ok(Draw(Offset(min, x.value, diff), x.next))
  }

  /** With a non-negative `Int64()` and a span that fits in a `long`, the
      result lies in `[min, max]`: the remainder is in `[0, max - min]`. */
  lemma ChooseLongBounds(r: SysRandom, p: nat, min: i64, max: i64)
    requires NonNegativeAt(r, p) && min <= max && max - min + 1 < TWO63
    ensures ChooseLong(r, p, min, max).Ok?
    ensures min <= ChooseLong(r, p, min, max).value.value <= max
  {
    if min != max {
      Int64NonNegative(r, p);
      ChooseLongDraws(r, p, min, max);
    }
  }

  lemma ChooseLongDraws(r: SysRandom, p: nat, min: i64, max: i64)
    requires min < max && max - min + 1 < TWO63 && Int64(r, p).value >= 0
    ensures ChooseLong(r, p, min, max) == Ok(Draw(Offset(min, Int64(r, p).value, max - min + 1), p + 2))
  {
    var x := Int64(r, p);
    assert x.value != -TWO63;
    var diff := SpanOf(min, max);
    assert diff == max - min + 1;
    assert diff != 0 && diff != -1;
    assert ChooseLong(r, p, min, max) == Ok(Draw(Offset(min, x.value, diff), x.next));
  }

  /** The full `long` range: `diff` wraps to 0 and the division throws. */
  lemma ChooseLongFullRange(r: SysRandom, p: nat)
    ensures ChooseLong(r, p, -TWO63, TWO63 - 1) == Throw(Runtime(DivideByZero))
  {
  }

  const ORDER_MESSAGE := "max must be greater than min"

  /** The exponent of `Choose(size, int, int)` as written:
      `Math.Max(40 * size / 100, 30)`. */
  function ChooseExponent(size: i32): int {
    Max(TruncDiv(ToI32(40 * size), 100), 30)
  }

  /** The window of `Choose(size, int, int)` as written: `k = 1 << n`, the
      shift count masked to five bits, and `-k` wrapping. */
  function ChooseWindow32(size: i32, min: i32, max: i32): (i32, i32) {
    var n := ChooseExponent(size);
    var k := ToI32(Pow2(n % 32));
    (Max(min, ToI32(-(k as int))), Min(max, k))
  }

  /** `Choose(size, int min, int max)`: refuses inverted bounds (it does not
      swap them), then calls `Next(kmin, kmax)` on the window, which throws in
      turn when the window itself is inverted. */
  function ChooseSizedInt32(r: SysRandom, p: nat, size: i32, min: i32, max: i32): (o: Outcome<Draw<i32>>)
    ensures min > max <==> o == Throw(Exception(ArgumentError, ORDER_MESSAGE))
    ensures var w := ChooseWindow32(size, min, max);
      min <= max ==> (o.Ok? <==> w.0 <= w.1)
    ensures var w := ChooseWindow32(size, min, max);
      min <= max && w.0 > w.1 ==> o.Throw? && o.error.kind == ArgumentOutOfRange
    ensures o.Ok? ==> var w := ChooseWindow32(size, min, max);
      o.value.next == p + 1 && o.value.value == r.nextIn(p, w.0, w.1)
  {
    if min > max then Throw(Exception(ArgumentError, ORDER_MESSAGE))
    else
      var w := ChooseWindow32(size, min, max);
      Choose(r, p, w.0, w.1)
  }

  /** Ordered bounds do not keep `Choose(size, int, int)` from throwing: at
      size 80 the bounds 5..10 give the window (5, 1), and at size 78 the
      bounds -5..5 give (-5, int.MinValue); `Next` refuses both. */
  lemma ChooseSizedInt32Inverted(r: SysRandom, p: nat)
    ensures ChooseWindow32(80, 5, 10) == (5, 1)
    ensures ChooseSizedInt32(r, p, 80, 5, 10).Throw?
    ensures ChooseSizedInt32(r, p, 80, 5, 10).error.kind == ArgumentOutOfRange
    ensures ChooseWindow32(78, -5, 5) == (-5, -TWO31)
    ensures ChooseSizedInt32(r, p, 78, -5, 5).Throw?
    ensures ChooseSizedInt32(r, p, 78, -5, 5).error.kind == ArgumentOutOfRange
  {
    ChooseWindow32Collapse(5, 10);
    SignWindow78(-5, 5);
  }

  /** Over the whole `int` range the window is never inverted, at any size:
      a masked shift below 31 gives a positive `k`, and a shift of 31 gives
      `k == -k == int.MinValue`. */
  lemma ChooseWindowFullOrdered(size: i32)
    ensures var w := ChooseWindow32(size, -TWO31, TWO31 - 1); w.0 <= w.1
  {
    var k := ToI32(Pow2(ChooseExponent(size) % 32));
    ShiftSign(ChooseExponent(size) % 32);
    FullWindowOfShift(k);
  }

  lemma FullWindowOfShift(k: i32)
    requires k > 0 || k == -TWO31
    ensures Max(-TWO31, ToI32(-(k as int))) <= Min(TWO31 - 1, k)
  {
  }

  /** Up to size 77 the exponent is 30: the window is `[max(min, -2^30),
      min(max, 2^30)]`, for every such size. */
  lemma ChooseWindow32Small(size: i32, min: i32, max: i32)
    requires 0 <= size <= 77
    ensures ChooseExponent(size) == 30
    ensures ChooseWindow32(size, min, max) == (Max(min, -0x4000_0000), Min(max, 0x4000_0000))
  {
    assert 40 * size / 100 <= 30;
    Pow2Constants();
    assert Pow2(30) * 2 == TWO31;
  }

  /** At sizes 78 and 79 the exponent is 31, `1 << 31` is `int.MinValue`, and
      `-k` wraps back to it: the window is `[min, int.MinValue]`. */
  lemma ChooseWindow32Sign(size: i32, min: i32, max: i32)
    requires size == 78 || size == 79
    ensures ChooseExponent(size) == 31
    ensures ChooseWindow32(size, min, max) == (min, -TWO31)
  {
    if size == 78 {
      SignWindow78(min, max);
    } else {
      SignWindow79(min, max);
    }
  }

  lemma SignWindow78(min: i32, max: i32)
    ensures ChooseExponent(78) == 31
    ensures ChooseWindow32(78, min, max) == (min, -TWO31)
  {
    Pow2High();
    assert ToI32(TWO31) == -TWO31;
  }

  lemma SignWindow79(min: i32, max: i32)
    ensures ChooseExponent(79) == 31
    ensures ChooseWindow32(79, min, max) == (min, -TWO31)
  {
    Pow2High();
    assert ToI32(TWO31) == -TWO31;
  }

  /** From size 80 the masked shift count starts again at 0: size 80 gives
      the window `[max(min, -1), min(max, 1)]`. */
  lemma ChooseWindow32Collapse(min: i32, max: i32)
    ensures ChooseExponent(80) == 32
    ensures ChooseWindow32(80, min, max) == (Max(min, -1), Min(max, 1))
  {
  }

  /** `Choose(size, int, int)` with `Math.Min`, as in
      `RandomRangeSizeable.Range(size, int, int)`. */
  function ChooseSizedInt32Intended(r: SysRandom, p: nat, size: i32, min: i32, max: i32): (o: Outcome<Draw<i32>>)
    ensures min > max <==> o == Throw(Exception(ArgumentError, ORDER_MESSAGE))
    ensures var w := Window32(size, min, max);
      min <= max ==> (o.Ok? <==> w.0 <= w.1)
    ensures var w := Window32(size, min, max);
      min <= max && w.0 > w.1 ==> o.Throw? && o.error.kind == ArgumentOutOfRange
    ensures o.Ok? ==> var w := Window32(size, min, max);
      o.value.next == p + 1 && o.value.value == r.nextIn(p, w.0, w.1)
  {
    if min > max then Throw(Exception(ArgumentError, ORDER_MESSAGE))
    else
      var w := Window32(size, min, max);
      Choose(r, p, w.0, w.1)
  }

  /** With `Math.Min`, bounds around zero never make `Next` throw. */
  lemma ChooseIntendedAroundZero(r: SysRandom, p: nat, size: i32, min: i32, max: i32)
    requires SafeSize(size) && min <= 0 <= max
    ensures ChooseSizedInt32Intended(r, p, size, min, max).Ok?
  {
    Window32Inside(size, min, max);
  }

  /** With `Math.Min` the window widens with the size and stays inside the
      bounds, `[max(min, -2^n), min(max, 2^n)]` with `n = min(40*size/100, 30)`. */
  lemma ChooseWindowIntended(s1: i32, s2: i32, min: i32, max: i32)
    requires SafeSize(s1) && SafeSize(s2) && s1 <= s2 && min <= 0 <= max
    ensures var w := Window32(s1, min, max); min <= w.0 <= 0 <= w.1 <= max
    ensures Window32(s2, min, max).0 <= Window32(s1, min, max).0
    ensures Window32(s1, min, max).1 <= Window32(s2, min, max).1
  {
    Window32Inside(s1, min, max);
    Window32Monotone(s1, s2, min, max);
  }

  /** As written the window does not widen with the size: at size 77 the
      full-range window is `[-2^30, 2^30]`, at size 80 it is `[-1, 1]`. */
  lemma ChooseWindowShrinks()
    ensures ChooseWindow32(77, -TWO31, TWO31 - 1) == (-0x4000_0000, 0x4000_0000)
    ensures ChooseWindow32(80, -TWO31, TWO31 - 1) == (-1, 1)
  {
    ChooseWindow32Small(77, -TWO31, TWO31 - 1);
  }

  /** `Choose(size, long min, long max)`: refuses inverted bounds, then
      computes the same window as `RandomRangeSizeable.Range(size, long, long)`
      (with an identical `Bits`) and calls `Choose(kmin, kmax)`. */
  method ChooseSizedInt64(r: SysRandom, p: nat, size: i32, min: i64, max: i64)
    returns (o: Outcome<Draw<i64>>)
    ensures min > max ==> o == Throw(Exception(ArgumentError, ORDER_MESSAGE))
    ensures min <= max ==> var w := Window64(size, min, max);
      o == ChooseLong(r, p, w.0, w.1)
  {
    if min > max {
      return Throw(Exception(ArgumentError, ORDER_MESSAGE));
    }
    var kmin, kmax := Window64Of(size, min, max);
    o := ChooseLong(r, p, kmin, kmax);
  }
}
