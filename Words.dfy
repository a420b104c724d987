/** Machine integers of the .NET runtime, stated over mathematical integers.
    Every conversion the source performs implicitly (a cast, an unchecked
    overflow, a masked shift count) is written out here once. */
module Words {

  const TWO8: int := 0x100
  const TWO16: int := 0x1_0000
  const TWO31: int := 0x8000_0000
  const TWO32: int := 0x1_0000_0000
  const TWO63: int := 0x8000_0000_0000_0000
  const TWO64: int := 0x1_0000_0000_0000_0000

  type u32 = x: int | 0 <= x < TWO32
  type u64 = x: int | 0 <= x < TWO64
  type i32 = x: int | -TWO31 <= x < TWO31
  type i64 = x: int | -TWO63 <= x < TWO63

  /** 2^e */
  function Pow2(e: nat): (r: nat)
    ensures r >= 1
  {
    if e == 0 then 1 else 2 * Pow2(e - 1)
  }

  lemma {:induction false} Pow2Monotone(a: nat, b: nat)
    requires a <= b
    ensures Pow2(a) <= Pow2(b)
  {
    if a < b { Pow2Monotone(a, b - 1); }
  }

  lemma {:induction false} Pow2Add(a: nat, b: nat)
    ensures Pow2(a + b) == Pow2(a) * Pow2(b)
  {
    if b > 0 { Pow2Add(a, b - 1); }
  }

  lemma Pow2Constants()
    ensures Pow2(8) == TWO8 && Pow2(16) == TWO16 && Pow2(31) == TWO31
    ensures Pow2(32) == TWO32 && Pow2(63) == TWO63 && Pow2(64) == TWO64
  {
    Pow2Low();
    Pow2High();
  }

  lemma Pow2Low()
    ensures Pow2(8) == TWO8 && Pow2(15) == 0x8000 && Pow2(16) == TWO16
  {
    Pow2Add(8, 7);
    Pow2Add(8, 8);
  }

  lemma Pow2High()
    ensures Pow2(31) == TWO31 && Pow2(32) == TWO32 && Pow2(63) == TWO63 && Pow2(64) == TWO64
  {
    Pow2Low();
    Pow2Add(16, 15);
    Pow2Add(16, 16);
    Pow2Add(32, 31);
    Pow2Add(32, 32);
  }

  /** An unchecked `uint` cast: the low 32 bits of `x`. */
  function ToU32(x: int): (r: u32)
    ensures (r - x) % TWO32 == 0
    ensures 0 <= x < TWO32 ==> r == x
  {
    x % TWO32
  }

  /** An unchecked `ulong` cast: the low 64 bits of `x`. */
  function ToU64(x: int): (r: u64)
    ensures (r - x) % TWO64 == 0
    ensures 0 <= x < TWO64 ==> r == x
  {
    x % TWO64
  }

  /** An unchecked `int` cast: the low 32 bits of `x`, read as two's complement. */
  function ToI32(x: int): (r: i32)
    ensures (r - x) % TWO32 == 0
    ensures -TWO31 <= x < TWO31 ==> r == x
  {
    var u := x % TWO32;
    if u < TWO31 then u else u - TWO32
  }

  /** An unchecked `long` cast: the low 64 bits of `x`, read as two's complement. */
  function ToI64(x: int): (r: i64)
    ensures (r - x) % TWO64 == 0
    ensures -TWO63 <= x < TWO63 ==> r == x
  {
    var u := x % TWO64;
    if u < TWO63 then u else u - TWO64
  }

  /** Unchecked narrowing casts to `sbyte`, `short`, `byte` and `ushort`. */
  function ToI8(x: int): (r: int)
    ensures -128 <= r < 128 && (r - x) % TWO8 == 0
    ensures -128 <= x < 128 ==> r == x
  {
    var u := x % TWO8;
    if u < 128 then u else u - TWO8
  }

  function ToI16(x: int): (r: int)
    ensures -0x8000 <= r < 0x8000 && (r - x) % TWO16 == 0
    ensures -0x8000 <= x < 0x8000 ==> r == x
  {
    var u := x % TWO16;
    if u < 0x8000 then u else u - TWO16
  }

  function ToU8(x: int): (r: int)
    ensures 0 <= r < TWO8 && (r - x) % TWO8 == 0
    ensures 0 <= x < TWO8 ==> r == x
  {
    x % TWO8
  }

  function ToU16(x: int): (r: int)
    ensures 0 <= r < TWO16 && (r - x) % TWO16 == 0
    ensures 0 <= x < TWO16 ==> r == x
  {
    x % TWO16
  }

  /** C# `/` on integers truncates toward zero. */
  function TruncDiv(a: int, b: int): (r: int)
    requires b > 0
    ensures a >= 0 ==> r == a / b
    ensures a < 0 ==> r == -((-a) / b)
  {
    if a >= 0 then a / b else -((-a) / b)
  }

  /** C# `%` on integers takes the sign of the dividend. */
  function TruncRem(a: int, b: int): (r: int)
    requires b != 0
    ensures a >= 0 ==> 0 <= r < (if b > 0 then b else -b)
    ensures a == TruncQuot(a, b) * b + r
  {
    a - TruncQuot(a, b) * b
  }

  function TruncQuot(a: int, b: int): int
    requires b != 0
  {
    var q := (if a >= 0 then a else -a) / (if b >= 0 then b else -b);
    if (a >= 0) == (b > 0) then q else -q
  }

  function Min(a: int, b: int): (r: int)
    ensures r <= a && r <= b && (r == a || r == b)
  {
    if a < b then a else b
  }

  function Max(a: int, b: int): (r: int)
    ensures r >= a && r >= b && (r == a || r == b)
  {
    if a < b then b else a
  }

  /** The bitwise or of the low `k` bits of `a` and `b`, bit by bit from
      the lowest. */
  function OrBits(a: nat, b: nat, k: nat): (r: nat)
    ensures r < Pow2(k)
  {
    if k == 0 then 0
    else (if a % 2 == 1 || b % 2 == 1 then 1 else 0) + 2 * OrBits(a / 2, b / 2, k - 1)
  }

  /** The bitwise exclusive or of the low `k` bits of `a` and `b`. */
  function XorBits(a: nat, b: nat, k: nat): (r: nat)
    ensures r < Pow2(k)
  {
    if k == 0 then 0
    else (if a % 2 != b % 2 then 1 else 0) + 2 * XorBits(a / 2, b / 2, k - 1)
  }

  /** 32-bit bitwise operations on unsigned words. */
  function Or32(a: u32, b: u32): (r: u32)
  {
    Pow2Constants();
    OrBits(a, b, 32)
  }

  function Xor32(a: u32, b: u32): (r: u32)
  {
    Pow2Constants();
    XorBits(a, b, 32)
  }

  /** 64-bit bitwise or: it acts on the high and the low 32-bit halves
      separately. */
  function Or64(a: u64, b: u64): (r: u64)
    ensures r / TWO32 == Or32(a / TWO32, b / TWO32)
    ensures r % TWO32 == Or32(a % TWO32, b % TWO32)
  {
    Or32(a / TWO32, b / TWO32) * TWO32 + Or32(a % TWO32, b % TWO32)
  }

  /** A word or-ed into a value whose low word is clear lands there unchanged. */
  lemma Or64Disjoint(hi: u64, l: u32)
    requires hi % TWO32 == 0
    ensures Or64(hi, l) == hi + l
  {
    OrZero(hi / TWO32);
    OrZero(l);
    assert l / TWO32 == 0 && l % TWO32 == l;
    assert hi == hi / TWO32 * TWO32;
  }

  lemma OrZero(a: u32)
    ensures Or32(a, 0) == a && Or32(0, a) == a
  {
    Pow2Constants();
    OrBitsZero(a, 32);
  }

  /** Or with zero keeps the low `k` bits. */
  lemma {:induction false} OrBitsZero(a: nat, k: nat)
    requires a < Pow2(k)
    ensures OrBits(a, 0, k) == a && OrBits(0, a, k) == a
  {
    if k > 0 {
      OrBitsZero(a / 2, k - 1);
    }
  }

  /** Or with a word that has a bit set has that bit set too. */
  lemma {:induction false} OrBitsNonzero(a: nat, b: nat, k: nat)
    requires 0 < a < Pow2(k)
    ensures OrBits(a, b, k) != 0
  {
    if a % 2 == 0 {
      OrBitsNonzero(a / 2, b / 2, k - 1);
    }
  }

  /** `x << count` on a `uint`: the runtime keeps only the low five bits of
      the count, and the product is cut to 32 bits. */
  function ShlU32(x: u32, count: int): (r: u32)
    ensures count % 32 == 0 ==> r == x
  {
    ToU32(x * Pow2(count % 32))
  }

  /** Signed 32-bit xor: both operands and the result in two's complement. */
  function XorI32(a: i32, b: i32): (r: i32)
  {
    ToI32(Xor32(ToU32(a), ToU32(b)))
  }

  lemma DivInBucket(x: int, b: nat, k: int)
    requires b > 0 && k * b <= x < (k + 1) * b
    ensures x / b == k
  {
    var q := x / b;
    assert x == q * b + x % b;
    if q < k {
      MulMono(q + 1, k, b);
    }
  }

  lemma DivMono(a: int, b: int, d: int)
    requires a <= b && d > 0
    ensures a / d <= b / d
  {
    assert a == (a / d) * d + a % d;
    assert b == (b / d) * d + b % d;
    if a / d > b / d {
      MulMono(b / d + 1, a / d, d);
    }
  }

  lemma MulMono(a: int, c: int, b: nat)
    requires a <= c
    ensures a * b <= c * b
  {
  }

}
