/** The word source every sampler draws from, and the shapes derived from
    its words (src/QuickCheck/Random/Random.cs).

    A generator is seen through the infinite sequence of words it would
    produce, its tape, and the position of the next draw. Every operation
    takes the position and returns the position after its last draw, so the
    number and the order of draws are part of each contract. */
module Random {
  import opened Words

  type Tape = nat -> u32

  /** The value of a sampling operation and the position after it. */
  datatype Draw<T> = Draw(value: T, next: nat)

  /** From every position on, some word at an even offset has its top bit
      clear. The rejection loops of the range sampler always accept such a
      word, so on a fair tape they end. */
  ghost predicate Fair(t: Tape) {
    forall p: nat :: ClearAhead(t, p)
  }

  ghost predicate ClearAhead(t: Tape, p: nat) {
    exists k: nat :: HighClear(t, p, k)
  }

  ghost predicate HighClear(t: Tape, p: nat, k: nat) {
    t(p + 2 * k) < TWO31
  }

  /** `IRandom.UInt32()` */
  function UInt32(t: Tape, p: nat): (d: Draw<u32>)
    ensures d.next == p + 1 && d.value == t(p)
  {
    Draw(t(p), p + 1)
  }

  /** `hi << 32 | lo`, the first draw giving the high half. */
  function UInt64(t: Tape, p: nat): (d: Draw<u64>)
    ensures d.next == p + 2
    ensures d.value / TWO32 == t(p) && d.value % TWO32 == t(p + 1)
  {
    var hi := UInt32(t, p);
    var lo := UInt32(t, hi.next);
    Draw(hi.value * TWO32 + lo.value, lo.next)
  }

  /** `(Int64)UInt64()`: the two's-complement reading of a 64-bit draw. */
  function Int64(t: Tape, p: nat): (d: Draw<i64>)
    ensures d.next == p + 2
    ensures ToU64(d.value) == UInt64(t, p).value
  {
    var u := UInt64(t, p);
    ReinterpretU64(u.value);
    Draw(ToI64(u.value), u.next)
  }

  lemma ReinterpretU64(u: u64)
    ensures ToU64(ToI64(u)) == u
  {
  }

  lemma ReinterpretU32(u: u32)
    ensures ToU32(ToI32(u)) == u
  {
  }

  /** `(Int32)UInt32()` */
  function Int32(t: Tape, p: nat): (d: Draw<i32>)
    ensures d.next == p + 1
    ensures ToU32(d.value) == t(p)
  {
    ReinterpretU32(t(p));
    Draw(ToI32(t(p)), p + 1)
  }

  /** `(SByte)UInt32()`: the low 8 bits, signed; the full `sbyte` range is
      reachable, whatever the doc comment says. */
  function SByte(t: Tape, p: nat): (d: Draw<int>)
    ensures d.next == p + 1
    ensures -128 <= d.value < 128 && (d.value - t(p)) % TWO8 == 0
  {
    Draw(ToI8(t(p)), p + 1)
  }

  /** `(Int16)UInt32()`: the low 16 bits, signed. */
  function Int16(t: Tape, p: nat): (d: Draw<int>)
    ensures d.next == p + 1
    ensures -0x8000 <= d.value < 0x8000 && (d.value - t(p)) % TWO16 == 0
  {
    Draw(ToI16(t(p)), p + 1)
  }

  /** `(Byte)UInt32()`: the low 8 bits. */
  function Byte(t: Tape, p: nat): (d: Draw<int>)
    ensures d.next == p + 1
    ensures d.value == t(p) % TWO8
  {
    Draw(ToU8(t(p)), p + 1)
  }

  /** `(UInt16)UInt32()`: the low 16 bits. */
  function UInt16(t: Tape, p: nat): (d: Draw<int>)
    ensures d.next == p + 1
    ensures d.value == t(p) % TWO16
  {
    Draw(ToU16(t(p)), p + 1)
  }

  /** `(UInt32() & 1) != 0` */
  function Bool(t: Tape, p: nat): (d: Draw<bool>)
    ensures d.next == p + 1
    ensures d.value <==> t(p) % 2 == 1
  {
    var w: bv32 := t(p) as bv32;
    LowBit(t(p));
    Draw(w & 1 != 0, p + 1)
  }

  lemma LowBit(x: u32)
    ensures ((x as bv32) & 1 != 0) <==> x % 2 == 1
  {
    var w: bv32 := x as bv32;
    assert w & 1 == w % 2;
    assert (w % 2) as int == x % 2;
  }

  /** The word `Float()` converts: exactly one draw. */
  function FloatWord(t: Tape, p: nat): (d: Draw<u32>)
    ensures d.next == p + 1 && d.value == t(p)
  {
    UInt32(t, p)
  }

  /** The words `Double()` converts, `u` then `v`: exactly two draws. */
  function DoubleWords(t: Tape, p: nat): (d: Draw<(u32, u32)>)
    ensures d.next == p + 2 && d.value == (t(p), t(p + 1))
  {
    var u := UInt32(t, p);
    var v := UInt32(t, u.next);
    Draw((u.value, v.value), v.next)
  }
}
