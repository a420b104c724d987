# QuickCheck.NET core, modelled in Dafny

This project models the deterministic core of QuickCheck.NET, a property-based
testing library for .NET. The library draws pseudo-random 32-bit words, shapes
them into integers of every width, and scales them by a "size". It looks up a
generator for each argument type in a registry keyed by type shape. It runs a
property on up to 250 generated argument sets and reports the first failure
with the seed and size that replay it. It also renders values as `Data` trees.

The model is organised as follows:

- `Words`: machine integers. The subset types `u32`, `u64`, `i32` and `i64` have explicit wrap-around casts. There is C#'s truncating division and remainder, and a bitwise or. A shift count is masked to 5 bits (32-bit) or 6 bits (64-bit), as C# does.
- `Outcomes`: `Outcome<T> = Ok(value) | Throw(error)`. It stands for C# code that returns normally or throws.
- `Random`: the word shapes of `Random.cs`. A word source (`IRandom`) is an infinite tape of words plus a position.
  - Every shape returns its value and the position after its draws, so the number and order of the draws are stated.
- `RandomRange`: the unbiased inclusive-range sampler. Its `while (true)` rejection loop is a method. The method is proved against a ghost function that names the first accepted draw. The rejection loop terminates only if the source keeps producing acceptable words, so the sampler requires `Fair(tape)`: a word with its top bit clear appears infinitely often.
- `RangeSizeable` and `Sizeable`: the size-scaled windows and the `Bits` bit-length cascade. `Bits` is a method that shifts step by step, proved equal to a recursive `BitLen`.
- `Mwc` and `MwcFactory`: Marsaglia's multiply-with-carry generator. It is a class with two lane fields, updated in place.
- `MersenneTwister` and `MersenneTwisterFactory`: MT19937 as a class over a 624-word `array` and an index. The initialisation loop and the three twist loops work in place on the array.
- `Generator` and `Generators`: the older generator API over `System.Random`, and the built-in argument generators.
- `Registry`: `GeneratorContainer`, and the identical static registry of `Quick` (src/QuickCheck/Quick.cs:24-125 repeats the container's members line for line, so the rows below cite only the container). It is a class with the two dictionaries as `map` fields.
- `Text`: C#'s decimal rendering of integers, with its parse inverse.
- `Results`: `TestArgs` rendering, `TestResult`, `Result` and the failure message.
- `Runner`: `TestableAction.RunTest`, the `Quick.Test` trial loop, `Replay` and `Check`.
- `Data`, `Sequence`, `Diff` and `ReflectionData`: the structural value model. This covers rendering into a `StringBuilder` class, equality, hashing, the field partition of the object diff, and converting an acyclic object graph into a `Data` tree.

Several inputs are abstract:

- The property under test is a function returning no exception or an exception.
- The generator of a type is a function from a source and a size to a value and a new source.
- `Reflection.Show` is a parameter `show`.
- `Data.Diff` is a parameter `diff`.
- Primitive and string hash codes are parameters `ph` and `sh`.
- The machine clock that seeds a fresh `MwcRandom` is a pair of words passed in.
- The `System.Random` behind `Generator` is a tape of `Next()` results, together with an uninterpreted `Next(min, max)` that throws `ArgumentOutOfRangeException` when `min > max`.
- `Quick`'s fresh-seed source is a function `issued` from trial number to generator and recorded seed. Its replay is a function `replay` from a seed to a generator.

## Model

| member | source | states |
|---|---|---|
| Random.UInt64 | src/QuickCheck/Random/Random.cs:65-70 | consumes exactly two words; the first is the high 32 bits of the result and the second the low 32 bits |
| Random.Int64 | src/QuickCheck/Random/Random.cs:38-41 | consumes two words; the result is the two's-complement reading of `UInt64` over the same two words |
| Random.ReinterpretU64 | src/QuickCheck/Random/Random.cs:38-41 | reading a 64-bit word as signed loses nothing: read back as unsigned it is the original word |
| Random.Int32 | src/QuickCheck/Random/Random.cs:29-32 | consumes one word; the result is that word read as signed |
| Random.ReinterpretU32 | src/QuickCheck/Random/Random.cs:29-32 | the 32-bit signed reading is lossless |
| Random.SByte | src/QuickCheck/Random/Random.cs:11-14 | consumes one word; the result lies in [-128, 127] and agrees with the word modulo 2^8 (truncation, not the documented range) |
| Random.Int16 | src/QuickCheck/Random/Random.cs:20-23 | consumes one word; the result lies in [-2^15, 2^15) and agrees with the word modulo 2^16 |
| Random.Byte | src/QuickCheck/Random/Random.cs:47-50 | consumes one word; the result is its low 8 bits |
| Random.UInt16 | src/QuickCheck/Random/Random.cs:56-59 | consumes one word; the result is its low 16 bits |
| Random.Bool | src/QuickCheck/Random/Random.cs:76-79 | consumes one word; true exactly when the word's low bit is 1 |
| Random.LowBit | src/QuickCheck/Random/Random.cs:76-79 | masking a word with 1 gives nonzero exactly when the word is odd |
| Random.FloatWord | src/QuickCheck/Random/Random.cs:90-94 | `Float` consumes exactly one word, which it hands to the conversion |
| Random.DoubleWords | src/QuickCheck/Random/Random.cs:105-110 | `Double` consumes exactly two words, in draw order |
| RandomRange.Reject | src/QuickCheck/Random/RandomRange.cs:61-69 | the rejection loop returns a raw draw below the acceptance limit, namely the first such draw, and leaves the source just past it |
| RandomRange.AcceptExists | src/QuickCheck/Random/RandomRange.cs:61-69 | on a fair source some draw is accepted, so the loop ends |
| RandomRange.FirstBelowUnique | src/QuickCheck/Random/RandomRange.cs:61-69 | the draw the loop accepts is determined uniquely |
| RandomRange.LeastBelow | src/QuickCheck/Random/RandomRange.cs:61-69 | any draw below the limit has a first accepted draw at or before it |
| RandomRange.Accept | src/QuickCheck/Random/RandomRange.cs:61-69 | names the index of the first accepted draw |
| RandomRange.AcceptLimit | src/QuickCheck/Random/RandomRange.cs:58-59 | `buckets * n` never exceeds `MaxValue`, and it is at least half the word range, so every draw is accepted with probability above one half |
| RandomRange.Unbiased | src/QuickCheck/Random/RandomRange.cs:58-68 | each offset k in [0, n) is hit by exactly `buckets` accepted raw words, the interval [k·buckets, (k+1)·buckets) |
| RandomRange.IntervalSize | src/QuickCheck/Random/RandomRange.cs:58-68 | the integer interval [a, b) has b − a members (the counting step of `Unbiased`) |
| RandomRange.OffsetBelowSpan | src/QuickCheck/Random/RandomRange.cs:65-67 | an accepted word divided by `buckets` is at most n − 1 |
| RandomRange.Offset | src/QuickCheck/Random/RandomRange.cs:58-68 | the offset drawn for a span n is below n |
| RandomRange.Sample | src/QuickCheck/Random/RandomRange.cs:58-69 | the loop computes `Offset` and consumes at least one 32-bit or 64-bit draw |
| RandomRange.Sub32Exact | src/QuickCheck/Random/RandomRange.cs:72-75 | unsigned wrap-around `Sub(j, i)` is the exact difference j − i when i ≤ j |
| RandomRange.Add32Exact | src/QuickCheck/Random/RandomRange.cs:77-80 | `Add(i, d)` with d ≤ j − i is i + d, with no overflow |
| RandomRange.Span32Wraps | src/QuickCheck/Random/RandomRange.cs:49-56 | the span `1 + Sub(j, i)` wraps to 0 exactly for the full `Int32` range, and is j − i + 1 otherwise |
| RandomRange.Int32Range | src/QuickCheck/Random/RandomRange.cs:34-70 | the method (swap, full-range shortcut, rejection loop) draws exactly what `RangeInt32` specifies |
| RandomRange.RangeInt32Bounds | src/QuickCheck/Random/RandomRange.cs:34-69 | the result lies in [min(x1, x2), max(x1, x2)] and at least one word is drawn |
| RandomRange.RangeInt32Symmetric | src/QuickCheck/Random/RandomRange.cs:38-47 | swapping the bounds changes neither the result nor the draws (bounds are swapped, never rejected) |
| RandomRange.RangeInt32Full | src/QuickCheck/Random/RandomRange.cs:51-56 | over the full range the result is exactly one raw draw read as signed |
| RandomRange.UInt32Range | src/QuickCheck/Random/RandomRange.cs:156-192 | the method draws exactly what `RangeUInt32` specifies |
| RandomRange.RangeUInt32Bounds | src/QuickCheck/Random/RandomRange.cs:156-191 | the result lies in [min(x1, x2), max(x1, x2)] and at least one word is drawn |
| RandomRange.RangeUInt32Symmetric | src/QuickCheck/Random/RandomRange.cs:160-169 | the order of the bounds does not matter |
| RandomRange.RangeUInt32Full | src/QuickCheck/Random/RandomRange.cs:171-178 | over the full range the result is exactly one raw draw |
| RandomRange.Sub64Exact | src/QuickCheck/Random/RandomRange.cs:124-127 | 64-bit `Sub(j, i)` is exact when i ≤ j |
| RandomRange.Add64Exact | src/QuickCheck/Random/RandomRange.cs:129-132 | 64-bit `Add(i, d)` with d ≤ j − i is i + d |
| RandomRange.Span64Wraps | src/QuickCheck/Random/RandomRange.cs:101-108 | the 64-bit span wraps to 0 exactly for the full `Int64` range |
| RandomRange.Int64Range | src/QuickCheck/Random/RandomRange.cs:86-122 | the method draws exactly what `RangeInt64` specifies, using `UInt64` draws of two words each |
| RandomRange.RangeInt64Bounds | src/QuickCheck/Random/RandomRange.cs:86-121 | the result lies in [min(x1, x2), max(x1, x2)] and at least two words are drawn |
| RandomRange.RangeInt64Symmetric | src/QuickCheck/Random/RandomRange.cs:90-99 | the order of the bounds does not matter |
| RandomRange.RangeInt64Full | src/QuickCheck/Random/RandomRange.cs:103-108 | over the full range the result is `Int64` of the source |
| RandomRange.UInt64Range | src/QuickCheck/Random/RandomRange.cs:198-234 | the method draws exactly what `RangeUInt64` specifies |
| RandomRange.RangeUInt64Bounds | src/QuickCheck/Random/RandomRange.cs:198-233 | the result lies in [min(x1, x2), max(x1, x2)] and at least two words are drawn |
| RandomRange.RangeUInt64Symmetric | src/QuickCheck/Random/RandomRange.cs:202-211 | the order of the bounds does not matter |
| RandomRange.RangeUInt64Full | src/QuickCheck/Random/RandomRange.cs:213-220 | over the full range the result is `UInt64` of the source |
| RandomRange.SByteRange | src/QuickCheck/Random/RandomRange.cs:16-19 | goes through the `Int32` sampler; its result stays between the bounds, so the narrowing cast back is lossless |
| RandomRange.Int16Range | src/QuickCheck/Random/RandomRange.cs:25-28 | goes through the `Int32` sampler; within the bounds, cast lossless |
| RandomRange.ByteRange | src/QuickCheck/Random/RandomRange.cs:138-141 | goes through the `UInt32` sampler; within the bounds, cast lossless |
| RandomRange.UInt16Range | src/QuickCheck/Random/RandomRange.cs:147-150 | goes through the `UInt32` sampler; within the bounds, cast lossless |
| RandomRange.BoolRange | src/QuickCheck/Random/RandomRange.cs:243-246 | equal bounds return `x1` without a draw; otherwise exactly one draw, and its low bit decides |
| RangeSizeable.BitLenBounds | src/QuickCheck/Random/RandomRangeSizeable.cs:138-152 | every n is below 2^Bits(n), and for n > 0, 2^(Bits(n)−1) ≤ n |
| RangeSizeable.BitLenFacts | src/QuickCheck/Random/RandomRangeSizeable.cs:138-152 | `Bits(0) = Bits(1) = 1`, `Bits(2^63) = 64` and `Bits(2^31) = 32` |
| RangeSizeable.BitLenOfPow2 | src/QuickCheck/Random/RandomRangeSizeable.cs:138-152 | a power 2^e needs e + 1 bits |
| RangeSizeable.BitLenAtMost | src/QuickCheck/Random/RandomRangeSizeable.cs:138-152 | a number below 2^e needs at most e bits |
| RangeSizeable.BitLenShift | src/QuickCheck/Random/RandomRangeSizeable.cs:142-147 | a shift by s of a number of at least 2^s removes exactly s bits (the step each `if` of the cascade takes) |
| RangeSizeable.Cascade | src/QuickCheck/Random/RandomRangeSizeable.cs:142-146 | one `if (n >> s != 0) { bits += s; n >>= s; }` step keeps `bits + BitLen(n)` unchanged and leaves n below 2^s |
| RangeSizeable.ShiftFacts | src/QuickCheck/Random/RandomRangeSizeable.cs:142-146 | for n below 2^(2s), a non-zero `n >> s` carries all but s of the bits of n and is itself below 2^s; a zero one means n is below 2^s |
| RangeSizeable.BitsU64 | src/QuickCheck/Random/RandomRangeSizeable.cs:138-152 | the shift cascade returns exactly the bit length of its argument |
| RangeSizeable.Magnitude | src/QuickCheck/Random/RandomRangeSizeable.cs:133-136 | `(ulong)(n < 0 ? -n : n)` is the exact magnitude, including 2^63 for `long.MinValue` (the negation wraps and the cast undoes it) |
| RangeSizeable.BitsI64 | src/QuickCheck/Random/RandomRangeSizeable.cs:133-136 | `Bits(long)` is the bit length of the magnitude |
| RangeSizeable.WidthOf | src/QuickCheck/Random/RandomRangeSizeable.cs:44 | `p = Math.Max(Bits(min), Math.Max(Bits(max), 40))` is never below 40 |
| RangeSizeable.Width32 | src/QuickCheck/Random/RandomRangeSizeable.cs:42-44 | for 32-bit bounds p is always 40 |
| RangeSizeable.ExponentSafe | src/QuickCheck/Random/RandomRangeSizeable.cs:45 | for 0 ≤ size < 2^25 the `int` product `p * size` does not wrap, and n = min(p·size/100, cap) lies in [0, cap] |
| RangeSizeable.ExponentMonotone | src/QuickCheck/Random/RandomRangeSizeable.cs:45 | for fixed bounds, n does not decrease as the size grows |
| RangeSizeable.ShiftExact | src/QuickCheck/Random/RandomRangeSizeable.cs:47 | for n ≤ 30, `1 << n` is 2^n in `int` and `uint`; for n ≤ 62, `1L << n` is 2^n, so the shift never overflows |
| RangeSizeable.Window32Exact | src/QuickCheck/Random/RandomRangeSizeable.cs:42-49 | the 32-bit window is [max(min, −2^n), min(max, 2^n)] with n = min(40·size/100, 30) |
| RangeSizeable.Window32Clamp | src/QuickCheck/Random/RandomRangeSizeable.cs:42-49 | the exponent of the 32-bit window lies in [0, 30] and the window is the bounds clipped to [−2^n, 2^n] |
| RangeSizeable.Window32Of | src/QuickCheck/Random/RandomRangeSizeable.cs:42-49 | the statement sequence, `Bits` calls included, computes `Window32` |
| RangeSizeable.SizedInt32Range | src/QuickCheck/Random/RandomRangeSizeable.cs:27-52 | orders the bounds, then samples `Window32` of the ordered bounds with the unbiased sampler |
| RangeSizeable.Window32Inside | src/QuickCheck/Random/RandomRangeSizeable.cs:47-51 | if min ≤ 0 ≤ max the window lies inside [min, max] and contains 0 |
| RangeSizeable.Window32Within | src/QuickCheck/Random/RandomRangeSizeable.cs:7-25 | if the bounds lie inside a narrow type's bounds, and those contain 0, so does the window (the narrowing casts are lossless) |
| RangeSizeable.Window32Monotone | src/QuickCheck/Random/RandomRangeSizeable.cs:45-49 | for fixed bounds, the window only widens as the size grows |
| RangeSizeable.Window32Escapes | src/QuickCheck/Random/RandomRangeSizeable.cs:47-51 | at size 1 the bounds 1000..2000 give the inverted window (1000, 1) |
| RangeSizeable.SizedInt32Escapes | src/QuickCheck/Random/RandomRangeSizeable.cs:47-51 | the sampler swaps that window, so the value of `Range(1, 1000, 2000)` lies in [1, 1000]: every possible value but 1000 is below the requested minimum |
| RangeSizeable.Window32BoundedInside | src/QuickCheck/Random/RandomRangeSizeable.cs:47-51 | the window with both ends clamped into the bounds is ordered and inside them at every size, and equals the window as written whenever that one is ordered |
| RangeSizeable.SizedInt32Bounded | src/QuickCheck/Random/RandomRangeSizeable.cs:47-51 | sampling from the clamped window always gives a value within the requested bounds |
| RangeSizeable.Window32Ends | src/QuickCheck/Random/RandomRangeSizeable.cs:47-49 | the window is the bounds cut at `-k` and `k`, with `-k <= k` even when `1 << n` reaches the sign bit |
| RangeSizeable.ShiftSign | src/QuickCheck/Random/RandomRangeSizeable.cs:47 | `1 << s` for a masked count is positive below 31 and `int.MinValue` at 31 |
| RangeSizeable.WindowU32Exact | src/QuickCheck/Random/RandomRangeSizeable.cs:69-75 | the unsigned 32-bit window is [min, min(max, 2^n)] with n = min(40·size/100, 30) |
| RangeSizeable.WindowU32Of | src/QuickCheck/Random/RandomRangeSizeable.cs:69-75 | the statement sequence computes `WindowU32` |
| RangeSizeable.SizedUInt32Range | src/QuickCheck/Random/RandomRangeSizeable.cs:54-78 | orders the bounds and samples `WindowU32` of them |
| RangeSizeable.WindowU32Inside | src/QuickCheck/Random/RandomRangeSizeable.cs:74-77 | if min ≤ 2^n the window is [min, min(max, 2^n)] ⊆ [min, max] |
| RangeSizeable.Width64 | src/QuickCheck/Random/RandomRangeSizeable.cs:95-97 | for 64-bit bounds p is at most 64 |
| RangeSizeable.Window64Exact | src/QuickCheck/Random/RandomRangeSizeable.cs:95-102 | the 64-bit window is [max(min, −2^n), min(max, 2^n)] with n = min(p·size/100, 62) |
| RangeSizeable.Window64Clamp | src/QuickCheck/Random/RandomRangeSizeable.cs:95-102 | the exponent of the 64-bit window lies in [0, 62] and the window is the bounds clipped to [−2^n, 2^n] |
| RangeSizeable.Window64Of | src/QuickCheck/Random/RandomRangeSizeable.cs:95-102 | the statement sequence computes `Window64` |
| RangeSizeable.SizedInt64Range | src/QuickCheck/Random/RandomRangeSizeable.cs:80-105 | orders the bounds and samples `Window64` of them |
| RangeSizeable.Window64Inside | src/QuickCheck/Random/RandomRangeSizeable.cs:100-104 | if min ≤ 0 ≤ max the window lies inside [min, max] and contains 0 |
| RangeSizeable.Window64Monotone | src/QuickCheck/Random/RandomRangeSizeable.cs:98-102 | the 64-bit window only widens as the size grows |
| RangeSizeable.WindowU64Exact | src/QuickCheck/Random/RandomRangeSizeable.cs:122-128 | the unsigned 64-bit window is [min, min(max, 2^n)] with n = min(p·size/100, 62) |
| RangeSizeable.WindowU64Of | src/QuickCheck/Random/RandomRangeSizeable.cs:122-128 | the statement sequence computes `WindowU64` |
| RangeSizeable.SizedUInt64Range | src/QuickCheck/Random/RandomRangeSizeable.cs:107-131 | orders the bounds and samples `WindowU64` of them |
| RangeSizeable.WindowU64Inside | src/QuickCheck/Random/RandomRangeSizeable.cs:127-130 | if min ≤ 2^n the window is [min, min(max, 2^n)] ⊆ [min, max] |
| RangeSizeable.SizedSByteRange | src/QuickCheck/Random/RandomRangeSizeable.cs:7-10 | goes through the `int` sized range; the result stays within `sbyte` |
| RangeSizeable.SizedByteRange | src/QuickCheck/Random/RandomRangeSizeable.cs:12-15 | goes through the `int` sized range; the result stays within `byte` |
| RangeSizeable.SizedInt16Range | src/QuickCheck/Random/RandomRangeSizeable.cs:17-20 | goes through the `int` sized range; the result stays within `short` |
| RangeSizeable.SizedUInt16Range | src/QuickCheck/Random/RandomRangeSizeable.cs:22-25 | goes through the `int` sized range; the result stays within `ushort` |
| Sizeable.BitLenExact | src/QuickCheck/Random/RandomRangeSizeable.cs:138-152 | `Bits(m)` is e exactly when 2^(e−1) ≤ m < 2^e |
| Sizeable.Width64Full | src/QuickCheck/Random/RandomSizeable.cs:20-23 | over the full `long` or `ulong` range p is 64, because `Bits(long.MinValue) = Bits(ulong.MaxValue) = 64` |
| Sizeable.Int32 | src/QuickCheck/Random/RandomSizeable.cs:15-18 | the sized range over the whole `int` type; for safe sizes the result lies in [−2^n, 2^n] with n = min(40·size/100, 30) |
| Sizeable.Int32Bound | src/QuickCheck/Random/RandomSizeable.cs:15-18 | the bound of `Int32(size)` as a lemma about the specification |
| Sizeable.Int32WindowEnds | src/QuickCheck/Random/RandomSizeable.cs:15-18 | size 1 samples [−1, 1] and size 100 samples [−2^30, 2^30] |
| Sizeable.Window32Full | src/QuickCheck/Random/RandomSizeable.cs:15-18 | over the full `int` range the window at any size is the symmetric [−2^n, 2^n] with n = min(40·size/100, 30) |
| Sizeable.Int64 | src/QuickCheck/Random/RandomSizeable.cs:20-23 | the sized range over the whole `long` type; for safe sizes the result lies in [−2^n, 2^n] with n = min(64·size/100, 62) |
| Sizeable.Int64Bound | src/QuickCheck/Random/RandomSizeable.cs:20-23 | the bound of `Int64(size)` as a lemma about the specification |
| Sizeable.UInt32 | src/QuickCheck/Random/RandomSizeable.cs:35-38 | the sized range over `uint`; for safe sizes the result is at most 2^min(40·size/100, 30) |
| Sizeable.UInt64 | src/QuickCheck/Random/RandomSizeable.cs:40-43 | the sized range over `ulong`; for safe sizes the result is at most 2^min(64·size/100, 62) |
| Sizeable.SByte | src/QuickCheck/Random/RandomSizeable.cs:5-8 | the result stays within `sbyte`; it uses exactly the draws of the 32-bit sampler over the sized window of the type's bounds, and is that sample up to 2^8 (equal to it for sizes in [0, 2^25)) |
| Sizeable.Int16 | src/QuickCheck/Random/RandomSizeable.cs:10-13 | the result stays within `short`; it uses exactly the draws of the 32-bit sampler over the sized window of the type's bounds, and is that sample up to 2^16 (equal to it for sizes in [0, 2^25)) |
| Sizeable.Byte | src/QuickCheck/Random/RandomSizeable.cs:25-28 | the result stays within `byte`; it uses exactly the draws of the 32-bit sampler over the sized window of the type's bounds, and is that sample up to 2^8 (equal to it for sizes in [0, 2^25)) |
| Sizeable.UInt16 | src/QuickCheck/Random/RandomSizeable.cs:30-33 | the result stays within `ushort`; it uses exactly the draws of the 32-bit sampler over the sized window of the type's bounds, and is that sample up to 2^16 (equal to it for sizes in [0, 2^25)) |
| Sizeable.FloatFraction | src/QuickCheck/Random/RandomSizeable.cs:45-55 | the numerator is drawn first, in [−size·9999999, size·9999999], and then the denominator, in [1, 9999999]; together they take at least four words |
| Sizeable.FloatBoundsExact | src/QuickCheck/Random/RandomSizeable.cs:49-50 | for every `int` size the `long` products ±size·9999999 do not wrap |
| Sizeable.DoubleFraction | src/QuickCheck/Random/RandomSizeable.cs:57-67 | numerator first, in [−size·9999999999999, size·9999999999999] for sizes up to 922337, then the denominator in [1, 9999999999999] |
| Sizeable.DoubleBoundsExact | src/QuickCheck/Random/RandomSizeable.cs:61-62 | for sizes up to 922337 the `long` products do not wrap |
| Sizeable.DoubleNumeratorWraps | src/QuickCheck/Random/RandomSizeable.cs:61-62 | size 922338 is the first size whose numerator bound wraps |
| Mwc.LaneStep | src/QuickCheck/Random/Implementations/MwcRandom.cs:55-56 | a lane update `mul * (s & 65535) + (s >> 16)` fits in 32 bits with no wrap-around, and a nonzero lane stays nonzero |
| Mwc.Output | src/QuickCheck/Random/Implementations/MwcRandom.cs:58 | the output is (lane1 + lane2·2^16) mod 2^32 |
| Mwc.Step | src/QuickCheck/Random/Implementations/MwcRandom.cs:55-56 | a state with both lanes nonzero keeps both lanes nonzero |
| Mwc.IterateNonzero | src/QuickCheck/Random/Implementations/MwcRandom.cs:55-56 | after any number of draws, both lanes are still nonzero |
| Mwc.StreamAt | src/QuickCheck/Random/Implementations/MwcRandom.cs:49-59 | the i-th word of a stream is the output of the lanes after i + 1 updates, so each output comes from the updated lanes |
| Mwc.InitialLanes | src/QuickCheck/Random/Implementations/MwcRandom.cs:43-47 | a zero lane is replaced by 521288629 or 362436069, so both lanes are nonzero after construction |
| Mwc.LanesOfSeed | src/QuickCheck/Random/Implementations/MwcRandom.cs:38-41 | the `ulong` constructor puts the low 32 bits into lane 1 and the high 32 bits into lane 2, each replaced by its default when zero |
| Mwc.SeedIsLaneOr | src/QuickCheck/Random/Implementations/MwcRandom.cs:25-31 | `Seed` is the bitwise or of the two lanes, below 2^32: the shift count 32 of a `uint` is masked to 0, so nothing is packed |
| Mwc.LanesOfSmallSeed | src/QuickCheck/Random/Implementations/MwcRandom.cs:38-41 | a nonzero seed below 2^32 gives lanes (seed, 362436069) |
| Mwc.ReplayLanes | src/QuickCheck/Random/Implementations/MwcFactory.cs:5-15 | replaying the recorded seed gives lanes (the or of both lanes, 362436069) |
| Mwc.ReplayRecreatesIff | src/QuickCheck/Random/IRandomFactory.cs:5-14 | the passed-back seed recreates the generator exactly when lane2 is 362436069 and its bits are a subset of lane1's |
| Mwc.ReplayCounterexample | src/QuickCheck/Random/Implementations/MwcRandom.cs:25-31 | lanes (1, 2) record seed 3, and replaying seed 3 gives lanes (3, 362436069) |
| Mwc.PackedSeed | src/QuickCheck/Random/Implementations/MwcRandom.cs:25-31 | the intended seed, lane 2 shifted left by 32 bits as a `ulong` and or-ed with lane 1, has lane 1 as its low word and lane 2 as its high word |
| Mwc.PackedSeedRecreates | src/QuickCheck/Random/IRandomFactory.cs:5-14 | the packed seed of any nonzero lanes fed to the `ulong` constructor gives back the same lanes |
| Mwc.MwcRandom.FromLanes | src/QuickCheck/Random/Implementations/MwcRandom.cs:43-47 | the new generator's lanes are `InitialLanes(seed1, seed2)` |
| Mwc.MwcRandom.FromSeed | src/QuickCheck/Random/Implementations/MwcRandom.cs:38-41 | the new generator's lanes are `LanesOfSeed(seed)` |
| Mwc.MwcRandom.Seed | src/QuickCheck/Random/Implementations/MwcRandom.cs:25-31 | the getter is the or of the current lanes |
| Mwc.MwcRandom.UInt32 | src/QuickCheck/Random/Implementations/MwcRandom.cs:49-59 | updates both lanes in place by one `Step` and returns the output of the updated lanes |
| Mwc.DrawMany | src/QuickCheck/Random/Implementations/MwcRandom.cs:49-59 | k calls return `Stream` of the starting lanes and leave the lanes advanced by k steps |
| Mwc.SameLanesSameStream | src/QuickCheck/Random/Implementations/MwcRandom.cs:43-59 | two generators built from the same lane seeds produce identical output sequences |
| MwcFactory.NewRandomFresh | src/QuickCheck/Random/Implementations/MwcFactory.cs:5-10 | returns a fresh generator and records `Seed` before any draw: the or of the initial lanes |
| MwcFactory.NewRandom | src/QuickCheck/Random/Implementations/MwcFactory.cs:12-15 | returns a fresh generator whose lanes are those of `new MwcRandom(seed)` |
| MwcFactory.SameSeedSameStream | src/QuickCheck/Random/Implementations/MwcFactory.cs:12-15 | two calls with the same seed yield separate generators with identical streams |
| MwcFactory.NewRandomFreshPacked | src/QuickCheck/Random/Implementations/MwcFactory.cs:5-10 | the corrected fresh path records the packed seed of the initial lanes |
| MwcFactory.FreshThenReplayPacked | src/QuickCheck/Random/IRandomFactory.cs:5-14 | with the packed seed, a replayed generator draws exactly the fresh generator's stream |
| MersenneTwister.InitPrefix | src/QuickCheck/Random/Implementations/MersenneTwisterRandom.cs:64 | the state starts with `mt[0] = seed` |
| MersenneTwister.InitRecurrence | src/QuickCheck/Random/Implementations/MersenneTwisterRandom.cs:62-73 | for 1 ≤ i < 624, mt[i] = 1812433253·(mt[i−1] ^ (mt[i−1] >> 30)) + i mod 2^32 |
| MersenneTwister.InitFill | src/QuickCheck/Random/Implementations/MersenneTwisterRandom.cs:64-72 | the constructor loop fills the array with exactly `InitState(seed)` |
| MersenneTwister.InitStep | src/QuickCheck/Random/Implementations/MersenneTwisterRandom.cs:71 | one assignment of the constructor loop extends the filled prefix by exactly the next word of `InitState(seed)` |
| MersenneTwister.TwistUntouched | src/QuickCheck/Random/Implementations/MersenneTwisterRandom.cs:86-99 | before step kk of the twist, the words at kk and above still hold their old values |
| MersenneTwister.TwistFinal | src/QuickCheck/Random/Implementations/MersenneTwisterRandom.cs:86-99 | each word is written once: later steps leave it unchanged |
| MersenneTwister.TwistWritten | src/QuickCheck/Random/Implementations/MersenneTwisterRandom.cs:86-99 | the new mt[kk] mixes mt[kk], mt[(kk+1) mod 624] and mt[(kk+397) mod 624] as they are at that step |
| MersenneTwister.TwistReadsLower | src/QuickCheck/Random/Implementations/MersenneTwisterRandom.cs:86-90 | for kk < 227 the new mt[kk] reads only old words, mt[kk+397] among them |
| MersenneTwister.TwistReadsUpper | src/QuickCheck/Random/Implementations/MersenneTwisterRandom.cs:92-96 | for 227 ≤ kk < 623 the new mt[kk] reads mt[kk+1] old and mt[kk−227], which is already updated |
| MersenneTwister.TwistReadsLast | src/QuickCheck/Random/Implementations/MersenneTwisterRandom.cs:98-99 | the last word reads its own old value and the updated mt[0] and mt[396] |
| MersenneTwister.TwistInPlace | src/QuickCheck/Random/Implementations/MersenneTwisterRandom.cs:83-99 | the three in-place loops turn the array into `Twist` of its old contents |
| MersenneTwister.TwistLower | src/QuickCheck/Random/Implementations/MersenneTwisterRandom.cs:86-90 | the first loop performs steps 0 to 226 |
| MersenneTwister.TwistUpper | src/QuickCheck/Random/Implementations/MersenneTwisterRandom.cs:92-96 | the second loop performs steps 227 to 622 |
| MersenneTwister.TwistLast | src/QuickCheck/Random/Implementations/MersenneTwisterRandom.cs:98-99 | the final statement performs step 623 |
| MersenneTwister.Seeded | src/QuickCheck/Random/Implementations/MersenneTwisterRandom.cs:62-73 | construction leaves a valid state: 624 words and `mti = 624` |
| MersenneTwister.Next | src/QuickCheck/Random/Implementations/MersenneTwisterRandom.cs:75-105 | the twist runs exactly when `mti == 624`, and the index resets; otherwise the words are unchanged; the call returns the word at the index, untempered, and the index stays within [1, 624] after it |
| MersenneTwister.FirstWordUntempered | src/QuickCheck/Random/Implementations/MersenneTwisterRandom.cs:104 | the first output is the raw first word of the twisted initial state, with no tempering |
| MersenneTwister.MersenneTwisterRandom.constructor | src/QuickCheck/Random/Implementations/MersenneTwisterRandom.cs:62-73 | a fresh array holding `Seeded(seed)` |
| MersenneTwister.MersenneTwisterRandom.UInt32 | src/QuickCheck/Random/Implementations/MersenneTwisterRandom.cs:75-105 | updates the array and index in place exactly as `Next` specifies |
| MersenneTwister.DrawMany | src/QuickCheck/Random/Implementations/MersenneTwisterRandom.cs:75-105 | k calls return `Stream` of the starting state, so the same state always gives the same sequence |
| MersenneTwisterFactory.NewRandom | src/QuickCheck/Random/Implementations/MersenneTwisterFactory.cs:13-16 | a fresh generator seeded with the low 32 bits of the seed only |
| MersenneTwisterFactory.NewRandomFresh | src/QuickCheck/Random/Implementations/MersenneTwisterFactory.cs:7-11 | records the drawn `int` widened to `ulong`, and seeds a fresh generator with that seed's low 32 bits |
| MersenneTwisterFactory.SeedsModuloWord | src/QuickCheck/Random/Implementations/MersenneTwisterFactory.cs:15 | seeds equal modulo 2^32 yield identical streams |
| MersenneTwisterFactory.SeedWordsDiffer | src/QuickCheck/Random/Implementations/MersenneTwisterFactory.cs:15 | seeds with different low words start from different states, since the first state word is the seed word |
| MersenneTwisterFactory.FreshThenReplay | src/QuickCheck/Random/Implementations/MersenneTwisterFactory.cs:7-16 | replaying the recorded seed reproduces the fresh generator's stream |
| Generator.Int32 | src/QuickCheck/Generator.cs:19-22 | one call of `Next()` at the current position, which then advances by one |
| Generator.Choose | src/QuickCheck/Generator.cs:58-61 | throws `ArgumentOutOfRangeException` exactly when `min > max`; otherwise one call of `Next(min, max)` with the bounds passed unchanged, advancing by one |
| Generator.Bool | src/QuickCheck/Generator.cs:24-27 | never throws, since 0..1 is ordered; true exactly when `Next(0, 1)` is not 0; one call is consumed |
| Generator.Int64 | src/QuickCheck/Generator.cs:29-34 | consumes exactly two `Next()` calls |
| Generator.Int64NonNegative | src/QuickCheck/Generator.cs:29-34 | when both calls are non-negative the result is `high * 2^32 + low`, a value in [0, 2^63) |
| Generator.HighHalf | src/QuickCheck/Generator.cs:31-33 | a non-negative `high` widened to `long` and shifted left by 32 is `high * 2^32`, stays below 2^63 − 2^32 and has a clear low word |
| Generator.OrDisjoint | src/QuickCheck/Generator.cs:33 | or-ing a non-negative 31-bit `low` into a shifted `high` with clear low word is plain addition |
| Words.Or64Disjoint | src/QuickCheck/Generator.cs:33 | a 64-bit or of a value with clear low word and a 32-bit word is their sum |
| Generator.SpanOf | src/QuickCheck/Generator.cs:71 | the unchecked `max - min + 1` is 0 exactly when the true span is a multiple of 2^64, and is the true span when that fits |
| Generator.SpanWraps | src/QuickCheck/Generator.cs:71 | the wrapped span is 0 exactly when the true span is 0 modulo 2^64 |
| Generator.Offset | src/QuickCheck/Generator.cs:72 | for a non-negative draw and positive span that does not overflow, the result lies in [min, min + diff) |
| Generator.ChooseLong | src/QuickCheck/Generator.cs:63-73 | equal bounds give `min` without drawing; a span that wraps to 0 throws divide-by-zero; otherwise two words are consumed |
| Generator.ChooseLongBounds | src/QuickCheck/Generator.cs:63-73 | with a non-negative draw and a span below 2^63, the result succeeds and lies in [min, max] |
| Generator.ChooseLongDraws | src/QuickCheck/Generator.cs:70-72 | for a span below 2^63 and a non-negative draw, the result is the offset of the draw and two words are consumed |
| Generator.ChooseLongFullRange | src/QuickCheck/Generator.cs:70-72 | the full `long` range makes the span wrap to 0, so the call throws divide-by-zero (the comment on line 70 warns of this) |
| Generator.ChooseSizedInt32 | src/QuickCheck/Generator.cs:81-94 | inverted bounds throw an argument error with the source's message, with no swapping, and only then; ordered bounds succeed exactly when the computed window is ordered, and otherwise `Next(kmin, kmax)` throws `ArgumentOutOfRangeException`; a success is one draw from the window |
| Generator.ChooseSizedInt32Inverted | src/QuickCheck/Generator.cs:88-93 | ordered bounds can still throw: size 80 with 5..10 gives the window (5, 1) and size 78 with -5..5 gives (-5, `int.MinValue`), and `Next` refuses both |
| Generator.ChooseWindowFullOrdered | src/QuickCheck/Generator.cs:88-93 | over the whole `int` range the window is ordered at every size, so `Int32Generator` never makes `Next` throw |
| Generator.ChooseWindow32Small | src/QuickCheck/Generator.cs:88-91 | for sizes 0 to 77 the exponent is 30 and the window is the bounds clipped to [-2^30, 2^30] |
| Generator.ChooseWindow32Sign | src/QuickCheck/Generator.cs:88-91 | at sizes 78 and 79, `1 << 31` and its negation are both `int.MinValue`, so the upper bound of the window is `int.MinValue` |
| Generator.ChooseWindow32Collapse | src/QuickCheck/Generator.cs:88-91 | at size 80 the shift count 32 is masked to 0 and the window collapses to the bounds clipped to [-1, 1] |
| Generator.ChooseWindowShrinks | src/QuickCheck/Generator.cs:88-91 | over the full `int` range the window is [-2^30, 2^30] at size 77 but [-1, 1] at size 80: larger sizes can give narrower values |
| Generator.ChooseSizedInt32Intended | src/QuickCheck/Generator.cs:81-94 | the same method with `Math.Min` in the exponent: the same argument error for inverted bounds, `ArgumentOutOfRangeException` exactly when the window is inverted, and otherwise one draw from the sized window |
| Generator.ChooseIntendedAroundZero | src/QuickCheck/Generator.cs:81-94 | with `Math.Min`, bounds around zero never make `Next` throw |
| Generator.ChooseWindowIntended | src/QuickCheck/Generator.cs:88-91 | with `Math.Min` the window stays inside the bounds, contains 0, and only widens as the size grows |
| Generator.ChooseSizedInt64 | src/QuickCheck/Generator.cs:96-130 | inverted bounds throw the argument error; otherwise the result is `Choose(long, long)` over the same sized window as the `long` range of the sizeable random source |
| Generators.Int32Arbitrary | src/QuickCheck/Internal/Generators.cs:7-13 | never throws, because the full `int` bounds are ordered; one draw from the sized window over the full range |
| Generators.Int64Arbitrary | src/QuickCheck/Internal/Generators.cs:15-21 | the outcome of `Choose(long, long)` over the sized window of the full `long` range |
| Generators.Int64ArbitraryBounds | src/QuickCheck/Internal/Generators.cs:15-21 | for sizes where n = 64*size/100 is at most 61 and the draw is non-negative, the value succeeds and lies in [-2^n, 2^n] |
| Generators.Elements | src/QuickCheck/Internal/Generators.cs:36-39 | a successful run of `count` element generations yields exactly `count` elements |
| Generators.ElementsThrowPersists | src/QuickCheck/Internal/Generators.cs:36-39 | the first exception ends the enumeration, and every longer enumeration throws that same exception |
| Generators.ElementsAt | src/QuickCheck/Internal/Generators.cs:36-39 | element k is what the element generator gives at the position left by the first k elements, at the same size; the earlier ones are a prefix |
| Generators.Count | src/QuickCheck/Internal/Generators.cs:35 | `Choose(0, size - 1)` throws `ArgumentOutOfRangeException` exactly for sizes from `int.MinValue + 1` to 0 |
| Generators.Enumeration | src/QuickCheck/Internal/Generators.cs:33-40 | a count that throws ends the enumeration with that exception; a successful enumeration has `max(n, 0)` elements, where n is `Choose(0, size - 1)` |
| Generators.ElementsAdvance | src/QuickCheck/Internal/Generators.cs:36-39 | when the element generator never moves back, neither do the elements |
| Generators.EnumerationAdvances | src/QuickCheck/Internal/Generators.cs:33-40 | each enumeration moves past at least its count draw, so enumerating the lazy sequence again draws anew |
| Generators.Enumerate | src/QuickCheck/Internal/Generators.cs:33-40 | the `for` loop yields exactly the enumeration, stopping at the first exception |
| Generators.ListArbitrary | src/QuickCheck/Internal/Generators.cs:43-49 | the list is one enumeration, in order, of `max(n, 0)` elements |
| Generators.ArrayArbitrary | src/QuickCheck/Internal/Generators.cs:51-57 | succeeds exactly when the enumeration does, returning a new array whose contents are the enumeration |
| Generators.DistinctAtMost | src/QuickCheck/Internal/Generators.cs:63 | a set built from a sequence has no more members than the sequence has elements |
| Generators.HashSetArbitrary | src/QuickCheck/Internal/Generators.cs:59-65 | succeeds exactly when the enumeration does; its members are exactly the enumeration's elements, at most `max(n, 0)` of them |
| Registry.GenericDef | src/QuickCheck/Internal/GeneratorContainer.cs:52-65 | every array type has the shape `Array`, a constructed or open generic type the shape of its definition, any other type is its own shape |
| Registry.GenericDefIdempotent | src/QuickCheck/Internal/GeneratorContainer.cs:52-65 | a shape is its own shape, so taking the shape twice changes nothing |
| Registry.GeneratedBy | src/QuickCheck/Internal/GeneratorContainer.cs:74-89 | a type is generated exactly when some interface is a constructed `IGenerator<X>` with that argument; no more results than interfaces |
| Registry.GeneratableTypes | src/QuickCheck/Internal/GeneratorContainer.cs:67-79 | a class with no parameterless constructor generates nothing; otherwise the arguments of its `IGenerator<X>` interfaces |
| Registry.Shapes | src/QuickCheck/Internal/GeneratorContainer.cs:47 | each generated type is replaced by its shape, in order |
| Registry.AddAllExtends | src/QuickCheck/Internal/GeneratorContainer.cs:44-49 | `Dictionary.Add` never overwrites: old entries survive, and every new entry is one of the keys mapped to the generator's shape |
| Registry.AddAllSucceeds | src/QuickCheck/Internal/GeneratorContainer.cs:44-49 | registration succeeds exactly when the shapes are distinct and none is registered yet; then each maps to the generator's shape |
| Registry.MakeGenericType | src/QuickCheck/Internal/GeneratorContainer.cs:105-110 | only a generic definition can be instantiated, and only with as many arguments as it has parameters |
| Registry.GeneratorType | src/QuickCheck/Internal/GeneratorContainer.cs:91-114 | an unregistered shape throws invalid-operation naming the shape, and only then; arrays instantiate the generator with the element type; open generators take the request's type arguments; others are returned as registered |
| Registry.KeepsResolved | src/QuickCheck/Internal/GeneratorContainer.cs:91-114 | adding a new shape leaves every resolution that already succeeded unchanged |
| Registry.NoParameterlessNoEntries | src/QuickCheck/Internal/GeneratorContainer.cs:69-72 | a class without a parameterless constructor leaves the registry as it was |
| Registry.Container.constructor | src/QuickCheck/Internal/GeneratorContainer.cs:13-17 | both dictionaries start empty |
| Registry.Container.Register | src/QuickCheck/Internal/GeneratorContainer.cs:42-50 | the new shape table is the old one with each generated shape added in order, stopping with an argument error at the first shape already present; the instance cache is untouched |
| Registry.Container.RegisterAll | src/QuickCheck/Internal/GeneratorContainer.cs:34-40 | every type of the assembly is registered in order, and the first exception ends the registration with the earlier entries kept |
| Registry.Container.Instance | src/QuickCheck/Internal/GeneratorContainer.cs:19-32 | the result is what `GeneratorType` resolves; a cached type leaves the cache alone, a new one that resolves is cached; the shape table never changes |
| Registry.InstanceTwice | src/QuickCheck/Internal/GeneratorContainer.cs:19-32 | asking twice for the same type gives the same answer |
| Text.NatText | src/QuickCheck/Result.cs:31-32 | the decimal text of a count is non-empty, all digits, with no leading zero |
| Text.NatTextRoundTrip | src/QuickCheck/Result.cs:31-32 | the decimal text of a natural number reads back as that number |
| Text.IntTextRoundTrip | src/QuickCheck/Result.cs:31-32 | the text of an integer is an optional minus sign then digits, and reads back as the integer |
| Text.ParseNegative | src/QuickCheck/Result.cs:31-32 | a minus sign before a digit string reads back as the negated number, and the rest stays all digits |
| Text.IntTextInjective | src/QuickCheck/Result.cs:31-32 | different integers have different texts, so the message identifies the seed and size |
| Sequence.SeqEqualsIdentity | src/QuickCheck/Internal/Sequence.cs:8-11 | under plain element equality, `SequenceEqual` holds exactly when the sequences are identical |
| Sequence.SeqHash | src/QuickCheck/Internal/Sequence.cs:13-16 | the empty sequence hashes to the seed 19 |
| Sequence.SeqHashWrapsOnce | src/QuickCheck/Internal/Sequence.cs:15 | wrapping the hash to 32 bits at every step equals folding `hash * 31 + x` from 19 over unbounded integers and wrapping once |
| Sequence.SeqHashConsistent | src/QuickCheck/Internal/Sequence.cs:8-16 | sequences that are `SequenceEqual` under an equality respecting the element hash have equal sequence hashes |
| Sequence.Hashes | src/QuickCheck/Internal/Sequence.cs:15 | the element hashes, one per element in order |
| Results.EntryCount | src/QuickCheck/TestArgs.cs:24 | the number of entries is the larger of the parameter count and the argument count |
| Results.Entry | src/QuickCheck/TestArgs.cs:33-47 | an entry is `name = shown` when both exist, `name = ?` when the argument is missing, the bare shown argument when the name is missing |
| Results.Entries | src/QuickCheck/TestArgs.cs:24-48 | one entry per index up to the entry count |
| Results.JoinEnds | src/QuickCheck/TestArgs.cs:26-31 | the joined text begins with the first entry and ends with the last: no separator leads or trails |
| Results.JoinSnoc | src/QuickCheck/TestArgs.cs:28-31 | one more entry adds the `", "` separator only when something came before |
| Results.JoinStep | src/QuickCheck/TestArgs.cs:26-31 | the joined text of the first i+1 entries is that of the first i, a `", "` separator when i is not 0, and entry i |
| Results.ArgsTextEmpty | src/QuickCheck/TestArgs.cs:19-51 | no parameters and no arguments render as the empty string |
| Results.ArgsTextPair | src/QuickCheck/TestArgs.cs:19-51 | two named arguments render as `a = x, b = y` |
| Results.ArgsToString | src/QuickCheck/TestArgs.cs:19-51 | the string-builder loop produces exactly the entries joined by `", "` |
| Results.AppendEntry | src/QuickCheck/TestArgs.cs:28-47 | one pass appends the separator when not first, then the entry, and nothing else |
| Results.RethrowWith | src/QuickCheck/Internal/ExceptionHacks.cs:22-36 | no exception means nothing is thrown; otherwise the same kind is rethrown, unchanged without a message, or with the message and a newline put in front of its own |
| Results.TestSuccess | src/QuickCheck/TestResult.cs:52-55 | a success keeps the arguments and is not a failure |
| Results.TestFailure | src/QuickCheck/TestResult.cs:57-60 | a failure keeps the arguments and the exception |
| Results.TestThrowError | src/QuickCheck/TestResult.cs:47-50 | throws exactly for a failure, and then the failure's own exception unchanged |
| Results.Success | src/QuickCheck/Result.cs:38-41 | a successful run keeps the test count, with seed and size 0 and no arguments or error |
| Results.Failure | src/QuickCheck/Result.cs:43-46 | a failed run keeps the count, seed, size, arguments and exception |
| Results.CountTextInjective | src/QuickCheck/Result.cs:31 | counts above one are told apart by their text |
| Results.CountTextSingular | src/QuickCheck/Result.cs:31 | every count of one or less reads `1 test` |
| Results.ThrowError | src/QuickCheck/Result.cs:29-36 | throws exactly when the run holds an exception, of the same kind, with the failure message and a newline in front of the exception's message |
| Results.SuccessNeverThrows | src/QuickCheck/Result.cs:29-41 | a successful run never throws |
| Results.FailureMessageLayout | src/QuickCheck/Result.cs:31-33 | the failure message starts with the arguments and `Falsified after`, followed right away by the test count text |
| Data.LeafText | src/QuickCheck/Internal/Data.cs:45-58 | strings appear in double quotes and chars in single quotes, unescaped; other primitives as their own text |
| Data.RenderThrowsIff | src/QuickCheck/Internal/Data.cs:87-105 | rendering throws exactly when a `null` list item is reached somewhere in the tree, and then with a null-reference error |
| Data.ItemsThrowIff | src/QuickCheck/Internal/Data.cs:92-102 | the first n list items render without error exactly when none of them is `null` or holds a `null` item below it |
| Data.FieldsThrowIff | src/QuickCheck/Internal/Data.cs:148-168 | the first n fields render without error exactly when no field value holds a `null` list item; a `null` field value itself renders as `null` |
| Data.ItemsThrowPersists | src/QuickCheck/Internal/Data.cs:92-102 | once an item throws, the rest of the list is not rendered and the same exception comes out |
| Data.FieldsThrowPersists | src/QuickCheck/Internal/Data.cs:148-168 | once a field throws, the same exception comes out of the whole object |
| Data.RenderShapes | src/QuickCheck/Internal/Data.cs:87-171 | a list renders between `[` and `]`, the empty list as `[]`; an object without fields as its type name alone, with fields as `T {…}` around the field texts |
| Data.StringBuilder.constructor | src/QuickCheck/Internal/Data.cs:16 | a new builder holds the empty text |
| Data.StringBuilder.Append | src/QuickCheck/Internal/Data.cs:19 | the builder's text is extended by the appended string and nothing else |
| Data.AppendTo | src/QuickCheck/Internal/Data.cs:19-58 | succeeds exactly when the rendering does and then appends exactly the rendering; text appended before an exception stays |
| Data.AppendList | src/QuickCheck/Internal/Data.cs:87-105 | the list's loop with its comma flag appends exactly the list rendering, or stops with its exception |
| Data.AppendObject | src/QuickCheck/Internal/Data.cs:136-171 | appends the type name and, when there are fields, ` {`, the fields and `}`: exactly the object rendering |
| Data.AppendFields | src/QuickCheck/Internal/Data.cs:147-168 | the loop over the fields appends exactly the comma-separated `key = value` texts with `null` for a null value, or stops with the exception |
| Data.AppendField | src/QuickCheck/Internal/Data.cs:150-167 | one iteration appends the optional separator, `key = ` and the slot text (`null` for a null value), or stops with the slot's exception; the text only grows |
| Data.FieldsTextStep | src/QuickCheck/Internal/Data.cs:150-166 | one more field adds the separator when not first, then `key = ` and the field's text |
| Data.ToString | src/QuickCheck/Internal/Data.cs:14-17 | rendering into a new builder gives exactly the rendering, or its exception |
| Data.DataEqualsIff | src/QuickCheck/Internal/Data.cs:60-184 | the variants' `Equals` (primitive equality for leaves, `SequenceEqual` of items with `null` equal only to `null`, type name and fields for objects) is exactly equality of the trees |
| Data.ItemHashes | src/QuickCheck/Internal/Data.cs:119-122 | when no item throws there is one hash per item |
| Data.HashConsistent | src/QuickCheck/Internal/Data.cs:72-192 | values that are `Equals` have equal `GetHashCode()` outcomes |
| Data.EmptyListHash | src/QuickCheck/Internal/Data.cs:119-122 | the empty list hashes to the sequence seed 19 |
| ReflectionData.AllFields | src/QuickCheck/Internal/ReflectionData.cs:38-45 | the gathered fields start with those the runtime type declares itself |
| ReflectionData.ConvertFieldsOrder | src/QuickCheck/Internal/ReflectionData.cs:32-51 | the converted fields are the gathered fields one for one, in order, each keeping its name and holding its converted value |
| ReflectionData.FieldsBelow | src/QuickCheck/Internal/ReflectionData.cs:38-45 | every gathered field value lies inside the instance, so the conversion terminates on the acyclic object |
| ReflectionData.CollectFields | src/QuickCheck/Internal/ReflectionData.cs:38-45 | the loop up the base types gathers exactly the declared fields of each type, the runtime type's first |
| ReflectionData.CreateFrom | src/QuickCheck/Internal/ReflectionData.cs:11-52 | the converted tree is `null` for `null`, a leaf for a primitive or string, the converted items for an enumerable, the named object of converted fields otherwise |
| ReflectionData.NullIffNull | src/QuickCheck/Internal/ReflectionData.cs:13-16 | the conversion yields `null` exactly for `null` |
| ReflectionData.EnumerableOrder | src/QuickCheck/Internal/ReflectionData.cs:25-30 | an enumerable becomes a list of the same length with each element converted in place |
| ReflectionData.ObjectKeys | src/QuickCheck/Internal/ReflectionData.cs:32-51 | an instance becomes an object named by its runtime type whose keys are the gathered field names, the type's own fields first |
| Diff.Value | src/QuickCheck/Internal/DataDiff.cs:32-50 | same-typed `float`s give a float diff and same-typed `double`s a double diff, exactly then; anything else a value diff; both values are kept and the diff is never empty |
| Diff.ValueNeverEmpty | src/QuickCheck/Internal/DataDiff.cs:9-50 | even a value compared with itself gives a non-empty diff, since only the `Empty` singleton overrides `IsEmpty` (lines 85-94) |
| Diff.List | src/QuickCheck/Internal/DataDiff.cs:52-55 | the list diff always throws not-implemented |
| Diff.KeysUpToMember | src/QuickCheck/Internal/DataDiff.cs:60-61 | a key is among the first n keys exactly when one of the first n fields carries it |
| Diff.ToDictionaryContents | src/QuickCheck/Internal/DataDiff.cs:60-61 | a built dictionary holds exactly the fields' keys, each mapped to its field's value |
| Diff.ToDictionaryIff | src/QuickCheck/Internal/DataDiff.cs:60-61 | `ToDictionary` succeeds exactly when the keys are distinct; a repeated key throws an argument error |
| Diff.PartitionAdded | src/QuickCheck/Internal/DataDiff.cs:66-80 | what remains of the new dictionary is exactly its entries whose keys the loop has not yet met, with their values |
| Diff.StillAdded | src/QuickCheck/Internal/DataDiff.cs:69-74 | an old key not met before is still in the new dictionary exactly when the new fields have it, with its new value |
| Diff.PartitionOkIff | src/QuickCheck/Internal/DataDiff.cs:66-80 | with distinct old keys the loop succeeds exactly when every shared key has a non-null old value that diffs without error |
| Diff.PartitionRest | src/QuickCheck/Internal/DataDiff.cs:66-80 | old-only keys are removed with their old values; shared keys are modified with the diff of their two values |
| Diff.PartitionThrowPersists | src/QuickCheck/Internal/DataDiff.cs:66-80 | once the loop throws, the exception ends the object diff |
| Diff.Object | src/QuickCheck/Internal/DataDiff.cs:57-83 | the loop over the old dictionary computes exactly the specified object diff, or its exception |
| Diff.ObjectOutcome | src/QuickCheck/Internal/DataDiff.cs:60-83 | a repeated key on either side throws an argument error; otherwise the diff succeeds exactly when the shared keys are diffable, and then added, removed and modified are the new-only, old-only and shared keys |
| Diff.ObjectPartition | src/QuickCheck/Internal/DataDiff.cs:66-82 | the added, removed and modified keys are pairwise disjoint and together are all the old and new keys |
| Diff.ObjectValues | src/QuickCheck/Internal/DataDiff.cs:66-82 | added fields keep their new values, removed fields their old values, and modified fields hold the diff of old and new |
| Runner.RunTest1 | src/QuickCheck/TestableAction.cs:14-28 | a generator exception escapes, and only then; otherwise the arguments are the parameter names with the generated value, and the result is a failure exactly when the property throws, holding that exception |
| Runner.RunTest2 | src/QuickCheck/TestableAction.cs:40-55 | succeeds exactly when both arguments generate, the second from the state the first left, at the same size; a failure exactly when the property throws |
| Runner.RunTest2FirstArgument | src/QuickCheck/TestableAction.cs:42-43 | the first of two arguments is the one a one-argument test would generate from the same source |
| Runner.TrialSize | src/QuickCheck/Quick.cs:138 | every trial size lies in 1..100, and trial i below 100 gets size i + 1 |
| Runner.TrialSizeCycles | src/QuickCheck/Quick.cs:134-138 | the sizes repeat with period 100 |
| Runner.TrialsPersist | src/QuickCheck/Quick.cs:142-145 | the first failure or escaping exception ends the loop, and no later trial changes the result |
| Runner.Test | src/QuickCheck/Quick.cs:127-149 | the loop over 250 trials computes exactly the specified run result |
| Runner.TrialsNoneIff | src/QuickCheck/Quick.cs:134-146 | the first n trials report nothing exactly when every one of them passes |
| Runner.TrialsFailure | src/QuickCheck/Quick.cs:140-145 | a reported failure is the first failing trial i: count i + 1, that trial's seed, size, arguments and exception, with every earlier trial passing |
| Runner.TestOutcome | src/QuickCheck/Quick.cs:132-148 | all 250 trials pass exactly when the result is `Success(251)`; otherwise the failure names the first failing trial's seed, size, arguments and error |
| Runner.TrialsOnlyConsult | src/QuickCheck/Quick.cs:134-140 | the result depends on the test only at the issued generators and trial sizes |
| Runner.TestOnlyConsults | src/QuickCheck/Quick.cs:129-140 | two tests that agree on the 250 issued generators and sizes give the same run result |
| Runner.ReplayReproduces | src/QuickCheck/Quick.cs:151-157 | when the factory keeps the promise of src/QuickCheck/Random/IRandomFactory.cs:5-14, replaying a reported failure's seed and size reproduces its arguments and exception |
| Runner.Check | src/QuickCheck/Quick.cs:159-167 | returns normally exactly when every trial passes; otherwise rethrows the failure's exception with the failure message in front of its message, or lets an escaping exception through |
| Runner.CheckReplay | src/QuickCheck/Quick.cs:169-177 | returns normally exactly when the replayed test passes, and otherwise rethrows its exception unchanged |
| Runner.MwcReplayMissesFailure | src/QuickCheck/Random/Implementations/MwcRandom.cs:25-31 | with the multiply-with-carry factory as written, a failure on clock readings 1 and 2 is reported with seed 3, and replaying seed 3 passes: the report cannot be replayed |
| Runner.MwcPackedRecreates | src/QuickCheck/Random/Implementations/MwcFactory.cs:7-16 | with the packed seed, every seed the factory passes back recreates the generator it issued |

## Left out

- Floating point: `ToFloat` and `ToDouble` in src/QuickCheck/Random/Random.cs, the `float` and `double` `Range` of RandomRange.cs, the final division of the sizeable `Float` and `Double`, `Generator.Double`, `Generator.Choose(double, double)` and `DoubleGenerator`. Dafny has no IEEE arithmetic. Only the integer numerators and denominators these build on are modelled (`Sizeable.FloatFraction`, `Sizeable.DoubleFraction`, `Random.FloatWord`, `Random.DoubleWords`).
- src/QuickCheck/Random/RandomDistribution.cs: all of it is floating point (normal, gamma and closed-form transforms).
- `SystemRandom` and `SystemRandomFactory`, the `System.Random` field behind `Generator`, and the `System.Random` draw in the Mersenne Twister factory's fresh path. These are thin wrappers over a library outside the repository. `Next()` is an abstract tape, `Next(min, max)` an uninterpreted function with no assumed bound (only its argument check, which throws `ArgumentOutOfRangeException` for `min > max`, is modelled), and the fresh Mersenne Twister seed is the input `drawn`.
- The parameterless `MwcRandom` constructor reads `Stopwatch.GetTimestamp()` and `Environment.TickCount`. Its two readings are inputs.
- ExceptionHacks.cs rewrites the stack trace through private fields. Only the early return on `null` and the message prefix are modelled. Exceptions are values with a kind and a message.
- Reflection.cs (`Show`), ReflectionTestable.cs, the NUnit adapter, the SimpleInjector registration extensions, the example properties and the build script are not part of this model. They are reflection, delegate and build plumbing.
- `IRandom`, `IGenerator`, `ITestable`, `IRandomFactory` and `RandomArbitrary` are interfaces. Each appears as the abstract functions it stands for: a tape, `elem`, `run`, and `issued`/`replay`.
- `ObjectDiff` and `Data.Diff` are not defined in the repository. `ObjectDiff` is the variant keeping the three dictionaries, and the nested diff is the parameter `diff`. `IncompatibleDiff` and the diff classes' fields are only data.
- `Dictionary` enumeration order is not specified by .NET. The loop of `DataDiff.Object` visits the old keys in insertion order, as the runtime does for a dictionary without removals.
- `Generator.Arbitrary<T>` dispatches through the static registry at run time. In `Generators` the element generator is the parameter `elem`, and in `Runner` the argument generators are `arb`, `arbA` and `arbB`.
- `TestableAction.RunTest` takes a `Generator` while `Quick.Test` passes an `IRandom`, and `Result.Failure` takes an `int` seed where `Quick.Test` passes a `ulong`. `Runner` takes the source abstractly, and `Results.Result` keeps the seed as the 64-bit value the runner holds.
- Runner.RunTest1: that the property is called exactly once is not stated, because a pure function cannot count its calls. `Replay`'s `Console.WriteLine` is output only and is left out.
- RandomRange.Accept: the `while (true)` rejection loops terminate only on a tape where a word with its top bit clear keeps appearing; the samplers require `Fair(t)`. Without it the source loops forever too.
- Sizeable.Int32, Sizeable.Int32Bound, Sizeable.Int64, Sizeable.Int64Bound, Sizeable.UInt32 and Sizeable.UInt64 state their bounds only for sizes in [0, 2^25). At larger sizes `64 * size` overflows `int`, and the window follows the wrapped value. The result is still computed as written for every size.
- RangeSizeable.ExponentSafe, RangeSizeable.Window32Exact, RangeSizeable.Window64Exact, RangeSizeable.WindowU32Exact, RangeSizeable.WindowU64Exact and the other window lemmas requiring `SafeSize` are stated only for sizes in [0, 2^25), for the same reason.
- RangeSizeable.SizedSByteRange, RangeSizeable.SizedByteRange, RangeSizeable.SizedInt16Range and RangeSizeable.SizedUInt16Range state that the narrowing cast is exact only for sizes in [0, 2^25). For all sizes they state that it agrees modulo 2^8 or 2^16.
- Sizeable.DoubleFraction states the numerator bound only for sizes up to 922337, where `size * 9999999999999` still fits in a `long`.
- Generators.Int64ArbitraryBounds and Generator.ChooseLongBounds assume that `Next()` returned non-negative values, which `System.Random` documents but the model cannot see.
- Concurrency: the library has none.

## Findings

| source | as written | input that shows it | evidently intended | confidence | as-written member | corrected member |
|---|---|---|---|---|---|---|
| src/QuickCheck/Random/Implementations/MwcRandom.cs:25-31 | The getter ors lane 1 with lane 2 shifted left by 32 as a `uint`. C# masks that shift count to 0, so the seed is the bitwise or of the two lanes, not the packed lanes. | Lanes (1, 2) report seed 3. `NewRandom(3)` gives lanes (3, 362436069), so replaying a failure found on lanes (1, 2) runs a different test. | widening lane 2 to `ulong` before the shift, so the seed packs lane 2 above lane 1 and `NewRandom(seed)` recreates the generator, as IRandomFactory.cs:5-14 promises | not executed | Mwc.ReplayCounterexample, Mwc.ReplayRecreatesIff, Runner.MwcReplayMissesFailure | Mwc.PackedSeed, Mwc.PackedSeedRecreates, MwcFactory.FreshThenReplayPacked, Runner.MwcPackedRecreates |
| src/QuickCheck/Generator.cs:88 | `Math.Max(40 * size / 100, 30)` makes the exponent at least 30. From size 78 up, `1 << n` reaches the sign bit or is masked back to small shifts. | Over the full `int` range, size 77 gives the window [-2^30, 2^30] and size 80 gives [-1, 1]. Sizes 78 and 79 give an upper bound of `int.MinValue`. Collapsed windows of bounded calls are inverted and make `Next(kmin, kmax)` throw: size 80 with 5..10 gives (5, 1), size 78 with -5..5 gives (-5, `int.MinValue`). | `Math.Min(40 * size / 100, 30)`, as in the `int` `Range` of RandomRangeSizeable.cs, so the window widens with the size and stays inside the bounds | not executed | Generator.ChooseSizedInt32, Generator.ChooseSizedInt32Inverted, Generator.ChooseWindowShrinks, Generator.ChooseWindow32Sign, Generator.ChooseWindow32Collapse | Generator.ChooseSizedInt32Intended, Generator.ChooseWindowIntended, Generator.ChooseIntendedAroundZero |
| src/QuickCheck/Random/RandomRangeSizeable.cs:47-51 | The window `[max(min, -k), min(max, k)]` is inverted when `[min, max]` does not meet `[-k, k]`, and `random.Range(kmin, kmax)` swaps the ends instead of refusing, so the value can lie outside `[min, max]`. | At size 1 the bounds 1000..2000 give the window (1000, 1); the value lies in [1, 1000], below the minimum except for 1000. | a window clamped into the bounds, so every value lies in `[min, max]`, as the unsized `Range(min, max)` guarantees | not executed | RangeSizeable.Window32Escapes, RangeSizeable.SizedInt32Escapes | RangeSizeable.Window32Bounded, RangeSizeable.Window32BoundedInside, RangeSizeable.SizedInt32Bounded |

The runner and the generators keep the code as written: `Runner` is stated for any factory, and `Generators.Int32Arbitrary` uses `Generator.ChooseSizedInt32`. The sized draws of `Sizeable` keep `Window32` as written: they range over a whole type, whose bounds contain 0, so for sizes in [0, 2^25) their windows are ordered (`RangeSizeable.Window32Inside`) and `RangeSizeable.Window32BoundedInside` shows the clamped window equal to them there. The corrected members stand beside them, with the intended properties proved.
