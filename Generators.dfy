/** The built-in generators (src/QuickCheck/Internal/Generators.cs), drawing
    from the `System.Random`-based `Generator`. The generator of an element
    type is looked up at run time; here it is an abstract parameter `elem`,
    where `elem(p, size)` generates one element from position `p` and may
    throw (for instance when no generator is registered for the type). */
module Generators {
  import opened Words
  import opened Outcomes
  import opened Random
  import opened RangeSizeable
  import opened Generator
  import Sizeable

  /** `Int32Generator.Arbitrary`: `Choose(size, int.MinValue, int.MaxValue)`,
      which never throws: the bounds are ordered and so is their window. */
  function Int32Arbitrary(r: SysRandom, p: nat, size: i32): (d: Draw<i32>)
    ensures d.next == p + 1
    ensures var w := ChooseWindow32(size, -TWO31, TWO31 - 1);
      d.value == r.nextIn(p, w.0, w.1)
    ensures Ok(d) == ChooseSizedInt32(r, p, size, -TWO31, TWO31 - 1)
  {
    ChooseWindowFullOrdered(size);
    ChooseSizedInt32(r, p, size, -TWO31, TWO31 - 1).value
  }

  /** `Int64Generator.Arbitrary`: `Choose(size, long.MinValue, long.MaxValue)`. */
  method Int64Arbitrary(r: SysRandom, p: nat, size: i32) returns (o: Outcome<Draw<i64>>)
    ensures var w := Window64(size, -TWO63, TWO63 - 1);
      o == ChooseLong(r, p, w.0, w.1)
  {
    o := ChooseSizedInt64(r, p, size, -TWO63, TWO63 - 1);
  }

  /** For sizes with `n = 64*size/100 <= 61` the window is `[-2^n, 2^n]`, its
      span fits in a `long`, and with a non-negative `Int64()` the value is
      inside the window. */
  lemma Int64ArbitraryBounds(r: SysRandom, p: nat, size: i32)
    requires SafeSize(size) && 64 * size / 100 <= 61 && NonNegativeAt(r, p)
    ensures var w := Window64(size, -TWO63, TWO63 - 1);
      var o := ChooseLong(r, p, w.0, w.1);
      var n := 64 * size / 100;
      o.Ok? && -(Pow2(n) as int) <= o.value.value <= Pow2(n)
  {
    var n := 64 * size / 100;
    Window64Small(size, n);
    ChooseLongBounds(r, p, -(Pow2(n) as int), Pow2(n));
  }

  /** The window of a size with `n <= 61`, clamped to the whole `long` range. */
  lemma Window64Small(size: i32, n: nat)
    requires SafeSize(size) && n == 64 * size / 100 <= 61
    ensures Window64(size, -TWO63, TWO63 - 1) == (-(Pow2(n) as int), Pow2(n))
    ensures Pow2(n) <= TWO63 / 4
  {
    Sizeable.Width64Full();
    Window64Exact(size, -TWO63, TWO63 - 1);
    Pow2AtMost61(n);
  }

  lemma Pow2AtMost61(n: nat)
    requires n <= 61
    ensures Pow2(n) <= TWO63 / 4
  {
    Pow2High();
    Pow2Monotone(n, 61);
    Pow2Add(61, 2);
  }

  /** The first `count` elements of an enumeration, drawn one after another
      from position `p`; the first exception ends it. */
  function Elements<T>(elem: (nat, i32) -> Outcome<Draw<T>>, size: i32, count: nat, p: nat)
    : (o: Outcome<Draw<seq<T>>>)
    ensures o.Ok? ==> |o.value.value| == count
    decreases count
  {
    if count == 0 then Ok(Draw([], p))
    else
      match Elements(elem, size, count - 1, p)
      case Throw(e) => Throw(e)
      case Ok(d) =>
        match elem(d.next, size)
        case Throw(e) => Throw(e)
        case Ok(x) => Ok(Draw(d.value + [x.value], x.next))
  }

  /** Once an element throws, every longer enumeration throws the same. */
  lemma {:induction false} ElementsThrowPersists<T>(elem: (nat, i32) -> Outcome<Draw<T>>, size: i32,
                                                    i: nat, j: nat, p: nat)
    requires i <= j && Elements(elem, size, i, p).Throw?
    ensures Elements(elem, size, j, p) == Elements(elem, size, i, p)
    decreases j - i
  {
    if i < j {
      ElementsThrowPersists(elem, size, i, j - 1, p);
    }
  }

  /** Each element is the one `elem` gives at the position the previous
      element left, at the same size. */
  lemma {:induction false} ElementsAt<T>(elem: (nat, i32) -> Outcome<Draw<T>>, size: i32,
                                         count: nat, p: nat, k: nat)
    requires Elements(elem, size, count, p).Ok? && k < count
    ensures Elements(elem, size, k, p).Ok?
    ensures var pre := Elements(elem, size, k, p).value;
      var all := Elements(elem, size, count, p).value.value;
      elem(pre.next, size).Ok? && all[k] == elem(pre.next, size).value.value &&
      all[..k] == pre.value
    decreases count
  {
    if k < count - 1 {
      ElementsAt(elem, size, count - 1, p, k);
    }
  }

  /** The count of an enumeration: `Choose(0, size - 1)` in `int` arithmetic.
      `Next(0, size - 1)` throws when `size - 1` is negative, which is every
      size from `int.MinValue + 1` to 0 (at `int.MinValue` it wraps). */
  function Count(r: SysRandom, p: nat, size: i32): (o: Outcome<Draw<i32>>)
    ensures o.Throw? <==> -TWO31 < size <= 0
    ensures o.Throw? ==> o.error.kind == ArgumentOutOfRange
  {
    Choose(r, p, 0, ToI32(size - 1))
  }

  /** One enumeration of the sequence `EnumerableGenerator` returns: draw
      `n`, then `n` elements (none when `n` is negative). A count that throws
      ends the enumeration before any element. */
  function Enumeration<T>(r: SysRandom, elem: (nat, i32) -> Outcome<Draw<T>>, size: i32, p: nat)
    : (o: Outcome<Draw<seq<T>>>)
    ensures Count(r, p, size).Throw? ==> o == Throw(Count(r, p, size).error)
    ensures o.Ok? ==> Count(r, p, size).Ok?
    ensures o.Ok? ==> |o.value.value| == Max(Count(r, p, size).value.value, 0)
  {
    match Count(r, p, size)
    case Throw(e) => Throw(e)
    case Ok(n) => Elements(elem, size, Max(n.value, 0), n.next)
  }

  /** An element generator that never moves backwards. */
  ghost predicate Advancing<T>(elem: (nat, i32) -> Outcome<Draw<T>>, size: i32) {
    forall q: nat :: elem(q, size).Ok? ==> elem(q, size).value.next >= q
  }

  lemma {:induction false} ElementsAdvance<T>(elem: (nat, i32) -> Outcome<Draw<T>>, size: i32,
                                              count: nat, p: nat)
    requires Advancing(elem, size)
    ensures Elements(elem, size, count, p).Ok? ==> Elements(elem, size, count, p).value.next >= p
    decreases count
  {
    if count > 0 {
      ElementsAdvance(elem, size, count - 1, p);
    }
  }

  /** Enumerating again starts where the previous enumeration stopped, past
      at least the draw of its count: a second enumeration draws a new count
      and new elements. */
  lemma EnumerationAdvances<T>(r: SysRandom, elem: (nat, i32) -> Outcome<Draw<T>>, size: i32, p: nat)
    requires Advancing(elem, size)
    ensures Enumeration(r, elem, size, p).Ok? ==> Enumeration(r, elem, size, p).value.next >= p + 1
  {
    var n := Count(r, p, size);
    if n.Ok? {
      ElementsAdvance(elem, size, Max(n.value.value, 0), n.value.next);
    }
  }

  /** `EnumerableGenerator.Arbitrary` is lazy: it returns this description
      without drawing, and every enumeration of it draws anew. */
  datatype Enumerable = Enumerable(size: i32)

  /** The `for` loop behind `yield return`: `n` elements in order, each
      generated at the enumerable's size. */
  method Enumerate<T>(r: SysRandom, elem: (nat, i32) -> Outcome<Draw<T>>, e: Enumerable, p: nat)
    returns (o: Outcome<Draw<seq<T>>>)
    ensures o == Enumeration(r, elem, e.size, p)
  {
    var c := Count(r, p, e.size);
    if c.Throw? {
      return Throw(c.error);
    }
    var n := c.value.value;
    var xs: seq<T> := [];
    var q := c.value.next;
    var i := 0;
    while i < n
      invariant 0 <= i <= Max(n, 0)
      invariant Elements(elem, e.size, i, c.value.next) == Ok(Draw(xs, q))
    {
      var x := elem(q, e.size);
      if x.Throw? {
        ElementsThrowPersists(elem, e.size, i + 1, Max(n, 0), c.value.next);
        return Throw(x.error);
      }
      xs := xs + [x.value.value];
      q := x.value.next;
      i := i + 1;
    }
    o := Ok(Draw(xs, q));
  }

  /** `ListGenerator.Arbitrary`: one enumeration, copied in order. */
  method ListArbitrary<T>(r: SysRandom, elem: (nat, i32) -> Outcome<Draw<T>>, size: i32, p: nat)
    returns (o: Outcome<Draw<seq<T>>>)
    ensures o == Enumeration(r, elem, size, p)
    ensures o.Ok? ==> |o.value.value| == Max(Count(r, p, size).value.value, 0)
  {
    o := Enumerate(r, elem, Enumerable(size), p);
  }

  /** `ArrayGenerator.Arbitrary`: one enumeration, copied in order into a new
      array. */
  method ArrayArbitrary<T>(r: SysRandom, elem: (nat, i32) -> Outcome<Draw<T>>, size: i32, p: nat)
    returns (o: Outcome<Draw<array<T>>>)
    ensures o.Ok? <==> Enumeration(r, elem, size, p).Ok?
    ensures o.Ok? ==> fresh(o.value.value)
    ensures o.Ok? ==> o.value.value[..] == Enumeration(r, elem, size, p).value.value
    ensures o.Ok? ==> o.value.next == Enumeration(r, elem, size, p).value.next
  {
    var e := Enumerate(r, elem, Enumerable(size), p);
    if e.Throw? {
      return Throw(e.error);
    }
    var xs := e.value.value;
    var a := new T[|xs|](i requires 0 <= i < |xs| => xs[i]);
    o := Ok(Draw(a, e.value.next));
  }

  function Distinct<T>(xs: seq<T>): set<T> {
    set x | x in xs
  }

  /** Duplicates collapse: a set built from a sequence has at most as many
      members as the sequence has elements. */
  lemma {:induction false} DistinctAtMost<T>(xs: seq<T>)
    ensures |Distinct(xs)| <= |xs|
  {
    if xs != [] {
      var init := xs[..|xs| - 1];
      DistinctAtMost(init);
      assert xs == init + [xs[|xs| - 1]];
      assert Distinct(xs) == Distinct(init) + {xs[|xs| - 1]};
    }
  }

  /** `HashSetGenerator.Arbitrary`: the distinct elements of one enumeration. */
  method HashSetArbitrary<T>(r: SysRandom, elem: (nat, i32) -> Outcome<Draw<T>>, size: i32, p: nat)
    returns (o: Outcome<Draw<set<T>>>)
    ensures o.Ok? <==> Enumeration(r, elem, size, p).Ok?
    ensures o.Ok? ==> var xs := Enumeration(r, elem, size, p).value.value;
      (forall x :: x in o.value.value <==> x in xs) && |o.value.value| <= Max(Count(r, p, size).value.value, 0)
  {
    var e := Enumerate(r, elem, Enumerable(size), p);
    if e.Throw? {
      return Throw(e.error);
    }
    DistinctAtMost(e.value.value);
    o := Ok(Draw(Distinct(e.value.value), e.value.next));
  }
}
