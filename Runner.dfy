/** Running a property: one test (src/QuickCheck/TestableAction.cs), the
    trial loop, replay and the `Check` wrappers (src/QuickCheck/Quick.cs).

    The random source is abstract: a state `S` that a generator reads and
    advances. The property is a function that returns the exception it
    throws, if any. The factory is two functions:
    - `issued(i)` is the generator and seed the `i`-th `NewRandom(out seed)`
      call hands out;
    - `replay(seed)` is the generator `NewRandom(seed)` builds. */
module Runner {
  import opened Words
  import opened Outcomes
  import opened Results
  import Mwc

  // One test

  /** A generated argument of a two-argument property. */
  datatype Arg<A, B> = ArgA(a: A) | ArgB(b: B)

  /** `TestableAction<A>.RunTest`: the argument is generated before the
      `try`, so a generator exception escapes; the arguments are captured
      before the property runs, and whatever the property throws becomes a
      failure. */
  function RunTest1<S, A>(arb: (S, i32) -> Outcome<(A, S)>, prop: A -> Option<Exception>,
                          params: seq<string>, src: S, size: i32): (o: Outcome<TestResult<A>>)
    ensures o.Ok? <==> arb(src, size).Ok?
    ensures o.Throw? ==> o.error == arb(src, size).error
    ensures o.Ok? ==>
      var a := arb(src, size).value.0;
      o.value.args == TestArgs(params, [a]) &&
      (IsFailure(o.value) <==> prop(a).Some?) && o.value.error == prop(a)
  {
    match arb(src, size)
    case Throw(e) => Throw(e)
    case Ok((a, _)) =>
      var args := TestArgs(params, [a]);
      match prop(a)
      case None => Ok(TestSuccess(args))
      case Some(e) => Ok(TestFailure(args, e))
  }

  /** `TestableAction<A, B>.RunTest`: `A` is generated first and `B` from
      the state `A` left, both at the same size. */
  function RunTest2<S, A, B>(arbA: (S, i32) -> Outcome<(A, S)>, arbB: (S, i32) -> Outcome<(B, S)>,
                             prop: (A, B) -> Option<Exception>, params: seq<string>,
                             src: S, size: i32): (o: Outcome<TestResult<Arg<A, B>>>)
    ensures o.Ok? <==> arbA(src, size).Ok? && arbB(arbA(src, size).value.1, size).Ok?
    ensures o.Ok? ==>
      var a := arbA(src, size).value.0;
      var b := arbB(arbA(src, size).value.1, size).value.0;
      o.value.args == TestArgs(params, [ArgA(a), ArgB(b)]) &&
      (IsFailure(o.value) <==> prop(a, b).Some?) && o.value.error == prop(a, b)
  {
    match arbA(src, size)
    case Throw(e) => Throw(e)
    case Ok((a, next)) =>
      match arbB(next, size)
      case Throw(e) => Throw(e)
      case Ok((b, _)) =>
        var args := TestArgs(params, [ArgA(a), ArgB(b)]);
        match prop(a, b)
        case None => Ok(TestSuccess(args))
        case Some(e) => Ok(TestFailure(args, e))
  }

  /** The first argument comes from the source as given: a two-argument
      test whose property ignores `B` sees the `A` a one-argument test
      would. */
  lemma RunTest2FirstArgument<S, A, B>(arbA: (S, i32) -> Outcome<(A, S)>, arbB: (S, i32) -> Outcome<(B, S)>,
                                       prop: (A, B) -> Option<Exception>, params: seq<string>,
                                       src: S, size: i32)
    requires RunTest2(arbA, arbB, prop, params, src, size).Ok?
    ensures RunTest1(arbA, (a: A) => Option<Exception>.None, params[..0], src, size).Ok?
    ensures RunTest2(arbA, arbB, prop, params, src, size).value.args.args[0] ==
            ArgA(RunTest1(arbA, (a: A) => Option<Exception>.None, params[..0], src, size).value.args.args[0])
  {
  }

  // The trial loop

  const MAX_SUCCESS: nat := 250
  const MAX_SIZE: nat := 100

  /** The size of trial `i` (from 0): `i % 100 + 1`. */
  function TrialSize(i: nat): (size: i32)
    ensures 1 <= size <= MAX_SIZE
    ensures i < MAX_SIZE ==> size == i + 1
  {
    i % MAX_SIZE + 1
  }

  /** Sizes cycle with period 100. */
  lemma TrialSizeCycles(i: nat)
    ensures TrialSize(i + MAX_SIZE) == TrialSize(i)
  {
  }

  /** Trial `i` passes: the test runs without escaping exception and the
      property does not fail. */
  predicate Passes<S, T>(issued: nat -> (S, u64), run: (S, i32) -> Outcome<TestResult<T>>, i: nat) {
    run(issued(i).0, TrialSize(i)).Ok? && !IsFailure(run(issued(i).0, TrialSize(i)).value)
  }

  /** The first `n` trials: `None` when all pass, the `Failure` result of the
      first failing one, or the exception one of them let escape. */
  function Trials<S, T>(issued: nat -> (S, u64), run: (S, i32) -> Outcome<TestResult<T>>, n: nat)
    : Outcome<Option<Result<T>>>
  {
    if n == 0 then Ok(None)
    else
      match Trials(issued, run, n - 1)
      case Throw(e) => Throw(e)
      case Ok(Some(r)) => Ok(Some(r))
      case Ok(None) =>
        var size := TrialSize(n - 1);
        match run(issued(n - 1).0, size)
        case Throw(e) => Throw(e)
        case Ok(t) =>
          if IsFailure(t) then Ok(Some(Failure(n, issued(n - 1).1, size, t.args, t.error.value)))
          else Ok(None)
  }

  /** `Test`: the first failure among 250 trials, or `Success(251)`: the
      loop counter has gone past the last trial when the result is built. */
  function TestSpec<S, T>(issued: nat -> (S, u64), run: (S, i32) -> Outcome<TestResult<T>>)
    : Outcome<Result<T>>
  {
    match Trials(issued, run, MAX_SUCCESS)
    case Throw(e) => Throw(e)
    case Ok(Some(r)) => Ok(r)
    case Ok(None) => Ok(Success(MAX_SUCCESS + 1))
  }

  lemma {:induction false} TrialsPersist<S, T>(issued: nat -> (S, u64), run: (S, i32) -> Outcome<TestResult<T>>,
                                               i: nat, j: nat)
    requires i <= j && Trials(issued, run, i) != Ok(None)
    ensures Trials(issued, run, j) == Trials(issued, run, i)
    decreases j - i
  {
    if i < j {
      TrialsPersist(issued, run, i, j - 1);
    }
  }

  /** `Quick.Test`. */
  method Test<S, T>(issued: nat -> (S, u64), run: (S, i32) -> Outcome<TestResult<T>>)
    returns (o: Outcome<Result<T>>)
    ensures o == TestSpec(issued, run)
  {
    var i := 0;
    while i < MAX_SUCCESS
      invariant 0 <= i <= MAX_SUCCESS
      invariant Trials(issued, run, i) == Ok(None)
    {
      var random, seed := issued(i).0, issued(i).1;
      var size: i32 := i % MAX_SIZE + 1;
      var result := run(random, size);
      if result.Throw? {
        TrialsPersist(issued, run, i + 1, MAX_SUCCESS);
        return Throw(result.error);
      }
      if IsFailure(result.value) {
        TrialsPersist(issued, run, i + 1, MAX_SUCCESS);
        return Ok(Failure(i + 1, seed, size, result.value.args, result.value.error.value));
      }
      i := i + 1;
    }
    return Ok(Success(i + 1));
  }

  /** The first `n` trials come back `None` exactly when all of them pass. */
  lemma {:induction false} TrialsNoneIff<S, T>(issued: nat -> (S, u64), run: (S, i32) -> Outcome<TestResult<T>>,
                                               n: nat)
    ensures Trials(issued, run, n) == Ok(None) <==> forall i :: 0 <= i < n ==> Passes(issued, run, i)
  {
    if n > 0 {
      TrialsNoneIff(issued, run, n - 1);
      if Trials(issued, run, n - 1) != Ok(None) {
        TrialsPersist(issued, run, n - 1, n);
        var k :| 0 <= k < n - 1 && !Passes(issued, run, k);
      } else {
        assert Trials(issued, run, n) == Ok(None) <==> Passes(issued, run, n - 1);
      }
    }
  }

  /** A failure result is the first failing trial `i`: count `i + 1`, and
      that trial's seed, size, arguments and exception; every earlier trial
      passed. */
  lemma {:induction false} TrialsFailure<S, T>(issued: nat -> (S, u64), run: (S, i32) -> Outcome<TestResult<T>>,
                                               n: nat)
    requires Trials(issued, run, n).Ok? && Trials(issued, run, n).value.Some?
    ensures var r := Trials(issued, run, n).value.value;
      var i := r.tests - 1;
      0 <= i < n &&
      (forall j :: 0 <= j < i ==> Passes(issued, run, j)) &&
      run(issued(i).0, TrialSize(i)).Ok? && IsFailure(run(issued(i).0, TrialSize(i)).value) &&
      r == Failure(i + 1, issued(i).1, TrialSize(i), run(issued(i).0, TrialSize(i)).value.args,
                   run(issued(i).0, TrialSize(i)).value.error.value)
  {
    if Trials(issued, run, n - 1).Ok? && Trials(issued, run, n - 1).value.Some? {
      TrialsFailure(issued, run, n - 1);
    } else {
      TrialsNoneIff(issued, run, n - 1);
    }
  }

  /** When every trial passes the run reports success with count 251;
      otherwise a failure is reported for the first failing trial, with
      that trial's seed, size, arguments and exception. */
  lemma TestOutcome<S, T>(issued: nat -> (S, u64), run: (S, i32) -> Outcome<TestResult<T>>)
    ensures (forall i :: 0 <= i < MAX_SUCCESS ==> Passes(issued, run, i)) <==>
      TestSpec(issued, run) == Ok(Success(MAX_SUCCESS + 1))
    ensures TestSpec(issued, run).Ok? ==>
      (TestSpec(issued, run).value.error.None? <==> TestSpec(issued, run) == Ok(Success(MAX_SUCCESS + 1)))
    ensures TestSpec(issued, run).Ok? && TestSpec(issued, run).value.error.Some? ==>
      var r := TestSpec(issued, run).value;
      var i := r.tests - 1;
      0 <= i < MAX_SUCCESS &&
      (forall j :: 0 <= j < i ==> Passes(issued, run, j)) &&
      r.seed == issued(i).1 && r.size == TrialSize(i) && r.args.Some? &&
      run(issued(i).0, TrialSize(i)) == Ok(TestResult(r.args.value, r.error))
  {
    TrialsNoneIff(issued, run, MAX_SUCCESS);
    if Trials(issued, run, MAX_SUCCESS).Ok? && Trials(issued, run, MAX_SUCCESS).value.Some? {
      TrialsFailure(issued, run, MAX_SUCCESS);
    }
  }

  /** `RunTest` is consulted at most 250 times, only on trials' issued
      generators and sizes: runs that agree there give the same result. */
  lemma {:induction false} TrialsOnlyConsult<S, T>(issued: nat -> (S, u64),
                                                   run1: (S, i32) -> Outcome<TestResult<T>>,
                                                   run2: (S, i32) -> Outcome<TestResult<T>>, n: nat)
    requires forall i :: 0 <= i < n ==> run1(issued(i).0, TrialSize(i)) == run2(issued(i).0, TrialSize(i))
    ensures Trials(issued, run1, n) == Trials(issued, run2, n)
  {
    if n > 0 {
      TrialsOnlyConsult(issued, run1, run2, n - 1);
    }
  }

  lemma TestOnlyConsults<S, T>(issued: nat -> (S, u64), run1: (S, i32) -> Outcome<TestResult<T>>,
                               run2: (S, i32) -> Outcome<TestResult<T>>)
    requires forall i :: 0 <= i < MAX_SUCCESS ==> run1(issued(i).0, TrialSize(i)) == run2(issued(i).0, TrialSize(i))
    ensures TestSpec(issued, run1) == TestSpec(issued, run2)
  {
    TrialsOnlyConsult(issued, run1, run2, MAX_SUCCESS);
  }

  // Replay and check

  /** `Replay(seed, size, test)`: one test on `NewRandom(seed)`. */
  function Replay<S, T>(replay: u64 -> S, run: (S, i32) -> Outcome<TestResult<T>>, seed: u64, size: i32)
    : Outcome<TestResult<T>>
  {
    run(replay(seed), size)
  }

  /** The factory's promise: a passed-back seed recreates its generator. */
  ghost predicate Recreates<S>(issued: nat -> (S, u64), replay: u64 -> S) {
    forall i: nat :: replay(issued(i).1) == issued(i).0
  }

  /** Under the factory's promise, replaying a reported failure's seed and
      size reproduces that failure: the same arguments and exception. */
  lemma ReplayReproduces<S, T>(issued: nat -> (S, u64), replay: u64 -> S,
                               run: (S, i32) -> Outcome<TestResult<T>>)
    requires Recreates(issued, replay)
    requires TestSpec(issued, run).Ok? && TestSpec(issued, run).value.error.Some?
    ensures var r := TestSpec(issued, run).value;
      1 <= r.size <= MAX_SIZE && r.args.Some? &&
      Replay(replay, run, r.seed, r.size) == Ok(TestResult(r.args.value, r.error))
  {
    TestOutcome(issued, run);
  }

  /** `Check(test)`: `Test` followed by `Result.ThrowError`. It returns
      normally exactly when every trial passes; a failure is rethrown with
      the failure message in front of its own message. */
  function Check<S, T>(issued: nat -> (S, u64), run: (S, i32) -> Outcome<TestResult<T>>, show: T -> string)
    : (o: Outcome<()>)
    ensures o.Ok? <==> forall i :: 0 <= i < MAX_SUCCESS ==> Passes(issued, run, i)
    ensures TestSpec(issued, run).Throw? ==> o == Throw(TestSpec(issued, run).error)
    ensures TestSpec(issued, run).Ok? && o.Throw? ==>
      var r := TestSpec(issued, run).value;
      r.error.Some? && o.error.kind == r.error.value.kind &&
      o.error.message == FailureMessage(r, show) + "\n" + r.error.value.message
  {
    TestOutcome(issued, run);
    match TestSpec(issued, run)
    case Throw(e) => Throw(e)
    case Ok(r) => ThrowError(r, show)
  }

  /** `Check(seed, size, test)`: `Replay` followed by `TestResult.ThrowError`. */
  function CheckReplay<S, T>(replay: u64 -> S, run: (S, i32) -> Outcome<TestResult<T>>, seed: u64, size: i32)
    : (o: Outcome<()>)
    ensures o.Ok? <==> run(replay(seed), size).Ok? && !IsFailure(run(replay(seed), size).value)
    ensures o.Throw? && run(replay(seed), size).Ok? ==> o.error == run(replay(seed), size).value.error.value
  {
    match Replay(replay, run, seed, size)
    case Throw(e) => Throw(e)
    case Ok(t) => TestThrowError(t)
  }

  // The multiply-with-carry factory

  /** The issued path as written: lanes from the clock readings `clocks(i)`,
      and the `Seed` getter's value. */
  function MwcFresh(clocks: nat -> (u32, u32)): nat -> (Mwc.Lanes, u64) {
    i => var l := Mwc.InitialLanes(clocks(i).0, clocks(i).1); (l, Mwc.SeedOf(l))
  }

  /** The issued path with the packed seed. */
  function MwcFreshPacked(clocks: nat -> (u32, u32)): nat -> (Mwc.Lanes, u64) {
    i => var l := Mwc.InitialLanes(clocks(i).0, clocks(i).1); (l, Mwc.PackedSeed(l))
  }

  /** As written, the factory breaks its promise: with clock readings 1 and
      2, a property failing on those lanes only is reported, and replaying
      the reported seed passes. */
  lemma MwcReplayMissesFailure(e: Exception)
    ensures var clocks := (i: nat) => (1 as u32, 2 as u32);
      var run := (l: Mwc.Lanes, size: i32) =>
        if l == Mwc.Lanes(1, 2) then Outcome<TestResult<int>>.Ok(TestFailure(TestArgs([], []), e))
        else Ok(TestSuccess(TestArgs([], [])));
      var r := TestSpec(MwcFresh(clocks), run);
      !Recreates(MwcFresh(clocks), Mwc.LanesOfSeed) &&
      r == Ok(Failure(1, 3, 1, TestArgs([], []), e)) &&
      Replay(Mwc.LanesOfSeed, run, r.value.seed, r.value.size) == Ok(TestSuccess(TestArgs([], [])))
  {
    var clocks := (i: nat) => (1 as u32, 2 as u32);
    var run := (l: Mwc.Lanes, size: i32) =>
      if l == Mwc.Lanes(1, 2) then Outcome<TestResult<int>>.Ok(TestFailure(TestArgs([], []), e))
      else Ok(TestSuccess(TestArgs([], [])));
    Mwc.ReplayCounterexample();
    var l := Mwc.InitialLanes(1, 2);
    assert l == Mwc.Lanes(1, 2);
    assert MwcFresh(clocks)(0) == (l, Mwc.SeedOf(l));
    assert Trials(MwcFresh(clocks), run, 0) == Ok(None);
    assert Trials(MwcFresh(clocks), run, 1) == Ok(Some(Failure(1, 3, 1, TestArgs([], []), e)));
    TrialsPersist(MwcFresh(clocks), run, 1, MAX_SUCCESS);
  }

  /** With the packed seed the factory keeps its promise, so every reported
      failure replays. */
  lemma MwcPackedRecreates(clocks: nat -> (u32, u32))
    ensures Recreates(MwcFreshPacked(clocks), Mwc.LanesOfSeed)
  {
    forall i: nat
      ensures Mwc.LanesOfSeed(MwcFreshPacked(clocks)(i).1) == MwcFreshPacked(clocks)(i).0
    {
      Mwc.PackedSeedRecreates(Mwc.InitialLanes(clocks(i).0, clocks(i).1));
    }
  }
}
