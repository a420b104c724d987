/** The outcome of one test and of a whole run, and the text that names the
    arguments of a test (src/QuickCheck/TestArgs.cs, src/QuickCheck/TestResult.cs,
    src/QuickCheck/Result.cs, and the `null` early return of
    src/QuickCheck/Internal/ExceptionHacks.cs).

    An argument is of an abstract type `T` and is shown by a given function
    `show`; `Reflection.Show` is not part of this model. */
module Results {
  import opened Words
  import opened Outcomes
  import opened Text
  import Data

  /** A reference that may be `null`. */
  datatype Option<T> = None | Some(value: T)

  // Test arguments

  /** `TestArgs`: the parameter names of the tested method and the
      generated arguments. */
  datatype TestArgs<T> = TestArgs(params: seq<string>, args: seq<T>)

  /** `n = Math.Max(ps.Length, m_Args.Length)`. */
  function EntryCount<T>(a: TestArgs<T>): (n: nat)
    ensures n >= |a.params| && n >= |a.args| && (n == |a.params| || n == |a.args|)
  {
    Max(|a.params|, |a.args|)
  }

  /** Entry `i`: `name = ` when there is an `i`-th parameter, then the shown
      argument, or `?` when there is no `i`-th argument. */
  function Entry<T>(a: TestArgs<T>, show: T -> string, i: nat): (s: string)
    ensures i < |a.params| && i < |a.args| ==> s == a.params[i] + " = " + show(a.args[i])
    ensures i < |a.params| && i >= |a.args| ==> s == a.params[i] + " = ?"
    ensures i >= |a.params| && i < |a.args| ==> s == show(a.args[i])
  {
    (if i < |a.params| then a.params[i] + " = " else "") + (if i < |a.args| then show(a.args[i]) else "?")
  }

  function Entries<T>(a: TestArgs<T>, show: T -> string): (es: seq<string>)
    ensures |es| == EntryCount(a) && forall i :: 0 <= i < |es| ==> es[i] == Entry(a, show, i)
  {
    seq(EntryCount(a), i requires 0 <= i < EntryCount(a) => Entry(a, show, i))
  }

  /** The strings joined by `", "`. */
  function Join(xs: seq<string>): string {
    if |xs| == 0 then ""
    else if |xs| == 1 then xs[0]
    else Join(xs[..|xs| - 1]) + ", " + xs[|xs| - 1]
  }

  /** A joined list begins with its first string and ends with its last:
      no separator leads or trails. */
  lemma {:induction false} JoinEnds(xs: seq<string>)
    requires |xs| > 0
    ensures xs[0] <= Join(xs)
    ensures |xs[|xs| - 1]| <= |Join(xs)| && Join(xs)[|Join(xs)| - |xs[|xs| - 1]|..] == xs[|xs| - 1]
  {
    if |xs| > 1 {
      JoinEnds(xs[..|xs| - 1]);
    }
  }

  /** Joining one more string adds the separator only after the first. */
  lemma JoinSnoc(xs: seq<string>, x: string)
    ensures Join(xs + [x]) == Join(xs) + (if |xs| > 0 then ", " else "") + x
  {
    assert (xs + [x])[..|xs|] == xs;
  }

  /** `ToString()`: the entries, joined by `", "`. */
  function ArgsText<T>(a: TestArgs<T>, show: T -> string): string {
    Join(Entries(a, show))
  }

  /** No parameters and no arguments render as the empty string. */
  lemma ArgsTextEmpty<T>(show: T -> string)
    ensures ArgsText(TestArgs([], []), show) == ""
  {
  }

  /** Parameter names and arguments in step: `a = x, b = y`. */
  lemma ArgsTextPair<T>(x: T, y: T, show: T -> string)
    ensures ArgsText(TestArgs(["a", "b"], [x, y]), show) == "a = " + show(x) + ", b = " + show(y)
  {
    var es := Entries(TestArgs(["a", "b"], [x, y]), show);
    assert es[0] == "a = " + show(x) && es[1] == "b = " + show(y);
    assert es[..1] == [es[0]];
    assert Join(es) == Join(es[..1]) + ", " + es[1];
  }

  /** The `for` loop of `TestArgs.ToString` over a `StringBuilder`. */
  method ArgsToString<T>(a: TestArgs<T>, show: T -> string) returns (s: string)
    ensures s == ArgsText(a, show)
  {
    var sb := new Data.StringBuilder();
    ghost var es := Entries(a, show);
    var n := Max(|a.params|, |a.args|);
    for i := 0 to n
      invariant sb.text == Join(es[..i])
    {
      AppendEntry(sb, a, show, i);
      JoinStep(es, i);
    }
    assert es[..n] == es;
    return sb.text;
  }

  /** The joined prefix grows by the separator and the next string. */
  lemma JoinStep(xs: seq<string>, i: nat)
    requires i < |xs|
    ensures Join(xs[..i + 1]) == Join(xs[..i]) + (if i > 0 then ", " else "") + xs[i]
  {
    assert xs[..i] + [xs[i]] == xs[..i + 1];
    JoinSnoc(xs[..i], xs[i]);
  }

  /** One pass of the loop: the separator, the name, the shown argument. */
  method AppendEntry<T>(sb: Data.StringBuilder, a: TestArgs<T>, show: T -> string, i: nat)
    modifies sb
    ensures sb.text == old(sb.text) + (if i > 0 then ", " else "") + Entry(a, show, i)
  {
    var name := if i < |a.params| then a.params[i] + " = " else "";
    var arg := if i < |a.args| then show(a.args[i]) else "?";
    if i != 0 {
      sb.Append(", ");
    }
    ghost var head := sb.text;
    if i < |a.params| {
      sb.Append(a.params[i]);
      sb.Append(" = ");
    }
    assert sb.text == head + name;
    if i < |a.args| {
      sb.Append(show(a.args[i]));
    } else {
      sb.Append("?");
    }
    assert sb.text == head + name + arg;
  }

  // Rethrowing

  /** `RethrowWith(exception, message)`: nothing when there is no exception;
      otherwise the exception is thrown again, with `message` and a newline
      put in front of its own message when a message is given. */
  function RethrowWith(error: Option<Exception>, message: Option<string>): (o: Outcome<()>)
    ensures o.Ok? <==> error.None?
    ensures o.Throw? ==> o.error.kind == error.value.kind
    ensures o.Throw? && message.None? ==> o.error == error.value
    ensures o.Throw? && message.Some? ==> o.error.message == message.value + "\n" + error.value.message
  {
    match error
    case None => Ok(())
    case Some(e) =>
      match message
      case None => Throw(e)
      case Some(m) => Throw(Exception(e.kind, m + "\n" + e.message))
  }

  // The result of one test

  /** `TestResult`: the arguments of the test and, when it failed, the
      exception the property threw. */
  datatype TestResult<T> = TestResult(args: TestArgs<T>, error: Option<Exception>)

  predicate IsFailure<T>(r: TestResult<T>) {
    r.error.Some?
  }

  function TestSuccess<T>(args: TestArgs<T>): (r: TestResult<T>)
    ensures !IsFailure(r) && r.args == args
  {
    TestResult(args, None)
  }

  function TestFailure<T>(args: TestArgs<T>, e: Exception): (r: TestResult<T>)
    ensures IsFailure(r) && r.args == args && r.error == Some(e)
  {
    TestResult(args, Some(e))
  }

  /** `TestResult.ThrowError`: rethrows the failure unchanged, and does
      nothing after a success. */
  function TestThrowError<T>(r: TestResult<T>): (o: Outcome<()>)
    ensures o.Ok? <==> !IsFailure(r)
    ensures o.Throw? ==> o.error == r.error.value
  {
    RethrowWith(r.error, None)
  }

  // The result of a run

  /** `Result`: the number of tests, the seed and size of the failing test,
      its arguments and its exception. The seed is kept at the 64 bits of the
      seed the runner passes in. */
  datatype Result<T> = Result(tests: int, seed: u64, size: int, args: Option<TestArgs<T>>,
                              error: Option<Exception>)

  /** `Result.Success(tests)`: seed and size 0, no arguments, no error. */
  function Success<T>(tests: int): (r: Result<T>)
    ensures r.tests == tests && r.seed == 0 && r.size == 0 && r.args.None? && r.error.None?
  {
    Result(tests, 0, 0, None, None)
  }

  function Failure<T>(tests: int, seed: u64, size: int, args: TestArgs<T>, error: Exception): (r: Result<T>)
    ensures r.tests == tests && r.seed == seed && r.size == size && r.args == Some(args) && r.error == Some(error)
  {
    Result(tests, seed, size, Some(args), Some(error))
  }

  /** `"<n> tests"` for more than one test, `"1 test"` otherwise. */
  function CountText(n: int): string {
    if n > 1 then IntText(n) + " tests" else "1 test"
  }

  /** Counts above one are told apart by their text. */
  lemma CountTextInjective(a: int, b: int)
    requires a > 1 && b > 1 && CountText(a) == CountText(b)
    ensures a == b
  {
    var s := CountText(a);
    assert IntText(a) == s[..|s| - 6] == IntText(b);
    IntTextInjective(a, b);
  }

  /** Counts of one or less all read `1 test`. */
  lemma CountTextSingular(n: int)
    requires n <= 1
    ensures CountText(n) == "1 test"
  {
  }

  /** The message of a failed run: the arguments (an absent `TestArgs` adds
      nothing to the concatenation), then the count, seed and size. */
  function FailureMessage<T>(r: Result<T>, show: T -> string): string {
    (if r.args.Some? then ArgsText(r.args.value, show) else "") +
    "\nFalsified after " + CountText(r.tests) +
    " (seed = " + IntText(r.seed) + ", size = " + IntText(r.size) + ")"
  }

  /** `Result.ThrowError`: a failed run rethrows its exception with the
      failure message and a newline in front of the exception's own
      message; a successful run throws nothing. */
  function ThrowError<T>(r: Result<T>, show: T -> string): (o: Outcome<()>)
    ensures o.Ok? <==> r.error.None?
    ensures o.Throw? ==>
      o.error.kind == r.error.value.kind &&
      o.error.message == FailureMessage(r, show) + "\n" + r.error.value.message
  {
    RethrowWith(r.error, Some(FailureMessage(r, show)))
  }

  /** A successful run never throws. */
  lemma SuccessNeverThrows<T>(tests: int, show: T -> string)
    ensures ThrowError(Success<T>(tests), show) == Ok(())
  {
  }

  /** The message of a failure names its arguments first and the test count
      right after the fixed text. */
  lemma FailureMessageLayout<T>(tests: int, seed: u64, size: int, args: TestArgs<T>, e: Exception,
                                show: T -> string)
    ensures var m := FailureMessage(Failure(tests, seed, size, args, e), show);
      ArgsText(args, show) + "\nFalsified after " <= m &&
      m[|ArgsText(args, show) + "\nFalsified after "|..][..|CountText(tests)|] == CountText(tests)
  {
  }
}
