/** Decimal text of integers, as `Int32.ToString()` and string
    concatenation render them (invariant culture: an optional `-`, then
    the digits without leading zeros). */
module Text {

  function Digit(d: nat): (c: char)
    requires d < 10
    ensures '0' <= c <= '9'
  {
    "0123456789"[d]
  }

  function DigitValue(c: char): nat
    requires '0' <= c <= '9'
  {
    (c as int) - ('0' as int)
  }

  /** The digits of `n`, most significant first. */
  function NatText(n: nat): (s: string)
    ensures |s| >= 1
    ensures forall i :: 0 <= i < |s| ==> '0' <= s[i] <= '9'
    ensures |s| > 1 ==> s[0] != '0'
  {
    if n < 10 then [Digit(n)] else NatText(n / 10) + [Digit(n % 10)]
  }

  function IntText(i: int): (s: string)
    ensures |s| >= 1
  {
    if i < 0 then "-" + NatText(-i) else NatText(i)
  }

  /** Reads a string of digits back. */
  function ParseNat(s: string): nat
    requires forall i :: 0 <= i < |s| ==> '0' <= s[i] <= '9'
  {
    if s == [] then 0 else 10 * ParseNat(s[..|s| - 1]) + DigitValue(s[|s| - 1])
  }

  function ParseInt(s: string): int
    requires |s| >= 1
    requires forall i :: 1 <= i < |s| ==> '0' <= s[i] <= '9'
    requires s[0] == '-' || '0' <= s[0] <= '9'
  {
    if s[0] == '-' then -(ParseNat(s[1..]) as int) else ParseNat(s)
  }

  lemma DigitRoundTrip(d: nat)
    requires d < 10
    ensures DigitValue(Digit(d)) == d
  {
  }

  /** The decimal text reads back as the number. */
  lemma {:induction false} NatTextRoundTrip(n: nat)
    ensures ParseNat(NatText(n)) == n
  {
    if n < 10 {
      DigitRoundTrip(n);
      assert NatText(n)[..0] == [];
    } else {
      NatTextRoundTrip(n / 10);
      DigitRoundTrip(n % 10);
      var s := NatText(n);
      assert s[..|s| - 1] == NatText(n / 10);
    }
  }

  lemma IntTextRoundTrip(i: int)
    ensures var s := IntText(i);
      (s[0] == '-' || '0' <= s[0] <= '9') && (forall k :: 1 <= k < |s| ==> '0' <= s[k] <= '9') &&
      ParseInt(s) == i
  {
    if i < 0 {
      NegativeRoundTrip(i);
    } else {
      NonNegativeRoundTrip(i);
    }
  }

  lemma NegativeRoundTrip(i: int)
    requires i < 0
    ensures var s := IntText(i);
      s[0] == '-' && (forall k :: 1 <= k < |s| ==> '0' <= s[k] <= '9') && ParseInt(s) == i
  {
    NatTextRoundTrip(-i);
    ParseNegative(NatText(-i));
  }

  lemma NonNegativeRoundTrip(i: int)
    requires i >= 0
    ensures var s := IntText(i);
      '0' <= s[0] <= '9' && (forall k :: 1 <= k < |s| ==> '0' <= s[k] <= '9') && ParseInt(s) == i
  {
    NatTextRoundTrip(i);
  }

  /** A minus sign in front of digits reads back as the negated number. */
  lemma ParseNegative(t: string)
    requires |t| >= 1 && forall k :: 0 <= k < |t| ==> '0' <= t[k] <= '9'
    ensures var s := "-" + t;
      (forall k :: 1 <= k < |s| ==> '0' <= s[k] <= '9') && ParseInt(s) == -(ParseNat(t) as int)
  {
    var s := "-" + t;
    assert s[1..] == t;
    forall k | 1 <= k < |s|
      ensures '0' <= s[k] <= '9'
    {
      assert s[k] == t[k - 1];
    }
  }

  /** Different numbers have different texts. */
  lemma IntTextInjective(a: int, b: int)
    requires IntText(a) == IntText(b)
    ensures a == b
  {
    IntTextRoundTrip(a);
    IntTextRoundTrip(b);
  }
}
