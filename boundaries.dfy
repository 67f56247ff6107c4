/** The text of a multipart boundary, "=-=" + counter + "-" + suffix +
    "=-=", with the counter printed as by printf's "%02d". */
module Boundaries {

  predicate IsDigit(c: char) {
    '0' <= c <= '9'
  }

  predicate AllDigits(s: string) {
    forall i :: 0 <= i < |s| ==> IsDigit(s[i])
  }

  function DigitChar(d: nat): (c: char)
    requires d < 10
    ensures IsDigit(c)
  {
    ('0' as int + d) as char
  }

  function DigitValue(c: char): nat
    requires IsDigit(c)
  {
    c as int - '0' as int
  }

  /** Decimal text of n, without leading zeros ("%d"). */
  function Decimal(n: nat): string
    decreases n
  {
    if n < 10 then [DigitChar(n)] else Decimal(n / 10) + [DigitChar(n % 10)]
  }

  /** "%02d": at least two digits, zero-padded on the left. */
  function TwoDigits(n: nat): string {
    if n < 10 then "0" + Decimal(n) else Decimal(n)
  }

  /** The value of a digit string read left to right. */
  function ParseDecimal(s: string): nat
    requires AllDigits(s)
  {
    if s == [] then 0 else ParseDecimal(s[..|s| - 1]) * 10 + DigitValue(s[|s| - 1])
  }

  lemma {:induction false} DecimalRoundTrip(n: nat)
    ensures AllDigits(Decimal(n)) && |Decimal(n)| >= 1
    ensures ParseDecimal(Decimal(n)) == n
    decreases n
  {
    if n >= 10 {
      DecimalRoundTrip(n / 10);
      var d := Decimal(n);
      assert d[..|d| - 1] == Decimal(n / 10);
    }
  }

  lemma {:induction false} LeadingZero(s: string)
    requires AllDigits(s)
    ensures AllDigits("0" + s) && ParseDecimal("0" + s) == ParseDecimal(s)
    decreases |s|
  {
    if s != [] {
      var t := "0" + s;
      assert t[..|t| - 1] == "0" + s[..|s| - 1];
      LeadingZero(s[..|s| - 1]);
    }
  }

  /** Reading the counter back from its "%02d" text gives the counter. */
  lemma TwoDigitsRoundTrip(n: nat)
    ensures AllDigits(TwoDigits(n)) && |TwoDigits(n)| >= 2
    ensures ParseDecimal(TwoDigits(n)) == n
  {
    DecimalRoundTrip(n);
    if n < 10 {
      LeadingZero(Decimal(n));
    } else {
      DecimalRoundTrip(n / 10);
    }
  }

  /** generate_boundary's result for a given counter and suffix. */
  function BoundaryString(counter: nat, suffix: string): (b: string)
    ensures |b| >= 3 && b[..3] == "=-="
  {
    "=-=" + TwoDigits(counter) + "-" + suffix + "=-="
  }

  /** The longest prefix of s made of digits. */
  function LeadingDigits(s: string): (r: string)
    ensures AllDigits(r)
  {
    if s != [] && IsDigit(s[0]) then [s[0]] + LeadingDigits(s[1..]) else []
  }

  lemma {:induction false} LeadingDigitsOf(d: string, rest: string)
    requires AllDigits(d) && rest != [] && !IsDigit(rest[0])
    ensures LeadingDigits(d + rest) == d
    decreases |d|
  {
    if d != [] {
      assert (d + rest)[1..] == d[1..] + rest;
      LeadingDigitsOf(d[1..], rest);
    }
  }

  /** The counter a boundary was made from, read back from its text. */
  function BoundaryCounter(b: string): nat {
    if |b| >= 3 then ParseDecimal(LeadingDigits(b[3..])) else 0
  }

  lemma BoundaryCounterRoundTrip(counter: nat, suffix: string)
    ensures BoundaryCounter(BoundaryString(counter, suffix)) == counter
  {
    var b := BoundaryString(counter, suffix);
    TwoDigitsRoundTrip(counter);
    assert b[3..] == TwoDigits(counter) + ("-" + suffix + "=-=");
    LeadingDigitsOf(TwoDigits(counter), "-" + suffix + "=-=");
  }

  /** Within one context the suffix is fixed, so distinct counters give
      distinct boundaries. */
  lemma BoundaryInjective(m: nat, n: nat, suffix: string)
    requires m != n
    ensures BoundaryString(m, suffix) != BoundaryString(n, suffix)
  {
    BoundaryCounterRoundTrip(m, suffix);
    BoundaryCounterRoundTrip(n, suffix);
  }
}
