/** Decimal rendering of counters: `str(n)` and the zero-padded `f"{n:03}"`
    used for duplicate suffixes, with the parse that inverts them. */
module Decimal {

  predicate IsDigit(c: char)
  {
    '0' <= c <= '9'
  }

  predicate AllDigits(s: string)
  {
    forall k :: 0 <= k < |s| ==> IsDigit(s[k])
  }

  function DigitChar(d: nat): (c: char)
    requires d < 10
    ensures IsDigit(c)
  {
    "0123456789"[d]
  }

  function DigitValue(c: char): (d: nat)
    requires IsDigit(c)
    ensures d < 10
  {
    (c as int) - ('0' as int)
  }

  /** The number a string of digits denotes; leading zeros add nothing. */
  function Value(s: string): nat
    requires AllDigits(s)
    decreases |s|
  {
    if |s| == 0 then 0 else 10 * Value(s[..|s| - 1]) + DigitValue(s[|s| - 1])
  }

  /** `str(n)`: digits only, no leading zero except for `0` itself, and its
      value is `n`. */
  function ToDecimal(n: nat): (s: string)
    ensures 1 <= |s|
    ensures AllDigits(s)
    ensures |s| > 1 ==> s[0] != '0'
    ensures Value(s) == n
    decreases n
  {
    if n < 10 then
      assert DigitValue(DigitChar(n)) == n;
      [DigitChar(n)]
    else
      var s := ToDecimal(n / 10) + [DigitChar(n % 10)];
      assert s[..|s| - 1] == ToDecimal(n / 10);
      assert DigitValue(DigitChar(n % 10)) == n % 10;
      s
  }

  function Zeros(count: nat): (s: string)
    ensures |s| == count
    ensures forall k :: 0 <= k < count ==> s[k] == '0'
  {
    seq(count, _ => '0')
  }

  /** `f"{n:03}"`: `str(n)` left-padded with zeros to three characters; wider
      numbers are left as they are, so only padding can lead with a zero. */
  function Pad3(n: nat): (s: string)
    ensures |s| >= 3
    ensures n < 1000 ==> |s| == 3
    ensures n >= 1000 ==> s == ToDecimal(n)
    ensures |s| > 3 ==> s[0] != '0'
    ensures AllDigits(s)
  {
    var d := ToDecimal(n);
    DecimalWidth(n);
    if |d| < 3 then Zeros(3 - |d|) + d else d
  }

  /** Numbers below 1000 have at most three digits, and the others at least
      four. */
  lemma DecimalWidth(n: nat)
    ensures n < 1000 ==> |ToDecimal(n)| <= 3
    ensures n >= 1000 ==> |ToDecimal(n)| >= 4
  {
    if 100 <= n < 1000 {
      assert |ToDecimal(n / 10 / 10)| == 1;
    } else if n >= 1000 {
      assert |ToDecimal(n)| == |ToDecimal(n / 10)| + 1;
      assert |ToDecimal(n / 10)| == |ToDecimal(n / 10 / 10)| + 1;
      assert |ToDecimal(n / 10 / 10)| == |ToDecimal(n / 10 / 10 / 10)| + 1;
    }
  }

  /** Leading zeros do not change the value of a digit string. */
  lemma {:induction false} ValueAfterZeros(count: nat, s: string)
    requires AllDigits(s)
    ensures AllDigits(Zeros(count) + s)
    ensures Value(Zeros(count) + s) == Value(s)
    decreases |s|, count
  {
    var z := Zeros(count);
    if |s| > 0 {
      var init := s[..|s| - 1];
      assert (z + s)[..|z + s| - 1] == z + init;
      ValueAfterZeros(count, init);
    } else if count > 0 {
      assert z + s == Zeros(count - 1) + ['0'];
      assert (z + s)[..|z + s| - 1] == Zeros(count - 1) + s;
      ValueAfterZeros(count - 1, s);
    }
  }

  /** Reading a padded counter back gives the counter. */
  lemma Pad3RoundTrip(n: nat)
    ensures Value(Pad3(n)) == n
  {
    var d := ToDecimal(n);
    if |d| < 3 {
      ValueAfterZeros(3 - |d|, d);
    }
  }

  /** Distinct counters render differently. */
  lemma Pad3Injective(a: nat, b: nat)
    requires Pad3(a) == Pad3(b)
    ensures a == b
  {
    Pad3RoundTrip(a);
    Pad3RoundTrip(b);
  }

  /** The first counter reads as `001`. */
  lemma Pad3One()
    ensures Pad3(1) == "001"
  {
    assert ToDecimal(1) == "1";
  }

  /** The second counter reads as `002`. */
  lemma Pad3Two()
    ensures Pad3(2) == "002"
  {
    assert ToDecimal(2) == "2";
  }

  /** A two-digit counter gets one zero of padding. */
  lemma Pad3FortyTwo()
    ensures Pad3(42) == "042"
  {
    assert ToDecimal(4) == "4";
    assert ToDecimal(42) == ToDecimal(4) + "2";
  }

  /** A four-digit counter is not truncated. */
  lemma Pad3Thousand()
    ensures Pad3(1000) == "1000"
  {
    assert ToDecimal(1) == "1";
    assert ToDecimal(10) == ToDecimal(1) + "0";
    assert ToDecimal(100) == ToDecimal(10) + "0";
    assert ToDecimal(1000) == ToDecimal(100) + "0";
  }
}
