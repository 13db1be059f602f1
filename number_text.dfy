/**
 * The string form JavaScript gives an integral number (ECMA-262,
 * Number::toString, for magnitudes up to 2^53): an optional `-` and the
 * decimal digits without leading zeros. This is what `encodeURIComponent`
 * receives when a parameter value is a number.
 */
module NumberText {

  /**
   * The integers whose JavaScript text is their own digits: up to 2^53 in
   * magnitude every integer is a number, so the shortest digits that read
   * back as it are its own. Beyond that Number::toString writes the shortest
   * rounded digits padded with zeros (2^64 gives `18446744073709552000`), and
   * from 10^21 on an exponent form (`1e+21`).
   */
  type Integral = n: int | -9_007_199_254_740_992 <= n <= 9_007_199_254_740_992

  function DigitChar(d: int): (c: char)
    requires 0 <= d < 10
    ensures '0' <= c <= '9'
  {
    ('0' as int + d) as char
  }

  /** The decimal digits of `n`, most significant first. */
  function Decimal(n: nat): (r: string)
    ensures |r| >= 1
    ensures forall i :: 0 <= i < |r| ==> '0' <= r[i] <= '9'
    ensures r[0] == '0' <==> n == 0
    decreases n
  {
    if n < 10 then [DigitChar(n)] else Decimal(n / 10) + [DigitChar(n % 10)]
  }

  /** The integer string form of `n`. */
  function IntegerText(n: int): (r: string)
    ensures |r| >= 1
    ensures r[0] == '-' <==> n < 0
    ensures forall i :: (if n < 0 then 1 else 0) <= i < |r| ==> '0' <= r[i] <= '9'
  {
    if n < 0 then "-" + Decimal(-n) else Decimal(n)
  }

  /** The value of a string of decimal digits. */
  function DigitsValue(s: string): int
  {
    if s == [] then 0 else DigitsValue(s[..|s| - 1]) * 10 + (s[|s| - 1] as int - '0' as int)
  }

  /** The value of an integer string form. */
  function IntegerValue(s: string): int
  {
    if |s| > 0 && s[0] == '-' then -DigitsValue(s[1..]) else DigitsValue(s)
  }

  lemma {:induction false} DecimalRoundTrip(n: nat)
    ensures DigitsValue(Decimal(n)) == n
    decreases n
  {
    if n >= 10 {
      DecimalRoundTrip(n / 10);
      var r := Decimal(n);
      assert r[..|r| - 1] == Decimal(n / 10);
    }
  }

  /** The string form of an integer reads back as that integer, so distinct numbers give distinct text. */
  lemma IntegerRoundTrip(n: int)
    ensures IntegerValue(IntegerText(n)) == n
  {
    if n < 0 {
      DecimalRoundTrip(-n);
      assert ("-" + Decimal(-n))[1..] == Decimal(-n);
    } else {
      DecimalRoundTrip(n);
    }
  }
}
