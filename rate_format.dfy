/**
 * Decimal formatting of the dropout rate as `std::to_string` does it for a
 * float: the value is printed with the "%f" conversion, that is an optional
 * minus sign, the integer part without leading zeros, a point and exactly six
 * fractional digits, the value being rounded to the nearest multiple of 10^-6
 * (ties to the even neighbour, as the C library does on the exact value).
 *
 * `ParseFixed` reads that format back; the lemmas below say what it gives back
 * (the rate rounded to six decimals) and how far that is from the rate.
 */
module RateFormat {

  datatype Option<T> = None | Some(value: T)

  predicate IsDigit(c: char) {
    '0' <= c <= '9'
  }

  predicate AllDigits(s: string) {
    forall i :: 0 <= i < |s| ==> IsDigit(s[i])
  }

  function DigitChar(d: nat): (c: char)
    requires d < 10
    ensures IsDigit(c)
  {
    ('0' as int + d) as char
  }

  function DigitValue(c: char): (d: nat)
    requires IsDigit(c)
    ensures d < 10
  {
    c as int - '0' as int
  }

  /** The number a string of decimal digits denotes (most significant first). */
  function DigitsValue(s: string): nat
    requires AllDigits(s)
  {
    if s == [] then 0 else DigitsValue(s[..|s| - 1]) * 10 + DigitValue(s[|s| - 1])
  }

  /** The decimal numeral of n, without leading zeros ("0" for zero). */
  function Decimal(n: nat): (s: string)
    ensures |s| >= 1 && AllDigits(s)
  {
    if n < 10 then [DigitChar(n)] else Decimal(n / 10) + [DigitChar(n % 10)]
  }

  /** The k lowest decimal digits of n, padded with zeros on the left. */
  function Padded(n: nat, k: nat): (s: string)
    ensures |s| == k && AllDigits(s)
  {
    if k == 0 then [] else Padded(n / 10, k - 1) + [DigitChar(n % 10)]
  }

  function Pow10(k: nat): (p: nat)
    ensures p >= 1
  {
    if k == 0 then 1 else 10 * Pow10(k - 1)
  }

  function Abs(r: real): (a: real)
    ensures a >= 0.0 && (a == r || a == -r)
  {
    if r < 0.0 then -r else r
  }

  /** The integer nearest to x, the even one of the two when x lies halfway. */
  function RoundHalfEven(x: real): (n: nat)
    requires x >= 0.0
    ensures n as real - 0.5 <= x <= n as real + 0.5
    ensures x - x.Floor as real != 0.5 ==> (x < n as real + 0.5 && n as real - 0.5 < x)
    ensures x - x.Floor as real == 0.5 ==> n % 2 == 0
  {
    var f := x.Floor;
    var frac := x - f as real;
    if frac < 0.5 then f
    else if frac > 0.5 then f + 1
    else if f % 2 == 0 then f
    else f + 1
  }

  /** |r| in millionths, rounded as "%f" rounds it. */
  function Micros(r: real): nat {
    RoundHalfEven(Abs(r) * 1000000.0)
  }

  /** The unsigned "%f" text of m millionths: integer part, point, six digits. */
  function FixedPoint(m: nat): string {
    Decimal(m / 1000000) + "." + Padded(m % 1000000, 6)
  }

  /** std::to_string of a float: "%f" of its (exact) value. */
  function FormatRate(r: real): string {
    (if r < 0.0 then "-" else "") + FixedPoint(Micros(r))
  }

  /** The value FormatRate(r) denotes: r rounded to six decimals, sign kept. */
  function Rounded(r: real): real {
    if r < 0.0 then -(Micros(r) as real / 1000000.0) else Micros(r) as real / 1000000.0
  }

  /** Reads an unsigned "%f" text: digits, a point, exactly six digits. */
  function ParseUnsigned(s: string): Option<real> {
    if |s| >= 8 && s[|s| - 7] == '.' && AllDigits(s[..|s| - 7]) && AllDigits(s[|s| - 6..])
    then Some(DigitsValue(s[..|s| - 7]) as real + DigitsValue(s[|s| - 6..]) as real / 1000000.0)
    else None
  }

  /** Reads a "%f" text with an optional leading minus sign. */
  function ParseFixed(s: string): Option<real> {
    if |s| > 0 && s[0] == '-' then
      match ParseUnsigned(s[1..])
      case Some(v) => Some(-v)
      case None => None
    else ParseUnsigned(s)
  }

  lemma {:induction false} DecimalValue(n: nat)
    ensures DigitsValue(Decimal(n)) == n
  {
    var s := Decimal(n);
    if n >= 10 {
      DecimalValue(n / 10);
      assert s[..|s| - 1] == Decimal(n / 10);
    }
  }

  lemma {:induction false} PaddedValue(n: nat, k: nat)
    requires n < Pow10(k)
    ensures DigitsValue(Padded(n, k)) == n
  {
    var s := Padded(n, k);
    if k > 0 {
      assert n / 10 < Pow10(k - 1);
      PaddedValue(n / 10, k - 1);
      assert s[..|s| - 1] == Padded(n / 10, k - 1);
    } else {
      assert n == 0;
    }
  }

  /** The unsigned text of m millionths reads back as m / 10^6. */
  lemma FixedPointParses(m: nat)
    ensures ParseUnsigned(FixedPoint(m)) == Some(m as real / 1000000.0)
    ensures FixedPoint(m)[0] != '-'
  {
    var a := Decimal(m / 1000000);
    var b := Padded(m % 1000000, 6);
    var s := FixedPoint(m);
    assert s == a + "." + b;
    assert s[..|s| - 7] == a;
    assert s[|s| - 6..] == b;
    assert s[|s| - 7] == '.';
    DecimalValue(m / 1000000);
    assert Pow10(6) == 1000000;
    PaddedValue(m % 1000000, 6);
    assert s[0] == a[0];
  }

  /** The rate's text reads back as the rate rounded to six decimals. */
  lemma FormatParses(r: real)
    ensures ParseFixed(FormatRate(r)) == Some(Rounded(r))
  {
    var m := Micros(r);
    FixedPointParses(m);
    if r < 0.0 {
      assert FormatRate(r)[1..] == FixedPoint(m);
    } else {
      assert FormatRate(r) == FixedPoint(m);
    }
  }

  /** Rounding to six decimals moves the rate by at most half a millionth. */
  lemma RoundedIsClose(r: real)
    ensures -0.0000005 <= Rounded(r) - r <= 0.0000005
  {
  }

  /** A rate with at most six decimals is printed exactly. */
  lemma SixDecimalsExact(k: int)
    ensures Rounded(k as real / 1000000.0) == k as real / 1000000.0
  {
    var r := k as real / 1000000.0;
    var n: nat := if k < 0 then -k else k;
    assert Abs(r) * 1000000.0 == n as real;
    assert (n as real).Floor == n;
    assert Micros(r) == n;
  }
}
