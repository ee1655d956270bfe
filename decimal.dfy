/** Decimal digit strings: `String#to_i` on a run of digits and `Integer#to_s`. */
module Decimal {
  import opened Extname

  predicate AllDigits(s: string) {
    forall k :: 0 <= k < |s| ==> IsAsciiDigit(s[k])
  }

  function DigitValue(c: char): (v: nat)
    requires IsAsciiDigit(c)
    ensures v < 10
  {
    c as int - '0' as int
  }

  function DigitChar(v: nat): (c: char)
    requires v < 10
    ensures IsAsciiDigit(c) && DigitValue(c) == v
  {
    ('0' as int + v) as char
  }

  function Pow10(k: nat): (p: nat)
    ensures p >= 1
  {
    if k == 0 then 1 else 10 * Pow10(k - 1)
  }

  /** The value of a digit string read in base ten; leading zeros are allowed. A string of
      k digits reads as less than 10^k. */
  function Value(ds: string): (v: nat)
    requires AllDigits(ds)
    ensures v < Pow10(|ds|)
  {
    if ds == [] then 0 else 10 * Value(ds[..|ds| - 1]) + DigitValue(ds[|ds| - 1])
  }

  /** The decimal rendering of n, without leading zeros. */
  function Render(n: nat): (r: string)
    ensures AllDigits(r) && |r| >= 1
    ensures |r| == 1 <==> n < 10
    ensures n >= 10 ==> r[0] != '0'
  {
    if n < 10 then [DigitChar(n)] else Render(n / 10) + [DigitChar(n % 10)]
  }

  /** Reading a rendered number gives the number back. */
  lemma {:induction false} ValueOfRender(n: nat)
    ensures Value(Render(n)) == n
  {
    if n >= 10 {
      var r := Render(n);
      assert r[..|r| - 1] == Render(n / 10);
      ValueOfRender(n / 10);
    }
  }

  /** Ruby's interpolation of an integer, `"#{n}"`: its digits, after a minus sign when n is
      negative, read back as n. */
  function Interpolate(n: int): (r: string)
    ensures n >= 0 ==> AllDigits(r) && |r| >= 1 && Value(r) == n
    ensures n < 0 ==> |r| >= 2 && r[0] == '-' && AllDigits(r[1..]) && Value(r[1..]) == -n
  {
    if n >= 0 then
      ValueOfRender(n);
      Render(n)
    else
      ValueOfRender(-n);
      assert ("-" + Render(-n))[1..] == Render(-n);
      "-" + Render(-n)
  }
}
