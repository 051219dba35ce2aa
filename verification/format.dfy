/**
 * The `%lu` / `%d` conversions the examples use to put counters and radio
 * parameters into their uplink payloads: unsigned and signed decimal text.
 */
module Format {
  import opened CTypes

  predicate IsDigit(c: char)
  {
    '0' as int <= c as int <= '9' as int
  }

  function DigitChar(d: nat): (c: char)
    requires d < 10
    ensures IsDigit(c) && c as int - '0' as int == d
  {
    ('0' as int + d) as char
  }

  function Pow10(k: nat): (p: nat)
    ensures p >= 1
  {
    if k == 0 then 1 else 10 * Pow10(k - 1)
  }

  /** `%lu` / `%u`: the decimal digits of n, most significant first, no leading zeros. */
  function Decimal(n: nat): (s: string)
    ensures 1 <= |s|
    ensures forall i :: 0 <= i < |s| ==> IsDigit(s[i])
    ensures |s| > 1 ==> s[0] != '0'
  {
    if n < 10 then [DigitChar(n)] else Decimal(n / 10) + [DigitChar(n % 10)]
  }

  /** The number a string of decimal digits denotes: what `strtoul` would read back. */
  function DecimalValue(s: string): nat
    requires forall i :: 0 <= i < |s| ==> IsDigit(s[i])
  {
    if s == [] then 0
    else
      assert IsDigit(s[|s| - 1]);
      10 * DecimalValue(s[..|s| - 1]) + (s[|s| - 1] as int - '0' as int)
  }

  /** Reading back the printed counter gives the counter: `%lu` loses nothing. */
  lemma {:induction false} DecimalRoundTrip(n: nat)
    ensures DecimalValue(Decimal(n)) == n
  {
    if n >= 10 {
      var s := Decimal(n);
      assert s[..|s| - 1] == Decimal(n / 10);
      DecimalRoundTrip(n / 10);
    }
  }

  /** A number below 10^k prints in at most k digits (k >= 1). */
  lemma {:induction false} DecimalLength(n: nat, k: nat)
    requires 1 <= k && n < Pow10(k)
    ensures |Decimal(n)| <= k
  {
    if n >= 10 {
      assert k >= 2;
      assert n / 10 < Pow10(k - 1);
      DecimalLength(n / 10, k - 1);
    }
  }

  /** Every `uint32_t` prints in at most 10 digits. */
  lemma U32DecimalLength(n: u32)
    ensures |Decimal(n as nat)| <= 10
  {
    assert Pow10(10) == 10_000_000_000;
    DecimalLength(n as nat, 10);
  }

  /** `%d`: a minus sign for negative values, then the digits of the magnitude. */
  function Signed(x: int): (s: string)
    ensures 1 <= |s|
    ensures (s[0] == '-') <==> x < 0
  {
    if x < 0 then "-" + Decimal(-x) else Decimal(x)
  }

  /**
   * Reading back the printed value gives the value: after the sign (present
   * exactly for negative values) come only digits, and they spell the magnitude.
   */
  lemma SignedRoundTrip(x: int)
    ensures var s := Signed(x);
      if x < 0 then
        && s[0] == '-'
        && (forall i :: 1 <= i < |s| ==> IsDigit(s[i]))
        && DecimalValue(s[1..]) == -x
      else
        && (forall i :: 0 <= i < |s| ==> IsDigit(s[i]))
        && DecimalValue(s) == x
  {
    if x < 0 {
      assert Signed(x)[1..] == Decimal(-x);
      DecimalRoundTrip(-x);
    } else {
      DecimalRoundTrip(x);
    }
  }

  /** Every C `int` prints in at most 11 characters, sign included. */
  lemma I32SignedLength(x: i32)
    ensures |Signed(x as int)| <= 11
  {
    assert Pow10(10) == 10_000_000_000;
    DecimalLength(if x < 0 then -(x as int) else x as int, 10);
  }
}
