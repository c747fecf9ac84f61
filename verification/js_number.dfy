/**
 * JavaScript's `parseInt(text)` with the default radix, restricted to plain
 * decimal digits: the value of the longest run of digits at the start of the
 * text, or `NaN` (here `None`) when the text does not start with a digit.
 */
module JsNumber {
  import opened Wrappers

  predicate IsDigit(c: char) {
    '0' <= c <= '9'
  }

  predicate AllDigits(d: string) {
    forall p :: 0 <= p < |d| ==> IsDigit(d[p])
  }

  function DigitValue(c: char): (v: nat)
    requires IsDigit(c)
    ensures v < 10
  {
    c as int - '0' as int
  }

  function DigitChar(v: nat): (c: char)
    requires v < 10
    ensures IsDigit(c) && DigitValue(c) == v
  {
    ('0' as int + v) as char
  }

  /** The longest prefix of `s` made of decimal digits. */
  function LeadingDigits(s: string): (d: string)
    ensures d <= s
    ensures AllDigits(d)
    ensures |d| == |s| || !IsDigit(s[|d|])
  {
    if s != [] && IsDigit(s[0]) then [s[0]] + LeadingDigits(s[1..]) else []
  }

  /** The number a string of decimal digits denotes, most significant digit first. */
  function DecimalValue(d: string): nat
    requires AllDigits(d)
  {
    if d == [] then 0 else DecimalValue(d[..|d| - 1]) * 10 + DigitValue(d[|d| - 1])
  }

  /** `parseInt(s)` on a text that holds no sign, no radix prefix and no leading whitespace. */
  function ParseInt(s: string): (r: Option<nat>)
    ensures r.None? <==> s == [] || !IsDigit(s[0])
  {
    var d := LeadingDigits(s);
    if d == [] then None else Some(DecimalValue(d))
  }

  /** The decimal rendering of `n` without leading zeros: the reference that `ParseInt` inverts. */
  function ShowNat(n: nat): (d: string)
    ensures d != [] && AllDigits(d)
    ensures |d| > 1 ==> d[0] != '0'
  {
    if n < 10 then [DigitChar(n)] else ShowNat(n / 10) + [DigitChar(n % 10)]
  }

  /** Reading back a rendered number gives the number. */
  lemma {:induction false} DecimalValueShowNat(n: nat)
    ensures DecimalValue(ShowNat(n)) == n
  {
    var d := ShowNat(n);
    if n >= 10 {
      assert d[..|d| - 1] == ShowNat(n / 10);
      DecimalValueShowNat(n / 10);
    }
  }

  /** The leading-digit run of `d + rest` is `d` when `rest` does not continue the digits. */
  lemma {:induction false} LeadingDigitsAppend(d: string, rest: string)
    requires AllDigits(d)
    requires rest == [] || !IsDigit(rest[0])
    ensures LeadingDigits(d + rest) == d
  {
    if d == [] {
      assert d + rest == rest;
    } else {
      assert (d + rest)[1..] == d[1..] + rest;
      LeadingDigitsAppend(d[1..], rest);
      assert [d[0]] + d[1..] == d;
    }
  }

  /** Round trip: a rendered number followed by any text that is not a digit parses back to the number. */
  lemma ParseIntShowNat(n: nat, rest: string)
    requires rest == [] || !IsDigit(rest[0])
    ensures ParseInt(ShowNat(n) + rest) == Some(n)
  {
    LeadingDigitsAppend(ShowNat(n), rest);
    DecimalValueShowNat(n);
  }

  /** Only the leading digit run matters: whatever follows it is ignored. */
  lemma ParseIntIgnoresTail(s: string)
    ensures ParseInt(s) == ParseInt(LeadingDigits(s))
  {
    var d := LeadingDigits(s);
    if d != [] {
      LeadingDigitsAppend(d, s[|d|..]);
      assert d + s[|d|..] == s;
      LeadingDigitsAppend(d, []);
      assert d + [] == d;
    }
  }

  /** A zero in front of a digit string does not change the number it denotes. */
  lemma {:induction false} DecimalValueLeadingZero(d: string)
    requires AllDigits(d)
    ensures AllDigits(['0'] + d) && DecimalValue(['0'] + d) == DecimalValue(d)
  {
    var z := ['0'] + d;
    assert AllDigits(z) by {
      forall p | 0 <= p < |z| ensures IsDigit(z[p]) {
        if p > 0 { assert z[p] == d[p - 1]; }
      }
    }
    if d != [] {
      assert z[..|z| - 1] == ['0'] + d[..|d| - 1];
      assert z[|z| - 1] == d[|d| - 1];
      DecimalValueLeadingZero(d[..|d| - 1]);
    }
  }

  /**
   * Leading zeros are read as decimal digits of no weight: `parseInt("007")`
   * is 7. With `ParseIntShowNat` this gives the value of every leading digit run.
   */
  lemma ParseIntLeadingZero(s: string)
    requires s != [] && IsDigit(s[0])
    ensures ParseInt(['0'] + s) == ParseInt(s)
  {
    var z := ['0'] + s;
    assert z[1..] == s;
    assert LeadingDigits(z) == ['0'] + LeadingDigits(s);
    DecimalValueLeadingZero(LeadingDigits(s));
  }
}
