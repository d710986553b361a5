/** Decimal text for integers, as JavaScript's `Number.prototype.toString()` writes
    it for integers of magnitude below 10^21 (from 10^21 up it switches to exponent
    notation, which is not modelled), `String.prototype.padStart` with a
    one-character fill, and the parsing that reads such text back. */
module Decimal {

  datatype Option<T> = None | Some(value: T)

  predicate IsDigit(c: char)
  {
    '0' <= c <= '9'
  }

  predicate AllDigits(s: string)
  {
    forall i :: 0 <= i < |s| ==> IsDigit(s[i])
  }

  function DigitChar(d: int): char
    requires 0 <= d < 10
  {
    ('0' as int + d) as char
  }

  function DigitValue(c: char): nat
    requires IsDigit(c)
  {
    (c as int - '0' as int) as nat
  }

  /** Decimal digits of `n`, most significant first, with no leading zero. */
  function NatToString(n: nat): string
  {
    if n < 10 then [DigitChar(n)]
    else NatToString(n / 10) + [DigitChar(n % 10)]
  }

  /** Decimal text of an integer: a minus sign before the digits of its magnitude
      when it is negative. */
  function IntToString(i: int): string
  {
    if i < 0 then "-" + NatToString(-i) else NatToString(i)
  }

  /** The number a string of decimal digits denotes (the empty string denotes 0). */
  function DecimalValue(s: string): nat
    requires AllDigits(s)
  {
    if s == [] then 0
    else DecimalValue(s[..|s| - 1]) * 10 + DigitValue(s[|s| - 1])
  }

  /** Reads an optionally negative decimal integer; anything else is rejected. */
  function ParseInt(s: string): Option<int>
  {
    if |s| >= 2 && s[0] == '-' && AllDigits(s[1..]) then Some(-(DecimalValue(s[1..]) as int))
    else if |s| >= 1 && AllDigits(s) then Some(DecimalValue(s))
    else None
  }

  /** `fill` repeated `n` times. */
  function Repeat(fill: char, n: nat): (r: string)
    ensures |r| == n
    ensures forall i :: 0 <= i < n ==> r[i] == fill
  {
    if n == 0 then [] else [fill] + Repeat(fill, n - 1)
  }

  /** `s` padded on the left with `fill` up to `width` characters; a string already
      that long is left as it is. */
  function PadStart(s: string, width: nat, fill: char): (r: string)
    ensures |s| >= width ==> r == s
    ensures |s| < width ==> |r| == width && r[width - |s|..] == s
    ensures forall i :: 0 <= i < |r| - |s| ==> r[i] == fill
  {
    if |s| >= width then s else Repeat(fill, width - |s|) + s
  }

  /** Rendering a natural number gives digits only, no leading zero, at least one
      character, and the digits read back as the same number. */
  lemma {:induction false} NatToStringRoundTrip(n: nat)
    ensures AllDigits(NatToString(n))
    ensures |NatToString(n)| >= 1
    ensures |NatToString(n)| > 1 ==> NatToString(n)[0] != '0'
    ensures DecimalValue(NatToString(n)) == n
  {
    if n >= 10 {
      NatToStringRoundTrip(n / 10);
      var s := NatToString(n);
      assert s[..|s| - 1] == NatToString(n / 10);
      assert s[0] == NatToString(n / 10)[0];
    }
  }

  /** Numbers below 10 take one digit, numbers from 10 to 99 take two. */
  lemma NatToStringLength(n: nat)
    ensures n < 10 ==> |NatToString(n)| == 1
    ensures 10 <= n < 100 ==> |NatToString(n)| == 2
  {
  }

  /** A leading zero does not change the value of a digit string. */
  lemma {:induction false} LeadingZero(s: string)
    requires AllDigits(s)
    ensures AllDigits("0" + s)
    ensures DecimalValue("0" + s) == DecimalValue(s)
    decreases |s|
  {
    if s != [] {
      var t := "0" + s;
      assert t[..|t| - 1] == "0" + s[..|s| - 1];
      LeadingZero(s[..|s| - 1]);
    }
  }

  /** Digit text is read by the unsigned branch of `ParseInt`. */
  lemma ParseDigits(s: string)
    requires |s| >= 1 && AllDigits(s)
    ensures ParseInt(s) == Some(DecimalValue(s) as int)
  {
    assert IsDigit(s[0]);
  }

  /** A minus sign before digit text is read by the signed branch of `ParseInt`. */
  lemma ParseNegative(digits: string)
    requires |digits| >= 1 && AllDigits(digits)
    ensures ParseInt("-" + digits) == Some(-(DecimalValue(digits) as int))
  {
    assert ("-" + digits)[1..] == digits;
  }

  /** Text of a negative integer reads back as that integer. */
  lemma NegativeRoundTrip(i: int, digits: string)
    requires i < 0 && |digits| >= 1 && AllDigits(digits) && DecimalValue(digits) == -i
    ensures ParseInt("-" + digits) == Some(i)
  {
    ParseNegative(digits);
  }

  /** Integer text reads back as the same integer. */
  lemma IntToStringRoundTrip(i: int)
    ensures ParseInt(IntToString(i)) == Some(i)
  {
    if i < 0 {
      NatToStringRoundTrip(-i);
      NegativeRoundTrip(i, NatToString(-i));
    } else {
      NatToStringRoundTrip(i);
      ParseDigits(NatToString(i));
    }
  }

  /** `n.toString().padStart(2, '0')`: a two-digit field for 0..99. */
  function Pad2(n: nat): (r: string)
    ensures n < 100 ==> |r| == 2 && AllDigits(r) && DecimalValue(r) == n
    ensures n < 10 ==> r[0] == '0'
    ensures n >= 100 ==> r == NatToString(n)
  {
    NatToStringRoundTrip(n);
    NatToStringLength(n);
    PadOneDigit(n);
    PadStart(NatToString(n), 2, '0')
  }

  /** A single digit is padded with exactly one leading zero. */
  lemma PadOneDigit(n: nat)
    ensures n < 10 ==> PadStart(NatToString(n), 2, '0') == "0" + NatToString(n)
    ensures n < 10 ==> DecimalValue("0" + NatToString(n)) == n
  {
    if n < 10 {
      NatToStringRoundTrip(n);
      LeadingZero(NatToString(n));
      assert Repeat('0', 1) == "0";
    }
  }
}
