/** Rust's `i8`, its decimal `to_string`, and `str::parse::<i8>`. */
module Int8 {
  import opened Text

  newtype i8 = x: int | -128 <= x < 128

  predicate IsDigit(c: char) {
    '0' <= c <= '9'
  }

  /** A non-empty run of decimal digits. */
  predicate AllDigits(s: string) {
    |s| > 0 && forall i :: 0 <= i < |s| ==> IsDigit(s[i])
  }

  function DigitChar(d: nat): (c: char)
    requires d < 10
    ensures IsDigit(c)
  {
    ('0' as int + d) as char
  }

  function DigitValue(c: char): (d: nat)
    requires IsDigit(c)
    ensures d < 10
  {
    c as int - '0' as int
  }

  /** The value of a run of decimal digits, most significant first. */
  function DigitsValue(s: string): nat
    requires forall i :: 0 <= i < |s| ==> IsDigit(s[i])
    decreases |s|
  {
    if s == [] then 0
    else DigitsValue(s[..|s| - 1]) * 10 + DigitValue(s[|s| - 1])
  }

  /** Decimal text of a natural number, without leading zeros. */
  function NatToString(n: nat): (s: string)
    ensures AllDigits(s)
    decreases n
  {
    if n < 10 then [DigitChar(n)]
    else NatToString(n / 10) + [DigitChar(n % 10)]
  }

  /** `i8::to_string`: a minus sign for negative values, then the digits. */
  function I8ToString(n: i8): (s: string)
    ensures s != [] && s[0] != '+'
    ensures forall i :: 0 <= i < |s| ==> s[i] == '-' || IsDigit(s[i])
  {
    if n < 0 then "-" + NatToString(-(n as int)) else NatToString(n as int)
  }

  /** `str::parse::<i8>`: an optional '+' or '-', then at least one decimal
      digit and nothing else, with a value in -128..127. */
  function ParseI8(s: string): (r: Option<i8>)
    ensures (forall i :: 0 <= i < |s| ==> !IsDigit(s[i])) ==> r == None
  {
    if s == [] then None
    else if (s[0] == '+' || s[0] == '-') && |s| == 1 then None
    else
      var digits := if s[0] == '+' || s[0] == '-' then s[1..] else s;
      if !AllDigits(digits) then None
      else
        var magnitude: int := DigitsValue(digits);
        var v: int := if s[0] == '-' then -magnitude else magnitude;
        if -128 <= v < 128 then Some(v as i8) else None
  }

  /** `parse::<i8>().unwrap_or_default()`: text that is not an i8 reads as 0. */
  function ParseI8OrZero(s: string): (v: i8)
    ensures ParseI8(s).Some? ==> v == ParseI8(s).value
    ensures ParseI8(s).None? ==> v == 0
  {
    match ParseI8(s)
    case Some(x) => x
    case None => 0
  }

  lemma {:induction false} NatToStringValue(n: nat)
    ensures DigitsValue(NatToString(n)) == n
    decreases n
  {
    var s := NatToString(n);
    if n >= 10 {
      NatToStringValue(n / 10);
      assert s[..|s| - 1] == NatToString(n / 10);
    }
  }

  /** The decimal text of every i8 parses back to that i8. */
  lemma I8RoundTrip(n: i8)
    ensures ParseI8(I8ToString(n)) == Some(n)
  {
    if n < 0 {
      var digits := NatToString(-(n as int));
      NatToStringValue(-(n as int));
      assert ("-" + digits)[1..] == digits;
    } else {
      NatToStringValue(n as int);
    }
  }
}
