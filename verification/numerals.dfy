/** Decimal rendering of the cadence, as Rust's `Display` for `i32` writes it
    in `writeln!(output_file, "            <Cadence>{}</Cadence>", cadence)`:
    an optional minus sign and the digits without leading zeros. `ParseInt`
    reads such a numeral back and is the partner that pins the rendering down. */
module Numerals {
  import opened Wrappers

  predicate IsDigitChar(c: char) {
    '0' <= c <= '9'
  }

  function DigitChar(d: nat): (c: char)
    requires d < 10
    ensures IsDigitChar(c) && c as int - '0' as int == d
  {
    ('0' as int + d) as char
  }

  /** Decimal digits of `n`, most significant first. */
  function NatToString(n: nat): (s: string)
    ensures |s| >= 1 && forall j :: 0 <= j < |s| ==> IsDigitChar(s[j])
    ensures s[0] == '0' ==> s == "0"
    decreases n
  {
    if n < 10 then [DigitChar(n)] else NatToString(n / 10) + [DigitChar(n % 10)]
  }

  /** The value of a string of decimal digits. */
  function DigitsValue(s: string): nat
    requires forall j :: 0 <= j < |s| ==> IsDigitChar(s[j])
    decreases |s|
  {
    if s == [] then 0
    else
      assert IsDigitChar(s[|s| - 1]);
      DigitsValue(s[..|s| - 1]) * 10 + (s[|s| - 1] as int - '0' as int)
  }

  /** A numeral as `i32`'s `Display` writes it. */
  function IntToString(n: int): (s: string)
    ensures |s| >= 1 && (s[0] == '-' <==> n < 0)
  {
    if n < 0 then "-" + NatToString(-n) else NatToString(n)
  }

  /** Reads back a numeral written by `IntToString`: a non-empty run of digits,
      optionally after a minus sign, with no leading zero and no "-0". */
  function ParseInt(s: string): Option<int> {
    if |s| >= 1 && s[0] == '-' then
      var t := s[1..];
      if |t| >= 1 && (forall j :: 0 <= j < |t| ==> IsDigitChar(t[j])) && t[0] != '0' then
        Some(-(DigitsValue(t) as int))
      else None
    else if |s| >= 1 && (forall j :: 0 <= j < |s| ==> IsDigitChar(s[j])) && (s[0] == '0' ==> |s| == 1) then
      Some(DigitsValue(s))
    else None
  }

  /** The digits of `n` are worth `n`. */
  lemma {:induction false} NatToStringValue(n: nat)
    ensures DigitsValue(NatToString(n)) == n
    decreases n
  {
    if n >= 10 {
      NatToStringValue(n / 10);
      var s := NatToString(n);
      assert s[..|s| - 1] == NatToString(n / 10);
    }
  }

  /** Rendering then reading gives back the number. */
  lemma IntRoundTrip(n: int)
    ensures ParseInt(IntToString(n)) == Some(n)
  {
    var s := IntToString(n);
    if n < 0 {
      NatToStringValue(-n);
      var t := NatToString(-n);
      assert s == "-" + t && s[1..] == t;
      assert t[0] != '0';
      assert ParseInt(s) == Some(-(DigitsValue(t) as int));
    } else {
      NatToStringValue(n);
      assert s == NatToString(n) && s[0] != '-';
      assert ParseInt(s) == Some(DigitsValue(s));
    }
  }

  /** A rendered numeral holds only digits and possibly a leading minus sign. */
  lemma IntToStringBytes(n: int, j: nat)
    requires j < |IntToString(n)|
    ensures IsDigitChar(IntToString(n)[j]) || (j == 0 && n < 0 && IntToString(n)[j] == '-')
  {
  }
}
