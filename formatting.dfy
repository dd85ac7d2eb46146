/**
 * The text the tables put in their cells: Rust's `to_string` of an integer
 * (decimal, a leading '-' for negatives), numbers followed by a unit as
 * `format!("{} MHz", n)` builds them, and the colon-separated hexadecimal form
 * of a MAC address. Each numeric form is paired with a parser and a round-trip
 * lemma, so a cell is known to show exactly the number it was built from.
 */
module Formatting {
  import opened Wrappers
  import opened Kawaiifi

  predicate IsDigit(c: char) {
    '0' <= c <= '9'
  }

  predicate AllDigits(s: string) {
    forall i :: 0 <= i < |s| ==> IsDigit(s[i])
  }

  function DigitChar(d: nat): (c: char)
    requires d < 10
    ensures IsDigit(c) && c as int - '0' as int == d
  {
    (d + '0' as int) as char
  }

  /** Rust's `to_string` of an unsigned integer: its decimal digits without leading zeros. */
  function NatText(n: nat): (s: string)
    ensures |s| > 0 && AllDigits(s)
    ensures |s| > 1 ==> s[0] != '0'
    decreases n
  {
    if n < 10 then [DigitChar(n)] else NatText(n / 10) + [DigitChar(n % 10)]
  }

  /** Rust's `to_string` of a signed integer. */
  function IntText(n: int): string {
    if n < 0 then "-" + NatText(-n) else NatText(n)
  }

  /** The value of a string of decimal digits, most significant digit first. */
  function DigitsValue(s: string): nat
    requires AllDigits(s)
  {
    if |s| == 0 then 0 else DigitsValue(s[..|s| - 1]) * 10 + (s[|s| - 1] as int - '0' as int)
  }

  /** Reads back an optionally negative decimal integer; `None` for anything else. */
  function ParseInt(s: string): Option<int> {
    if |s| > 1 && s[0] == '-' && AllDigits(s[1..]) then Some(-(DigitsValue(s[1..]) as int))
    else if |s| > 0 && AllDigits(s) then Some(DigitsValue(s))
    else None
  }

  lemma {:induction false} NatTextValue(n: nat)
    ensures DigitsValue(NatText(n)) == n
    decreases n
  {
    if n >= 10 {
      NatTextValue(n / 10);
      var s := NatText(n);
      assert s[..|s| - 1] == NatText(n / 10);
    }
  }

  lemma IntTextRoundTrip(n: int)
    ensures ParseInt(IntText(n)) == Some(n)
  {
    if n < 0 {
      NatTextValue(-n);
      assert IntText(n)[1..] == NatText(-n);
    } else {
      NatTextValue(n);
    }
  }

  /** A number followed by its unit, as `format!("{} dBm", n)` prints it. */
  function WithUnit(n: int, unit: string): string {
    IntText(n) + unit
  }

  /** Reads back the number in front of `unit`; `None` when the text does not end in `unit`. */
  function ParseWithUnit(s: string, unit: string): Option<int> {
    if |s| >= |unit| && s[|s| - |unit|..] == unit then ParseInt(s[..|s| - |unit|]) else None
  }

  lemma WithUnitRoundTrip(n: int, unit: string)
    ensures ParseWithUnit(WithUnit(n, unit), unit) == Some(n)
  {
    var s := WithUnit(n, unit);
    assert s[..|s| - |unit|] == IntText(n);
    assert s[|s| - |unit|..] == unit;
    IntTextRoundTrip(n);
  }

  function HexDigit(d: nat): char
    requires d < 16
  {
    "0123456789abcdef"[d]
  }

  function OctetText(b: Byte): string {
    [HexDigit(b / 16), HexDigit(b % 16)]
  }

  /** A MAC address as two lower-case hexadecimal digits per octet, separated by ':'. */
  function MacText(octets: seq<Byte>): (s: string)
    ensures |octets| > 0 ==> |s| == 3 * |octets| - 1
    ensures forall i :: 0 <= i < |octets| ==> s[3 * i..3 * i + 2] == OctetText(octets[i])
  {
    if |octets| == 0 then ""
    else if |octets| == 1 then OctetText(octets[0])
    else OctetText(octets[0]) + ":" + MacText(octets[1..])
  }
}
