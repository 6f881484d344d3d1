/** Two-digit hexadecimal colour components as the colour helpers read
    them with `u8::from_str_radix(_, 16)`: digits in either case, and Rust's
    acceptance of one leading `+` ("+f" reads as 15). */
module Hex {
  import opened Wrappers

  type u8 = x: int | 0 <= x < 256

  function DigitValue(c: char): (r: Option<nat>)
    ensures r.Some? ==> r.value < 16
  {
    if '0' <= c <= '9' then Some(c as int - '0' as int)
    else if 'a' <= c <= 'f' then Some(c as int - 'a' as int + 10)
    else if 'A' <= c <= 'F' then Some(c as int - 'A' as int + 10)
    else None
  }

  /** The lower-case digit for `d`. */
  function DigitChar(d: nat): (c: char)
    requires d < 16
    ensures DigitValue(c) == Some(d)
    ensures c != '+' && c != '#'
  {
    if d < 10 then ('0' as int + d) as char else ('a' as int + d - 10) as char
  }

  /** `u8::from_str_radix(s, 16)` on a two-character string. */
  function ParseByte(s: string): (r: Option<u8>)
    requires |s| == 2
  {
    if s[0] == '+' then
      match DigitValue(s[1])
      case Some(d) => Some(d)
      case None => None
    else
      match (DigitValue(s[0]), DigitValue(s[1]))
      case (Some(hi), Some(lo)) => Some(16 * hi + lo)
      case _ => None
  }

  /** The lower-case two-digit rendering of a component. */
  function Hex2(n: u8): (r: string)
    ensures |r| == 2 && r[0] != '+' && r[0] != '#'
  {
    [DigitChar(n / 16), DigitChar(n % 16)]
  }

  /** Encoding then parsing gives back the component. */
  lemma ParseHex2(n: u8)
    ensures ParseByte(Hex2(n)) == Some(n)
  {
  }

  /** Conversely, a component parsed from two digits (no sign) is rendered
      back as the same digits up to case. */
  lemma Hex2OfParse(s: string)
    requires |s| == 2 && s[0] != '+'
    requires ParseByte(s).Some?
    ensures DigitValue(Hex2(ParseByte(s).value)[0]) == DigitValue(s[0])
    ensures DigitValue(Hex2(ParseByte(s).value)[1]) == DigitValue(s[1])
  {
    var hi := DigitValue(s[0]).value;
    var lo := DigitValue(s[1]).value;
    assert ParseByte(s).value == 16 * hi + lo;
    assert (16 * hi + lo) / 16 == hi;
    assert (16 * hi + lo) % 16 == lo;
  }

  /** Exactly which two-character strings parse: two digits, or `+` and a
      digit. Anything else, `-f` and `++` included, is rejected. */
  lemma ParseByteAccepts(s: string)
    requires |s| == 2
    ensures ParseByte(s).Some? <==>
              (DigitValue(s[0]).Some? && DigitValue(s[1]).Some?) || (s[0] == '+' && DigitValue(s[1]).Some?)
    ensures s[0] == '+' && DigitValue(s[1]).Some? ==> ParseByte(s) == Some(DigitValue(s[1]).value)
  {
  }
}
