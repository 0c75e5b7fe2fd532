/** Lower-case hexadecimal digits. */
module Hex {
  import opened Identities

  const HEX_DIGITS: string := "0123456789abcdef"

  function HexDigit(d: nat): char
    requires d < 16
  {
    HEX_DIGITS[d]
  }

  /** Readers take either case. */
  function HexValue(c: char): Option<nat> {
    if '0' <= c <= '9' then Some(c as nat - '0' as nat)
    else if 'a' <= c <= 'f' then Some(c as nat - 'a' as nat + 10)
    else if 'A' <= c <= 'F' then Some(c as nat - 'A' as nat + 10)
    else None
  }

  lemma HexDigitValue(d: nat)
    requires d < 16
    ensures HexValue(HexDigit(d)) == Some(d) && 0x20 <= HexDigit(d) as nat < 0x80 && !('A' <= HexDigit(d) <= 'F')
  {
  }
}
