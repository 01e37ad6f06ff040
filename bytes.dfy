/** Bytes, the ASCII bytes the Q encoding talks about, and hexadecimal digits. */
module Bytes {
  import opened Wrappers

  /** An unsigned octet; Java's signed `byte` is read as `b & 0xFF`. */
  type byte = x: int | 0 <= x < 256

  const SPACE: byte := 0x20
  const EQUALS: byte := 0x3D
  const QUESTION: byte := 0x3F
  const UNDERSCORE: byte := 0x5F
  const CR: byte := 0x0D
  const LF: byte := 0x0A

  predicate IsUpperHexDigit(b: byte) {
    (0x30 <= b <= 0x39) || (0x41 <= b <= 0x46)
  }

  /** The uppercase hexadecimal digit of a nibble, as an ASCII byte. */
  function HexDigit(n: int): (d: byte)
    requires 0 <= n < 16
    ensures IsUpperHexDigit(d)
    ensures HexValue(d) == Some(n)
  {
    if n < 10 then 0x30 + n else 0x41 + (n - 10)
  }

  /** The value of an ASCII hexadecimal digit of either case, or None for any
      other byte. */
  function HexValue(b: byte): (v: Option<int>)
    ensures v.Some? <==> (0x30 <= b <= 0x39) || (0x41 <= b <= 0x46) || (0x61 <= b <= 0x66)
    ensures v.Some? ==> 0 <= v.value < 16
  {
    if 0x30 <= b <= 0x39 then Some(b - 0x30)
    else if 0x41 <= b <= 0x46 then Some(b - 0x41 + 10)
    else if 0x61 <= b <= 0x66 then Some(b - 0x61 + 10)
    else None
  }

  /** Every uppercase digit is the digit of exactly one nibble. */
  lemma HexDigitOnto(d: byte)
    requires IsUpperHexDigit(d)
    ensures HexValue(d).Some? && HexDigit(HexValue(d).value) == d
  {
  }
}
