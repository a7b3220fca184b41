/** Numbers written in decimal or hexadecimal digits. */
module Numerals {

  function DigitChar(d: nat): char
    requires d < 16
  {
    if d < 10 then '0' + d as char else 'a' + (d - 10) as char
  }

  predicate IsDigit(c: char) {
    '0' <= c <= '9' || 'a' <= c <= 'f'
  }

  function Digits(n: nat, base: int): (s: string)
    requires base == 10 || base == 16
    ensures s != [] && forall i :: 0 <= i < |s| ==> IsDigit(s[i])
  {
    if n < base then [DigitChar(n)]
    else if base == 10 then Digits(n / 10, base) + [DigitChar(n % 10)]
    else Digits(n / 16, base) + [DigitChar(n % 16)]
  }
}
