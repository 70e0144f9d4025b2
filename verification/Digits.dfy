/** Digits: fixed-width hexadecimal and plain decimal numerals, and how they are read. */
module Digits {
  const DIGITS := "0123456789abcdef"

  /** `n` low hexadecimal digits of x. */
  function Hex(x: nat, n: nat): (s: string)
    ensures |s| == n
  {
    if n == 0 then "" else Hex(x / 16, n - 1) + [DIGITS[x % 16]]
  }

  function Pow16(n: nat): nat {
    if n == 0 then 1 else 16 * Pow16(n - 1)
  }

  predicate IsDigit(c: char) {
    '0' <= c <= '9'
  }

  predicate IsHexDigit(c: char) {
    IsDigit(c) || 'a' <= c <= 'f' || 'A' <= c <= 'F'
  }

  function HexValue(c: char): (n: nat)
    requires IsHexDigit(c)
    ensures n < 16
  {
    if IsDigit(c) then c as int - '0' as int
    else if 'a' <= c then 10 + (c as int - 'a' as int)
    else 10 + (c as int - 'A' as int)
  }

  predicate AllHex(s: string) {
    forall i :: 0 <= i < |s| ==> IsHexDigit(s[i])
  }

  function ReadHex(s: string): nat
    requires AllHex(s)
  {
    if s == "" then 0 else 16 * ReadHex(s[..|s| - 1]) + HexValue(s[|s| - 1])
  }

  /** Hexadecimal digits are in lower case and read back to the number. */
  lemma {:induction false} HexReads(x: nat, n: nat)
    requires x < Pow16(n)
    ensures forall i :: 0 <= i < n ==> IsDigit(Hex(x, n)[i]) || 'a' <= Hex(x, n)[i] <= 'f'
    ensures AllHex(Hex(x, n)) && ReadHex(Hex(x, n)) == x
    decreases n
  {
    if n > 0 {
      HexReads(x / 16, n - 1);
      DigitReads(x % 16);
      var s := Hex(x, n);
      assert s[..n - 1] == Hex(x / 16, n - 1) && s[n - 1] == DIGITS[x % 16];
      hide Hex;
      assert forall i :: 0 <= i < n - 1 ==> s[i] == s[..n - 1][i];
    }
  }

  lemma DigitReads(d: nat)
    requires d < 16
    ensures IsDigit(DIGITS[d]) || 'a' <= DIGITS[d] <= 'f'
    ensures HexValue(DIGITS[d]) == d
  {
  }

  function Digit(n: nat): (c: char)
    requires n < 10
    ensures IsDigit(c) && c as int == '0' as int + n
  {
    '0' + n as char
  }

  predicate AllDigits(s: string) {
    forall i :: 0 <= i < |s| ==> IsDigit(s[i])
  }

  function Decimal(n: nat): (s: string)
    ensures s != "" && AllDigits(s)
  {
    if n < 10 then [Digit(n)] else Decimal(n / 10) + [Digit(n % 10)]
  }

  function ReadDecimal(s: string): nat
    requires AllDigits(s)
  {
    if s == "" then 0 else 10 * ReadDecimal(s[..|s| - 1]) + (s[|s| - 1] as int - '0' as int)
  }

  /** A decimal numeral reads back to the number and has no leading zero. */
  lemma {:induction false} DecimalReads(n: nat)
    ensures ReadDecimal(Decimal(n)) == n && (n > 0 ==> Decimal(n)[0] != '0')
    decreases n
  {
    var s := Decimal(n);
    if n < 10 {
      assert s[..0] == "";
    } else {
      DecimalReads(n / 10);
      assert s[..|s| - 1] == Decimal(n / 10);
    }
  }
}
