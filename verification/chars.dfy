/** Character classes and hexadecimal/decimal conversions shared by the
    escaper, the unescaper and the hash-placeholder parser. */
module Chars {

  /** `\d` in a JavaScript regular expression without the `u` flag. */
  predicate IsDigit(c: char) { '0' <= c <= '9' }

  /** `[\dA-F]`: the digits an escape produced by `escape` may contain. */
  predicate IsUpperHex(c: char) { IsDigit(c) || 'A' <= c <= 'F' }

  /** `[\dA-Fa-f]`: a hexadecimal digit in either case. */
  predicate IsHexDigit(c: char) { IsUpperHex(c) || 'a' <= c <= 'f' }

  predicate AllHex(d: string) { forall i :: 0 <= i < |d| ==> IsHexDigit(d[i]) }

  predicate AllDigits(d: string) { forall i :: 0 <= i < |d| ==> IsDigit(d[i]) }

  function HexDigitValue(c: char): (v: nat)
    requires IsHexDigit(c)
    ensures v < 16
  {
    if IsDigit(c) then c as int - '0' as int
    else if 'A' <= c <= 'F' then c as int - 'A' as int + 10
    else c as int - 'a' as int + 10
  }

  /** `Number.parseInt(d, 16)` for a non-empty string of hexadecimal digits. */
  function HexValue(d: string): nat
    requires AllHex(d)
  {
    if d == [] then 0 else 16 * HexValue(d[..|d| - 1]) + HexDigitValue(d[|d| - 1])
  }

  /** `Number.parseInt(d, 10)` for a string of decimal digits. */
  function DecimalValue(d: string): nat
    requires AllDigits(d)
  {
    if d == [] then 0 else 10 * DecimalValue(d[..|d| - 1]) + (d[|d| - 1] as int - '0' as int)
  }

  function UpperHexDigit(v: nat): (c: char)
    requires v < 16
    ensures IsUpperHex(c) && HexDigitValue(c) == v
  {
    if v < 10 then ('0' as int + v) as char else ('A' as int + v - 10) as char
  }

  /** `n.toString(16).toUpperCase()`: the digits are upper-case hexadecimal
      and read back as `n`. */
  function UpperHex(n: nat): (h: string)
    ensures 1 <= |h|
    ensures forall i :: 0 <= i < |h| ==> IsUpperHex(h[i])
    ensures HexValue(h) == n
  {
    if n < 16 then [UpperHexDigit(n)]
    else
      var h := UpperHex(n / 16) + [UpperHexDigit(n % 16)];
      assert h[..|h| - 1] == UpperHex(n / 16);
      h
  }

  function DecimalDigit(v: nat): (c: char)
    requires v < 10
    ensures IsDigit(c) && c as int - '0' as int == v
  {
    ('0' as int + v) as char
  }

  /** `String(n)` for a natural number: its decimal digits, which read
      back as `n`. */
  function DecimalString(n: nat): (d: string)
    ensures 1 <= |d| && AllDigits(d)
    ensures DecimalValue(d) == n
  {
    if n < 10 then [DecimalDigit(n)]
    else
      var d := DecimalString(n / 10) + [DecimalDigit(n % 10)];
      assert d[..|d| - 1] == DecimalString(n / 10);
      d
  }

  /** Case-folding of a JavaScript `/i` regular expression without the `u`
      flag: only ASCII letters fold onto each other. */
  function FoldCase(c: char): char
  {
    if 'A' <= c <= 'Z' then (c as int + 32) as char else c
  }

  predicate IsAsciiLetter(c: char) { 'a' <= c <= 'z' || 'A' <= c <= 'Z' }

  /** Two digit strings with the same hexadecimal digit values read back the
      same; in particular upper- and lower-case spellings agree. */
  lemma {:induction false} HexValueRespectsDigitValues(a: string, b: string)
    requires AllHex(a) && AllHex(b) && |a| == |b|
    requires forall i :: 0 <= i < |a| ==> HexDigitValue(a[i]) == HexDigitValue(b[i])
    ensures HexValue(a) == HexValue(b)
  {
    if a != [] {
      HexValueRespectsDigitValues(a[..|a| - 1], b[..|b| - 1]);
    }
  }

  /** Appending a digit to a hexadecimal string. */
  lemma HexValueSnoc(d: string, c: char)
    requires AllHex(d) && IsHexDigit(c)
    ensures AllHex(d + [c]) && HexValue(d + [c]) == 16 * HexValue(d) + HexDigitValue(c)
  {
    assert (d + [c])[..|d|] == d;
  }
}
