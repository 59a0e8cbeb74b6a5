/**
 * Character classes and the two number renderings the colour engine uses:
 * base-16 digit pairs (read by `int(..., 16)`) and decimal text (written by
 * an f-string). Only ASCII is modelled: `\w` is `[A-Za-z0-9_]` and
 * upper-casing maps `a`..`z` alone.
 */
module Chars {

  /** The escape character that starts every SGR sequence (`\033`). */
  const ESC: char := '\U{1B}'

  predicate IsDigit(c: char) {
    '0' <= c <= '9'
  }

  predicate IsLower(c: char) {
    'a' <= c <= 'z'
  }

  predicate IsUpper(c: char) {
    'A' <= c <= 'Z'
  }

  /** The regex class `\w`, restricted to ASCII. */
  predicate IsWordChar(c: char) {
    IsDigit(c) || IsUpper(c) || IsLower(c) || c == '_'
  }

  /** A character `int(..., 16)` accepts as a digit. */
  predicate IsHexDigit(c: char) {
    IsDigit(c) || 'A' <= c <= 'F' || 'a' <= c <= 'f'
  }

  predicate AllWord(t: string) {
    forall k :: 0 <= k < |t| ==> IsWordChar(t[k])
  }

  predicate AllHex(t: string) {
    forall k :: 0 <= k < |t| ==> IsHexDigit(t[k])
  }

  function HexValue(c: char): (v: nat)
    requires IsHexDigit(c)
    ensures v < 16
  {
    if IsDigit(c) then c as int - '0' as int
    else if 'A' <= c <= 'F' then c as int - 'A' as int + 10
    else c as int - 'a' as int + 10
  }

  /** The upper-case digit of a value below 16; `HexValue` reads it back. */
  function HexDigit(v: nat): (c: char)
    requires v < 16
    ensures IsHexDigit(c) && HexValue(c) == v
    ensures !IsLower(c)
  {
    if v < 10 then ('0' as int + v) as char else ('A' as int + v - 10) as char
  }

  /** `str.upper` on one ASCII character. */
  function UpperChar(c: char): (u: char)
    ensures !IsLower(u)
    ensures u != c ==> IsLower(c)
    ensures IsWordChar(u) <==> IsWordChar(c)
    ensures IsHexDigit(u) <==> IsHexDigit(c)
    ensures IsHexDigit(c) ==> HexValue(u) == HexValue(c)
  {
    if IsLower(c) then (c as int - 32) as char else c
  }

  /** `str.upper` on an ASCII string. */
  function Upper(s: string): string {
    seq(|s|, k requires 0 <= k < |s| => UpperChar(s[k]))
  }

  lemma UpperIdempotent(s: string)
    ensures Upper(Upper(s)) == Upper(s)
  {
  }

  /** Upper-casing changes no character class the tag pattern or `int` looks at. */
  lemma UpperKeepsClasses(s: string)
    ensures AllWord(Upper(s)) <==> AllWord(s)
    ensures AllHex(Upper(s)) <==> AllHex(s)
  {
    assert forall k :: 0 <= k < |s| ==> Upper(s)[k] == UpperChar(s[k]);
  }

  function DigitChar(d: nat): (c: char)
    requires d < 10
    ensures IsDigit(c)
  {
    ('0' as int + d) as char
  }

  /** `str(n)` for a non-negative integer: shortest decimal text. */
  function Decimal(n: nat): (r: string)
    ensures |r| >= 1
    ensures forall k :: 0 <= k < |r| ==> IsDigit(r[k])
    ensures r[0] == '0' <==> n == 0
    ensures r[0] == '0' ==> |r| == 1
    decreases n
  {
    if n < 10 then [DigitChar(n)] else Decimal(n / 10) + [DigitChar(n % 10)]
  }

  /** The value of a run of decimal digits (what `int(r)` would read). */
  function DecimalValue(r: string): nat
    requires forall k :: 0 <= k < |r| ==> IsDigit(r[k])
    decreases |r|
  {
    if r == [] then 0
    else
      assert IsDigit(r[|r| - 1]);
      DecimalValue(r[..|r| - 1]) * 10 + (r[|r| - 1] as int - '0' as int)
  }

  /** Reading back what `Decimal` writes gives the number again. */
  lemma {:induction false} DecimalRoundTrip(n: nat)
    ensures DecimalValue(Decimal(n)) == n
    decreases n
  {
    if n >= 10 {
      var r := Decimal(n);
      assert r[..|r| - 1] == Decimal(n / 10);
      DecimalRoundTrip(n / 10);
    }
  }

  lemma DecimalInjective(a: nat, b: nat)
    ensures Decimal(a) == Decimal(b) ==> a == b
  {
    DecimalRoundTrip(a);
    DecimalRoundTrip(b);
  }
}
