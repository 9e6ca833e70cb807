/** Amounts sent by the bank as decimal text, read as whole cents in 64-bit signed arithmetic. */
module Amounts {
  import opened Wrappers

  const I64_MAX := 0x7fff_ffff_ffff_ffff
  const I64_MIN := -0x8000_0000_0000_0000

  datatype Reading = Cents(value: int) | Malformed | Overflow

  predicate Fits(n: int) {
    I64_MIN <= n <= I64_MAX
  }

  predicate IsSpace(c: char) {
    c == ' ' || '\t' <= c <= '\r'
  }

  function TrimStart(s: string): string {
    if s != "" && IsSpace(s[0]) then TrimStart(s[1..]) else s
  }

  function TrimEnd(s: string): string {
    if s != "" && IsSpace(s[|s| - 1]) then TrimEnd(s[..|s| - 1]) else s
  }

  function Trim(s: string): string {
    TrimEnd(TrimStart(s))
  }

  predicate IsDigit(c: char) {
    '0' <= c <= '9'
  }

  predicate AllDigits(s: string) {
    forall i :: 0 <= i < |s| ==> IsDigit(s[i])
  }

  function DigitValue(c: char): nat
    requires IsDigit(c)
  {
    c as int - '0' as int
  }

  function WholeValue(s: string): nat
    requires AllDigits(s)
  {
    if s == "" then 0 else 10 * WholeValue(s[..|s| - 1]) + DigitValue(s[|s| - 1])
  }

  /** A 64-bit integer: an optional sign, then digits. */
  function ParseInteger(s: string): Option<int> {
    var digits := if s != "" && (s[0] == '-' || s[0] == '+') then s[1..] else s;
    if digits == "" || !AllDigits(digits) then None
    else
      var n: int := if s[0] == '-' then 0 - WholeValue(digits) else WholeValue(digits);
      if Fits(n) then Some(n) else None
  }

  /** Place of the first decimal point, or the end. */
  function PointAt(s: string): (i: nat)
    ensures i <= |s|
    ensures forall k :: 0 <= k < i ==> s[k] != '.'
    ensures i < |s| ==> s[i] == '.'
  {
    if s == "" || s[0] == '.' then 0 else 1 + PointAt(s[1..])
  }

  function WholePart(s: string): string {
    s[..PointAt(s)]
  }

  function DecimalPart(s: string): string {
    if PointAt(s) < |s| then s[PointAt(s) + 1..] else ""
  }

  function DigitAt(decimals: string, i: nat): nat
    requires AllDigits(decimals)
  {
    if i < |decimals| then DigitValue(decimals[i]) else 0
  }

  /** Cents of the decimals, rounded on the third one. */
  function RoundedCents(decimals: string): nat
    requires AllDigits(decimals)
  {
    DigitAt(decimals, 0) * 10 + DigitAt(decimals, 1) + if DigitAt(decimals, 2) >= 5 then 1 else 0
  }

  function Combine(sign: int, whole: int, cents: nat): Reading {
    if Fits(whole * 100) && Fits(whole * 100 + cents) && Fits(sign * (whole * 100 + cents))
    then Cents(sign * (whole * 100 + cents)) else Overflow
  }

  function SignOf(s: string): int {
    if s != "" && s[0] == '-' then -1 else 1
  }

  function WithoutSign(s: string): string {
    if s != "" && (s[0] == '-' || s[0] == '+') then s[1..] else s
  }

  function Parse(text: string): Reading {
    var trimmed := Trim(text);
    var digits := WithoutSign(trimmed);
    var (whole, decimals) := (WholePart(digits), DecimalPart(digits));
    if !AllDigits(decimals) then Malformed
    else if whole == "" then Combine(SignOf(trimmed), 0, RoundedCents(decimals))
    else match ParseInteger(whole)
      case None => Malformed
      case Some(n) => Combine(SignOf(trimmed), n, RoundedCents(decimals))
  }

  // ----- Printing with two decimals

  function DigitOf(n: nat): char
    requires n < 10
  {
    ('0' as int + n) as char
  }

  function PrintWhole(n: nat): string {
    if n < 10 then [DigitOf(n)] else PrintWhole(n / 10) + [DigitOf(n % 10)]
  }

  function Print(cents: int): string {
    var n := if cents < 0 then -cents else cents;
    (if cents < 0 then "-" else "") + PrintWhole(n / 100) + "." + [DigitOf(n % 100 / 10), DigitOf(n % 10)]
  }
}
