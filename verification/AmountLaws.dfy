/** Reading an amount is exact to the nearest cent, printing then reading gives it back, and which texts
    are accepted. */
module AmountLaws {
  import opened Amounts
  import opened Wrappers

  /** The amount a decimal part stands for. */
  function Fraction(decimals: string): real
    requires AllDigits(decimals)
  {
    if decimals == "" then 0.0 else (DigitValue(decimals[0]) as real + Fraction(decimals[1..])) / 10.0
  }

  lemma {:induction false} FractionIsBelowOne(decimals: string)
    requires AllDigits(decimals)
    ensures 0.0 <= Fraction(decimals) < 1.0
  {
    if decimals != "" {
      FractionIsBelowOne(decimals[1..]);
    }
  }

  function Tail(s: string, n: nat): string {
    if n <= |s| then s[n..] else ""
  }

  lemma FractionUnfolds(decimals: string, n: nat)
    requires AllDigits(decimals)
    ensures AllDigits(Tail(decimals, n)) && AllDigits(Tail(decimals, n + 1))
    ensures 10.0 * Fraction(Tail(decimals, n)) == DigitAt(decimals, n) as real + Fraction(Tail(decimals, n + 1))
  {
    if n < |decimals| {
      assert decimals[n..][1..] == decimals[n + 1..];
    }
  }

  /** Reading three decimals is enough: the cents are the nearest, a half going up. */
  lemma CentsAreNearest(decimals: string)
    requires AllDigits(decimals)
    ensures -0.5 <= 100.0 * Fraction(decimals) - RoundedCents(decimals) as real < 0.5
    ensures RoundedCents(decimals) <= 100
  {
    assert Tail(decimals, 0) == decimals;
    FractionUnfolds(decimals, 0);
    FractionUnfolds(decimals, 1);
    FractionUnfolds(decimals, 2);
    FractionIsBelowOne(Tail(decimals, 3));
  }

  /** Optional sign, digits, optionally a point and digits; any part may be missing. */
  predicate WellFormed(s: string) {
    AllDigits(WholePart(WithoutSign(s))) && AllDigits(DecimalPart(WithoutSign(s)))
  }

  /** The unsigned amount of a well-formed text. */
  function Value(s: string): real
    requires WellFormed(s)
  {
    WholeValue(WholePart(WithoutSign(s))) as real + Fraction(DecimalPart(WithoutSign(s)))
  }

  /** The nearest number of cents, halves away from zero. */
  ghost predicate Nearest(cents: nat, value: real) {
    -0.5 <= 100.0 * value - cents as real < 0.5
  }

  lemma NearestIsUnique(a: nat, b: nat, value: real)
    requires Nearest(a, value) && Nearest(b, value)
    ensures a == b
  {
  }

  lemma DigitsAreNoSign(s: string)
    requires AllDigits(s) && s != ""
    ensures ParseInteger(s) == if WholeValue(s) <= I64_MAX then Some(WholeValue(s)) else None
  {
    assert IsDigit(s[0]);
  }

  /** Every well-formed text is read as its nearest cent, halves away from zero, exactly when those cents
      fit in 64 bits; otherwise it is refused, or overflows if only the whole part fits. */
  lemma WellFormedIsReadExactly(text: string, cents: nat)
    requires WellFormed(Trim(text))
    requires Nearest(cents, Value(Trim(text)))
    ensures cents <= I64_MAX ==> Parse(text) == Cents(SignOf(Trim(text)) * cents)
    ensures cents > I64_MAX ==>
      Parse(text) == if WholeValue(WholePart(WithoutSign(Trim(text)))) <= I64_MAX then Overflow else Malformed
  {
    var s := Trim(text);
    var (whole, decimals) := (WholePart(WithoutSign(s)), DecimalPart(WithoutSign(s)));
    CentsAreNearest(decimals);
    var read := WholeValue(whole) * 100 + RoundedCents(decimals);
    NearestIsUnique(read, cents, Value(s));
    if whole != "" {
      DigitsAreNoSign(whole);
    }
  }

  /** A bound on the whole part that always keeps the cents within 64 bits, and is the largest one. */
  lemma WholePartBound(whole: nat, decimals: string)
    requires AllDigits(decimals)
    ensures whole <= 92233720368547757 ==> whole * 100 + RoundedCents(decimals) <= I64_MAX
    ensures whole > 92233720368547758 ==> whole * 100 + RoundedCents(decimals) > I64_MAX
    ensures whole == 92233720368547758 ==>
      (whole * 100 + RoundedCents(decimals) <= I64_MAX <==> RoundedCents(decimals) <= 7)
  {
    CentsAreNearest(decimals);
  }

  /** A second sign in front of the digits, which the integer parser of the language lets through. */
  predicate DoubleSigned(s: string) {
    var whole := WholePart(WithoutSign(s));
    && AllDigits(DecimalPart(WithoutSign(s)))
    && |whole| >= 2 && (whole[0] == '-' || whole[0] == '+') && AllDigits(whole[1..])
    && Fits(if whole[0] == '-' then 0 - WholeValue(whole[1..]) else WholeValue(whole[1..]))
  }

  /** Malformed texts are refused, except those with a second sign. */
  lemma AcceptedTexts(text: string)
    ensures var s := Trim(text);
      Parse(text) != Malformed <==>
        || (WellFormed(s) && WholeValue(WholePart(WithoutSign(s))) <= I64_MAX)
        || DoubleSigned(s)
  {
    var s := Trim(text);
    var whole := WholePart(WithoutSign(s));
    if AllDigits(whole) && whole != "" {
      DigitsAreNoSign(whole);
      assert IsDigit(whole[0]);
    }
  }

  lemma TrimNothing(s: string)
    requires s != "" ==> !IsSpace(s[0]) && !IsSpace(s[|s| - 1])
    ensures Trim(s) == s
  {
  }

  function SecondSign(s: string): int
    requires DoubleSigned(s)
  {
    if WholePart(WithoutSign(s))[0] == '-' then -1 else 1
  }

  /** The digits of the whole part, behind the second sign. */
  function SignedWhole(s: string): nat
    requires DoubleSigned(s)
  {
    WholeValue(WholePart(WithoutSign(s))[1..])
  }

  /** With a second sign the amount that both signs give is read exactly when it fits and the second sign is
      a plus or there are no cents: behind a minus the cents are added on the wrong side. */
  lemma DoubleSignReadRightExactly(text: string)
    requires DoubleSigned(Trim(text))
    ensures var s := Trim(text);
      var (n, cents) := (SignedWhole(s), RoundedCents(DecimalPart(WithoutSign(s))));
      && (Parse(text) == Cents(SignOf(s) * SecondSign(s) * (n * 100 + cents)) <==>
            (SecondSign(s) == 1 || cents == 0) && n * 100 + cents <= I64_MAX)
      && (SecondSign(s) == -1 && n * 100 <= I64_MAX ==> Parse(text) == Cents(SignOf(s) * (cents - n * 100)))
  {
    var s := Trim(text);
    var whole := WholePart(WithoutSign(s));
    CentsAreNearest(DecimalPart(WithoutSign(s)));
    assert ParseInteger(whole) == Some(SecondSign(s) * SignedWhole(s));
  }

  /** Such a text: the second sign is a minus, and there are cents. */
  lemma DoubleSignMisread()
    ensures Parse("+-5.25") == Cents(-475)
  {
    var s := "+-5.25";
    TrimNothing(s);
    var digits := WithoutSign(s);
    assert digits == "-5.25";
    assert PointAt("5.25") == 1 by {
      assert "5.25"[1..] == ".25";
      assert PointAt(".25") == 0;
    }
    assert PointAt(digits) == 2 by {
      assert digits[1..] == "5.25";
    }
    var (whole, decimals) := (WholePart(digits), DecimalPart(digits));
    assert whole == "-5" && decimals == "25";
    assert whole[1..] == "5" && "5"[..0] == "";
    assert WholeValue("5") == 5;
    assert ParseInteger(whole) == Some(-5);
    assert RoundedCents(decimals) == 25;
  }

  // ----- Printing and reading back

  lemma {:induction false} PrintWholeIsDigits(n: nat)
    ensures AllDigits(PrintWhole(n)) && PrintWhole(n) != "" && WholeValue(PrintWhole(n)) == n
  {
    if n >= 10 {
      PrintWholeIsDigits(n / 10);
      var (init, last) := (PrintWhole(n / 10), DigitOf(n % 10));
      assert (init + [last])[..|init|] == init;
    } else {
      assert PrintWhole(n)[..0] == "";
    }
  }

  lemma {:induction false} PointAfterDigits(whole: string, decimals: string)
    requires AllDigits(whole)
    ensures PointAt(whole + "." + decimals) == |whole|
  {
    var s := whole + "." + decimals;
    if whole != "" {
      assert IsDigit(whole[0]);
      assert s[1..] == whole[1..] + "." + decimals;
      PointAfterDigits(whole[1..], decimals);
    }
  }

  lemma PartsOf(whole: string, decimals: string)
    requires AllDigits(whole)
    ensures WholePart(whole + "." + decimals) == whole && DecimalPart(whole + "." + decimals) == decimals
  {
    PointAfterDigits(whole, decimals);
  }

  lemma UnsignedPrint(cents: int)
    ensures var n := if cents < 0 then -cents else cents;
      var unsigned := PrintWhole(n / 100) + "." + [DigitOf(n % 100 / 10), DigitOf(n % 10)];
      && Trim(Print(cents)) == Print(cents)
      && WithoutSign(Print(cents)) == unsigned
      && SignOf(Print(cents)) == if cents < 0 then -1 else 1
  {
    var n := Unsigned(cents);
    var unsigned := PrintWhole(n / 100) + "." + [DigitOf(n % 100 / 10), DigitOf(n % 10)];
    PrintWholeIsDigits(n / 100);
    assert IsDigit(PrintWhole(n / 100)[0]);
    assert unsigned[0] == PrintWhole(n / 100)[0];
    var s := Print(cents);
    if cents < 0 {
      assert s == "-" + unsigned;
      assert s[1..] == unsigned;
    } else {
      assert s == unsigned;
    }
    assert IsDigit(s[|s| - 1]);
    TrimNothing(s);
  }

  lemma CentsOfTwoDigits(n: nat)
    ensures var d := [DigitOf(n % 100 / 10), DigitOf(n % 10)];
      AllDigits(d) && RoundedCents(d) == n % 100
  {
    assert n % 100 == n % 100 / 10 * 10 + n % 100 % 10;
    assert n % 100 % 10 == n % 10;
  }

  /** An amount printed with two decimals is read back as itself, for every 64-bit amount but the least. */
  lemma PrintedAmountIsReadBack(cents: int)
    requires Fits(cents)
    ensures Parse(Print(cents)) == Cents(cents) <==> cents != I64_MIN
  {
    PrintedIsCombined(cents);
    CombinedBack(cents);
  }

  function Unsigned(cents: int): nat {
    if cents < 0 then -cents else cents
  }

  lemma PrintedIsCombined(cents: int)
    requires Fits(cents)
    ensures var n := Unsigned(cents);
      Parse(Print(cents)) == Combine(if cents < 0 then -1 else 1, n / 100, n % 100)
  {
    var n := Unsigned(cents);
    UnsignedPrint(cents);
    PrintWholeIsDigits(n / 100);
    CentsOfTwoDigits(n);
    ReadInParts(Print(cents), PrintWhole(n / 100), [DigitOf(n % 100 / 10), DigitOf(n % 10)]);
  }

  lemma CombinedBack(cents: int)
    requires Fits(cents)
    ensures var n := Unsigned(cents);
      Combine(if cents < 0 then -1 else 1, n / 100, n % 100) == Cents(cents) <==> cents != I64_MIN
  {
    var n := Unsigned(cents);
    assert n / 100 * 100 + n % 100 == n;
  }

  lemma ReadInParts(text: string, whole: string, decimals: string)
    requires Trim(text) == text && WithoutSign(text) == whole + "." + decimals
    requires AllDigits(whole) && whole != "" && AllDigits(decimals)
    ensures Parse(text) ==
      if WholeValue(whole) <= I64_MAX then Combine(SignOf(text), WholeValue(whole), RoundedCents(decimals)) else Malformed
  {
    PartsOf(whole, decimals);
    DigitsAreNoSign(whole);
  }
}
