/** Display formatting of amounts through a currency specification, and the
    registry of specifications by currency code. */
module Display {
  import opened Decimal
  import opened Amounts

  /** A currency specification: how many fraction digits a user may enter,
      how many are normally shown, how many trailing zeros are kept, and the
      unit names by power of ten (entry 0 is the base unit). */
  datatype CurrencySpecification = CurrencySpecification(
    name: string,
    numFractionalInputDigits: nat,
    numFractionalNormalDigits: nat,
    numFractionalTrailingZeroDigits: nat,
    allUnitNames: map<int, string>)

  /** The registry of known currencies, read only. */
  const Currencies: map<string, CurrencySpecification> := map[
    "KUDOS" := CurrencySpecification("KUDOS", 2, 2, 0, map[0 := "KUDOS"]),
    "USD" := CurrencySpecification("US Dollar", 2, 2, 0, map[0 := "$"]),
    "EUR" := CurrencySpecification("Euro", 2, 2, 0, map[0 := "€"]),
    "JPY" := CurrencySpecification("Japanese Yen", 2, 0, 0, map[0 := "¥"])
  ]

  datatype FormatError = NoCurrencySpecification(currency: string)

  /** cf.AllUnitNames[0]; a Go map yields "" for a missing key. */
  function BaseUnitName(cf: CurrencySpecification): string {
    if 0 in cf.allUnitNames then cf.allUnitNames[0] else ""
  }

  /** The fraction units per displayed hundredth: the divisor is 10^6
      whatever the number of normal digits. */
  const DisplayDivisor: nat := 1_000_000

  /** FormatWithCurrencySpecification: "<unit> <value>" when no fraction
      digits are shown, otherwise "<unit> <value>.<fraction div 10^6>" with
      the quotient zero-padded to the number of normal digits. The Go
      function also returns an error, which is always nil. */
  function FormatWithCurrencySpecification(a: Amount, cf: CurrencySpecification): (r: string)
    ensures |r| > |BaseUnitName(cf)| && r[..|BaseUnitName(cf)| + 1] == BaseUnitName(cf) + " "
    ensures cf.numFractionalNormalDigits == 0 <==> |r| == |BaseUnitName(cf) + " " + FormatUint(a.value)|
  {
    var head := BaseUnitName(cf) + " ";
    var t := DisplayFraction(a, cf.numFractionalNormalDigits, DisplayDivisor);
    Pieces(head, FormatUint(a.value), t);
    head + FormatUint(a.value) + t
  }

  /** The part after the whole units for a given divisor: nothing when no
      fraction digits are shown, otherwise a '.' and the quotient of the
      fraction by the divisor, zero-padded to n digits: exactly n digits,
      or more only when the quotient needs them, and then no leading
      zero. */
  function DisplayFraction(a: Amount, n: nat, divisor: nat): (t: string)
    requires divisor > 0
    ensures n == 0 <==> t == ""
    ensures n > 0 ==> (t[0] == '.' && AllDigits(t[1..])
      && Value(t[1..]) == a.fraction / divisor && |t| - 1 >= n
      && (|t| - 1 == n || t[1] != '0'))
  {
    if n == 0 then
      ""
    else
      var digits := PadLeft(FormatUint(a.fraction / divisor), n);
      ValuePadLeft(FormatUint(a.fraction / divisor), n);
      PadLeftWidth(a.fraction / divisor, n);
      assert ("." + digits)[1..] == digits;
      "." + digits
  }

  /** Format(): the specification registered for the amount's currency, or
      an error naming the currency. */
  function Format(a: Amount): (r: Result<string, FormatError>)
    ensures r.Failure? <==> a.currency !in Currencies
    ensures r.Failure? ==> r.error == NoCurrencySpecification(a.currency)
    ensures r.Success? ==> r.value == FormatWithCurrencySpecification(a, Currencies[a.currency])
  {
    if a.currency in Currencies then
      Success(FormatWithCurrencySpecification(a, Currencies[a.currency]))
    else
      Failure(NoCurrencySpecification(a.currency))
  }

  /** The display opens with the base unit name and a space, followed by
      the whole units exactly as strconv prints them. */
  lemma FormatShowsValue(a: Amount, cf: CurrencySpecification)
    ensures var r := FormatWithCurrencySpecification(a, cf);
      var h := |BaseUnitName(cf)| + 1;
      var k := h + |FormatUint(a.value)|;
      && k <= |r| && r[..h] == BaseUnitName(cf) + " " && r[h..k] == FormatUint(a.value)
      && AllDigits(r[h..k]) && Value(r[h..k]) == a.value
  {
    var head := BaseUnitName(cf) + " ";
    var whole := FormatUint(a.value);
    var t := DisplayFraction(a, cf.numFractionalNormalDigits, DisplayDivisor);
    assert FormatWithCurrencySpecification(a, cf) == head + whole + t;
    Pieces(head, whole, t);
  }

  /** With n > 0 fraction digits to show, the whole units are followed by a
      '.' and the fraction divided by 10^6, truncated, zero-padded to n
      digits. */
  lemma FormatShowsFraction(a: Amount, cf: CurrencySpecification)
    requires cf.numFractionalNormalDigits > 0
    ensures FractionShownAt(FormatWithCurrencySpecification(a, cf),
      |BaseUnitName(cf) + " " + FormatUint(a.value)|,
      cf.numFractionalNormalDigits, a.fraction / DisplayDivisor)
  {
    var head := BaseUnitName(cf) + " ";
    var whole := FormatUint(a.value);
    var t := DisplayFraction(a, cf.numFractionalNormalDigits, DisplayDivisor);
    assert FormatWithCurrencySpecification(a, cf) == head + whole + t;
    FractionAfter(head, whole, t, cf.numFractionalNormalDigits, a.fraction / DisplayDivisor);
  }

  /** A '.'-led digit string t placed after head and whole is shown from
      position |head + whole| on. */
  lemma FractionAfter(head: string, whole: string, t: string, n: nat, q: nat)
    requires |t| > n && t[0] == '.' && AllDigits(t[1..]) && Value(t[1..]) == q
    requires |t| - 1 == n || t[1] != '0'
    ensures FractionShownAt(head + whole + t, |head + whole|, n, q)
  {
    Pieces(head, whole, t);
  }

  /** r shows, from position k on, a '.' followed by nothing but digits
      that denote q: exactly n of them, or more without a leading zero. */
  predicate FractionShownAt(r: string, k: nat, n: nat, q: nat) {
    && k < |r| && r[k] == '.' && |r| - (k + 1) >= n
    && (|r| - (k + 1) == n || r[k + 1] != '0')
    && AllDigits(r[k + 1..]) && Value(r[k + 1..]) == q
  }

  /** The three pieces of a concatenation, read back by slicing. */
  lemma Pieces(h: string, w: string, t: string)
    ensures var r := h + w + t;
      && r[..|h|] == h && r[|h|..|h| + |w|] == w && r[|h| + |w|..] == t
      && (|t| > 0 ==> r[|h| + |w|] == t[0] && r[|h| + |w| + 1..] == t[1..])
  {
  }

  /** With two normal digits, as every registered currency but JPY has, a
      valid fraction is shown as exactly two digits d after the '.', with
      d * 10^6 <= fraction < (d + 1) * 10^6: truncated, not rounded. */
  lemma TwoDigitDisplayTruncates(a: Amount, cf: CurrencySpecification)
    requires a.fraction < FractionalBase && cf.numFractionalNormalDigits == 2
    ensures var r := FormatWithCurrencySpecification(a, cf);
      var k := |BaseUnitName(cf) + " " + FormatUint(a.value)|;
      && |r| == k + 3 && r[k] == '.' && AllDigits(r[k + 1..])
      && Value(r[k + 1..]) * DisplayDivisor <= a.fraction < (Value(r[k + 1..]) + 1) * DisplayDivisor
  {
    var q := a.fraction / DisplayDivisor;
    FormatShowsFraction(a, cf);
    TwoDigitWidth(a, q);
    Bracket(a.fraction, DisplayDivisor, q);
  }

  /** Below 10^8 the quotient by 10^6 takes at most two digits. */
  lemma TwoDigitWidth(a: Amount, q: nat)
    requires a.fraction < FractionalBase && q == a.fraction / DisplayDivisor
    ensures |DisplayFraction(a, 2, DisplayDivisor)| == 3
  {
    assert Pow10(2) == 100;
    ScaledWidth(q, 2);
    assert DisplayFraction(a, 2, DisplayDivisor) == "." + PadLeft(FormatUint(q), 2);
  }

  /** The display as the number of normal digits intends: the fraction is
      divided by 10^(8 - n), so that exactly n leading fraction digits
      appear. */
  function FormatScaled(a: Amount, cf: CurrencySpecification): (r: string)
    requires cf.numFractionalNormalDigits <= FractionalLength
  {
    var n := cf.numFractionalNormalDigits;
    BaseUnitName(cf) + " " + FormatUint(a.value) + DisplayFraction(a, n, ScaledDivisor(n))
  }

  /** The fraction units per shown digit place when n digits are shown. */
  function ScaledDivisor(n: nat): (d: nat)
    requires n <= FractionalLength
    ensures d == Pow10(FractionalLength - n)
  {
    Pow10(FractionalLength - n)
  }

  /** The fraction part of FormatScaled, for a valid fraction: a '.' and
      exactly n digits d with d * 10^(8-n) <= fraction < (d + 1) * 10^(8-n),
      that is, the first n digits of the eight-digit fraction. */
  lemma FormatScaledShowsLeadingDigits(a: Amount, n: nat)
    requires a.fraction < FractionalBase
    requires 0 < n <= FractionalLength
    ensures var divisor := ScaledDivisor(n);
      var t := DisplayFraction(a, n, divisor);
      && |t| == n + 1 && t[0] == '.' && AllDigits(t[1..])
      && Value(t[1..]) * divisor <= a.fraction < (Value(t[1..]) + 1) * divisor
  {
    var divisor := ScaledDivisor(n);
    ScaledFractionWidth(a, n, divisor);
    Bracket(a.fraction, divisor, Value(DisplayFraction(a, n, divisor)[1..]));
  }

  /** With the scaled divisor the '.' is followed by exactly n digits. */
  lemma ScaledFractionWidth(a: Amount, n: nat, divisor: nat)
    requires a.fraction < FractionalBase && 0 < n <= FractionalLength
    requires divisor == ScaledDivisor(n)
    ensures |DisplayFraction(a, n, divisor)| == n + 1
  {
    var q := a.fraction / divisor;
    ScaledQuotient(a.fraction, n, divisor);
    ScaledWidth(q, n);
    assert DisplayFraction(a, n, divisor) == "." + PadLeft(FormatUint(q), n);
  }

  /** A quotient below 10^n is padded to exactly n digits. */
  lemma ScaledWidth(q: nat, n: nat)
    requires q < Pow10(n) && n > 0
    ensures |PadLeft(FormatUint(q), n)| == n
  {
    FormatUintWithin(q, n);
  }

  /** Dividing a valid fraction by 10^(8-n) leaves a quotient of at most n
      digits that brackets the fraction. */
  lemma ScaledQuotient(f: nat, n: nat, divisor: nat)
    requires f < FractionalBase && n <= FractionalLength
    requires divisor == Pow10(FractionalLength - n)
    ensures f / divisor < Pow10(n)
    ensures f / divisor * divisor <= f < (f / divisor + 1) * divisor
  {
    Pow10Add(n, FractionalLength - n);
    Pow10Of78();
    QuotientBound(f, divisor, Pow10(n));
  }

  lemma QuotientBound(f: nat, divisor: nat, m: nat)
    requires divisor > 0 && f < m * divisor
    ensures f / divisor < m
    ensures f / divisor * divisor <= f < (f / divisor + 1) * divisor
  {
  }

  /** A quotient brackets its dividend between two multiples of the
      divisor. */
  lemma Bracket(f: nat, divisor: nat, q: nat)
    requires divisor > 0 && q == f / divisor
    ensures q * divisor <= f < (q + 1) * divisor
  {
  }

  /** With three normal digits the fixed divisor shows half a unit as
      ".050"; the scaled display shows ".500". */
  lemma DisplayDivisorFixed()
    ensures FormatWithCurrencySpecification(HalfPastOne(), ThreeDigits()) == "X 1.050"
    ensures FormatScaled(HalfPastOne(), ThreeDigits()) == "X 1.500"
  {
    var a, cf := HalfPastOne(), ThreeDigits();
    assert BaseUnitName(cf) == "X";
    FormatSmall();
    assert 50_000_000 / DisplayDivisor == 50;
    assert DisplayFraction(a, 3, DisplayDivisor) == ".050";
    Pow10Of5();
    assert 50_000_000 / ScaledDivisor(3) == 500;
    assert DisplayFraction(a, 3, ScaledDivisor(3)) == ".500";
  }

  /** The amount 1.5 of a currency without a registered specification. */
  function HalfPastOne(): Amount {
    Amount("XYZ", 1, 50_000_000)
  }

  /** A specification that shows three fraction digits. */
  function ThreeDigits(): CurrencySpecification {
    CurrencySpecification("XYZ", 3, 3, 3, map[0 := "X"])
  }

  lemma FormatSmall()
    ensures FormatUint(1) == "1" && FormatUint(50) == "50" && FormatUint(500) == "500"
    ensures PadLeft("50", 3) == "050" && PadLeft("500", 3) == "500"
  {
    assert FormatUint(5) == "5";
    assert FormatUint(50) == "5" + "0";
    assert FormatUint(500) == "50" + "0";
  }

  lemma Pow10Of5()
    ensures ScaledDivisor(3) == 100_000
  {
    assert Pow10(5) == 100_000;
  }
}
