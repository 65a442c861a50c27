/** The behaviour the repository's tests expect of the amount code, proved
    of the model, and two general facts about ParseAmount that the tests
    touch on: a string without ':' always panics, and a parsed value is
    bounded only by uint64. */
module Scenarios {
  import opened Decimal
  import opened Amounts
  import opened Parser
  import opened Wire
  import opened Display

  /** The test amounts: a = EUR 1.5, b = EUR 23.70007, c = EUR 25.20007. */
  function EurA(): Amount {
    Amount("EUR", 1, 50_000_000)
  }

  function EurB(): Amount {
    Amount("EUR", 23, 70_007_000)
  }

  function EurC(): Amount {
    Amount("EUR", 25, 20_007_000)
  }

  /** a + b == c; the test's comparison of the two String()s follows. */
  lemma AddScenario()
    ensures Add(EurA(), EurB()) == Success(EurC())
  {
  }

  /** c - b == a; the test's comparison of the two String()s follows. */
  lemma SubScenario()
    ensures Sub(EurC(), EurB()) == Success(EurA())
  {
  }

  /** a prints as "EUR:1.5". */
  lemma StringA()
    ensures ToString(EurA()) == "EUR:1.5"
  {
    FormatOne();
    TrimA();
    WireA();
    WireRender(EurA());
    RenderOnePointFive();
  }

  lemma TrimA()
    ensures TrimZeros(FormatUint(50_000_000)) == "5"
  {
    assert FormatUint(5) == "5";
    assert Pow10(7) == 10_000_000;
    FormatUintShift(5, 7);
    TrimZerosAfter("5", 7);
  }

  lemma WireA()
    requires FormatUint(1) == "1" && TrimZeros(FormatUint(50_000_000)) == "5"
    ensures WireCaptures(EurA()) == Captures("EUR", "1", true, "5")
  {
  }

  /** c prints as "EUR:25.20007": the trailing zeros of the fraction are
      dropped and no digit before them. */
  lemma StringScenario()
    ensures ToString(EurC()) == "EUR:25.20007"
  {
    FormatTwentyFive();
    TrimC();
    WireC();
    WireRender(EurC());
    RenderC();
  }

  lemma FormatTwentyFive()
    ensures FormatUint(25) == "25"
  {
    assert FormatUint(2) == "2";
  }

  lemma TrimC()
    ensures TrimZeros(FormatUint(20_007_000)) == "20007"
  {
    FormatUintShift(2, 3);
    assert Pow10(3) == 1000;
    assert FormatUint(20_007) == FormatUint(2000) + "7";
    assert Zeros(3) == "000";
    assert FormatUint(20_007) == "20007";
    FormatUintShift(20_007, 3);
    TrimZerosAfter("20007", 3);
  }

  lemma WireC()
    requires FormatUint(25) == "25" && TrimZeros(FormatUint(20_007_000)) == "20007"
    ensures WireCaptures(EurC()) == Captures("EUR", "25", true, "20007")
  {
  }

  lemma RenderC()
    ensures Render("", Captures("EUR", "25", true, "20007"), "") == "EUR:25.20007"
  {
  }

  /** "EUR:50" parses to 50 whole units, and adding a to it succeeds. */
  lemma LargeScenario()
    ensures ParseAmount("EUR:50") == Success(Amount("EUR", 50, 0))
    ensures Add(Amount("EUR", 50, 0), EurA()) == Success(Amount("EUR", 51, 50_000_000))
  {
    ParseFiftyEuro();
    AddFifty();
  }

  lemma ParseFiftyEuro()
    ensures ParseAmount("EUR:50") == Success(Amount("EUR", 50, 0))
  {
    var p := Captures("EUR", "50", false, "");
    RenderFifty();
    DigitsFifty();
    WellFormedFifty();
    ParseAmountOfRender("", p, "");
  }

  lemma RenderFifty()
    ensures Render("", Captures("EUR", "50", false, ""), "") == "EUR:50"
  {
  }

  lemma WellFormedFifty()
    ensures WellFormed(Captures("EUR", "50", false, ""))
  {
  }

  lemma DigitsFifty()
    ensures Value("50") == 50 && ScaledFraction("") == 0
  {
    assert Value("5") == 5;
  }

  lemma AddFifty()
    ensures Add(Amount("EUR", 50, 0), EurA()) == Success(Amount("EUR", 51, 50_000_000))
  {
  }

  /** "EUR:1." -- a '.' with no digits after it -- is accepted as 1. */
  lemma TrailingDotAccepted()
    ensures ParseAmount("EUR:1.") == Success(Amount("EUR", 1, 0))
  {
    var p := Captures("EUR", "1", true, "");
    RenderTrailingDot();
    DigitsOne();
    WellFormedTrailingDot();
    ParseAmountOfRender("", p, "");
  }

  lemma RenderTrailingDot()
    ensures Render("", Captures("EUR", "1", true, ""), "") == "EUR:1."
  {
  }

  lemma WellFormedTrailingDot()
    ensures WellFormed(Captures("EUR", "1", true, ""))
  {
  }

  lemma DigitsOne()
    ensures Value("1") == 1 && ScaledFraction("") == 0
  {
  }

  /** Leading and trailing whitespace is skipped: " EUR:50\n" reads as
      "EUR:50". */
  lemma SurroundingSpaceSkipped()
    ensures ParseAmount(" EUR:50\n") == Success(Amount("EUR", 50, 0))
  {
    var p := Captures("EUR", "50", false, "");
    RenderFiftySpaced();
    DigitsFifty();
    WellFormedFifty();
    SpacesAround();
    ParseAmountOfRender(" ", p, "\n");
  }

  lemma RenderFiftySpaced()
    ensures Render(" ", Captures("EUR", "50", false, ""), "\n") == " EUR:50\n"
  {
  }

  lemma SpacesAround()
    ensures AllSpace(" ") && AllSpace("\n")
  {
  }

  /** Every match has a ':' after its currency, so a string without one
      makes ParseAmount index a nil match and panic. */
  lemma NoColonPanics(s: string)
    requires forall i :: 0 <= i < |s| ==> s[i] != ':'
    ensures ParseAmount(s) == Failure(MatchPanic)
  {
    if Scan(s).Some? {
      var p := Scan(s).value;
      ColonAfterCurrency(Lead(s), p, Trail(s));
    }
  }

  /** The ':' of a rendered match sits right after the lead and the
      currency. */
  lemma ColonAfterCurrency(lead: string, p: Captures, trail: string)
    ensures var r := Render(lead, p, trail);
      |lead| + |p.currency| < |r| && r[|lead| + |p.currency|] == ':'
  {
    var r := Render(lead, p, trail);
    assert r == lead + p.currency + ":" + Number(p) + trail;
  }

  /** The value is bounded by uint64 alone: ParseAmount reads back any
      value of 2^52 or more from its own String(), and Add refuses to
      produce such a value even by adding zero. */
  lemma ParsedValueUnbounded(c: string, v: uint64)
    requires ValidCurrency(c) && v >= MaxAmountValue
    ensures ParseAmount(ToString(Amount(c, v, 0))) == Success(Amount(c, v, 0))
    ensures Add(Amount(c, v, 0), Amount(c, 0, 0)) == Failure(AmountOverflow)
  {
    StringRoundTrip(Amount(c, v, 0));
    AddZeroOverflows(c, v);
  }

  lemma AddZeroOverflows(c: string, v: uint64)
    requires v >= MaxAmountValue
    ensures Add(Amount(c, v, 0), Amount(c, 0, 0)) == Failure(AmountOverflow)
  {
    assert (v + 0 + (0 + 0) / FractionalBase) % Uint64Limit == v;
  }

  /** The specification the format test builds: base unit name "K" and two
      normal digits. */
  function KudosK(): CurrencySpecification {
    CurrencySpecification("KUDOS", 0, 2, 0, map[0 := "K"])
  }

  /** "KUDOS:50.2" parses to 50.2 and shows as "K 50.20". */
  lemma FormatKScenario()
    ensures ParseAmount("KUDOS:50.2") == Success(Amount("KUDOS", 50, 20_000_000))
    ensures FormatWithCurrencySpecification(Amount("KUDOS", 50, 20_000_000), KudosK()) == "K 50.20"
  {
    ParseKudosFiftyPointTwo();
    DisplayKudosK();
  }

  lemma ParseKudosFiftyPointTwo()
    ensures ParseAmount("KUDOS:50.2") == Success(Amount("KUDOS", 50, 20_000_000))
  {
    var p := Captures("KUDOS", "50", true, "2");
    assert Render("", p, "") == "KUDOS:50.2";
    DigitsFifty();
    DigitsPointTwo();
    WellFormedFiftyPoint("KUDOS", "2");
    ParseAmountOfRender("", p, "");
  }

  lemma DisplayKudosK()
    ensures FormatWithCurrencySpecification(Amount("KUDOS", 50, 20_000_000), KudosK()) == "K 50.20"
  {
    FormatFiftyFacts();
    FractionShown(Amount("KUDOS", 50, 20_000_000), 20, "20");
    Displayed(Amount("KUDOS", 50, 20_000_000), KudosK(), "K", "50", ".20");
  }

  /** "KUDOS:50.234" shows through the registry as "KUDOS 50.23". */
  lemma FormatKudosScenario()
    ensures ParseAmount("KUDOS:50.234") == Success(Amount("KUDOS", 50, 23_400_000))
    ensures Format(Amount("KUDOS", 50, 23_400_000)) == Success("KUDOS 50.23")
  {
    ParseFiftyPoint234("KUDOS", "KUDOS:50.234");
    RegistryEntries();
    DisplayTexts();
    DisplayFiftyPoint23("KUDOS", "KUDOS", "KUDOS 50.23");
  }

  /** "EUR:50.234" shows through the registry as "€ 50.23". */
  lemma FormatEuroScenario()
    ensures ParseAmount("EUR:50.234") == Success(Amount("EUR", 50, 23_400_000))
    ensures Format(Amount("EUR", 50, 23_400_000)) == Success("€ 50.23")
  {
    ParseFiftyPoint234("EUR", "EUR:50.234");
    RegistryEntries();
    DisplayTexts();
    DisplayFiftyPoint23("EUR", "€", "€ 50.23");
  }

  /** "FOO:50.234" parses, but FOO has no registered specification. */
  lemma FormatUnknownScenario()
    ensures ParseAmount("FOO:50.234") == Success(Amount("FOO", 50, 23_400_000))
    ensures Format(Amount("FOO", 50, 23_400_000)) == Failure(NoCurrencySpecification("FOO"))
  {
    ParseFiftyPoint234("FOO", "FOO:50.234");
    RegistryEntries();
  }

  lemma DisplayTexts()
    ensures "KUDOS 50.23" == "KUDOS" + " 50.23" && "€ 50.23" == "€" + " 50.23"
  {
  }

  /** The registry's entries as the format tests use them. */
  lemma RegistryEntries()
    ensures "KUDOS" in Currencies && BaseUnitName(Currencies["KUDOS"]) == "KUDOS"
    ensures Currencies["KUDOS"].numFractionalNormalDigits == 2
    ensures "EUR" in Currencies && BaseUnitName(Currencies["EUR"]) == "€"
    ensures Currencies["EUR"].numFractionalNormalDigits == 2
    ensures "FOO" !in Currencies
  {
    assert "KUDOS"[0] != "USD"[0] && "KUDOS"[0] != "EUR"[0] && "KUDOS"[0] != "JPY"[0];
    assert "EUR"[0] != "JPY"[0];
    assert "FOO"[0] != "KUDOS"[0] && "FOO"[0] != "USD"[0] && "FOO"[0] != "EUR"[0] && "FOO"[0] != "JPY"[0];
  }

  /** "<currency>:50.234" parses to 50 whole units and 0.234. */
  lemma ParseFiftyPoint234(currency: string, s: string)
    requires currency == "KUDOS" || currency == "EUR" || currency == "FOO"
    requires s == currency + ":50.234"
    ensures ParseAmount(s) == Success(Amount(currency, 50, 23_400_000))
  {
    var p := Captures(currency, "50", true, "234");
    assert Render("", p, "") == s;
    DigitsFifty();
    DigitsPoint234();
    WellFormedFiftyPoint(currency, "234");
    ParseAmountOfRender("", p, "");
  }

  /** Through a registered specification with two normal digits, 50.234
      shows as "<unit> 50.23". */
  lemma DisplayFiftyPoint23(currency: string, unit: string, text: string)
    requires currency in Currencies && BaseUnitName(Currencies[currency]) == unit
    requires Currencies[currency].numFractionalNormalDigits == 2
    requires text == unit + " 50.23"
    ensures Format(Amount(currency, 50, 23_400_000)) == Success(text)
  {
    ShowsFiftyPoint23(Amount(currency, 50, 23_400_000), Currencies[currency], unit, text);
  }

  lemma ShowsFiftyPoint23(a: Amount, cf: CurrencySpecification, unit: string, text: string)
    requires a.value == 50 && a.fraction == 23_400_000
    requires BaseUnitName(cf) == unit && cf.numFractionalNormalDigits == 2
    requires text == unit + " 50.23"
    ensures FormatWithCurrencySpecification(a, cf) == text
  {
    FormatFiftyFacts();
    FractionShown(a, 23, "23");
    Displayed(a, cf, unit, "50", ".23");
    UnitThenNumber(unit);
  }

  lemma UnitThenNumber(unit: string)
    ensures unit + " " + "50" + ".23" == unit + " 50.23"
  {
  }

  lemma WellFormedFiftyPoint(currency: string, digits: string)
    requires currency == "KUDOS" || currency == "EUR" || currency == "FOO"
    requires digits == "2" || digits == "234"
    ensures WellFormed(Captures(currency, "50", true, digits))
  {
  }

  lemma DigitsPointTwo()
    ensures ScaledFraction("2") == 20_000_000
  {
    assert Value("2") == 2;
    Pow10Of78();
  }

  lemma DigitsPoint234()
    ensures ScaledFraction("234") == 23_400_000
  {
    assert "234"[..2] == "23" && "23"[..1] == "2";
    assert Value("234") == 234;
    assert Pow10(5) == 100_000;
  }

  /** The display from its three pieces. */
  lemma Displayed(a: Amount, cf: CurrencySpecification, unit: string, whole: string, tail: string)
    requires BaseUnitName(cf) == unit && FormatUint(a.value) == whole
    requires DisplayFraction(a, cf.numFractionalNormalDigits, DisplayDivisor) == tail
    ensures FormatWithCurrencySpecification(a, cf) == unit + " " + whole + tail
  {
  }

  /** Two shown digits for a fraction whose quotient by 10^6 is q. */
  lemma FractionShown(a: Amount, q: nat, text: string)
    requires a.fraction / DisplayDivisor == q && PadLeft(FormatUint(q), 2) == text
    ensures DisplayFraction(a, 2, DisplayDivisor) == "." + text
  {
  }

  lemma FormatFiftyFacts()
    ensures FormatUint(50) == "50" && FormatUint(20) == "20" && FormatUint(23) == "23"
    ensures PadLeft("20", 2) == "20" && PadLeft("23", 2) == "23"
  {
    assert FormatUint(5) == "5";
    assert FormatUint(2) == "2";
  }
}
