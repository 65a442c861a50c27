/** The wire form of an amount, Amount.String():
    <currency>:<value>[.<fraction digits without trailing zeros>],
    and how it reads back through ParseAmount. */
module Wire {
  import opened Decimal
  import opened Amounts
  import opened Parser

  /** Amount.String(): the fraction is printed with FormatUint, so without
      leading zeros, and then stripped of trailing zeros. */
  function ToString(a: Amount): (r: string)
    ensures |r| > |a.currency| && r[..|a.currency| + 1] == a.currency + ":"
    ensures ValidCurrency(a.currency) ==> Scan(r) == Some(WireCaptures(a))
  {
    WireRender(a);
    var v := FormatUint(a.value);
    if a.fraction != 0 then
      a.currency + ":" + v + "." + WireFraction(a.fraction)
    else
      a.currency + ":" + v
  }

  /** The fraction digits String() prints for a non-zero fraction. */
  function WireFraction(f: nat): string {
    TrimZeros(FormatUint(f))
  }

  /** The capture groups the pattern finds in String()'s output. */
  function WireCaptures(a: Amount): Captures {
    Captures(a.currency, FormatUint(a.value), a.fraction != 0, if a.fraction != 0 then WireFraction(a.fraction) else [])
  }

  lemma RenderText(c: string, v: string, dot: bool, t: string)
    requires !dot ==> t == []
    ensures Render("", Captures(c, v, dot, t), "") == if dot then c + ":" + v + "." + t else c + ":" + v
  {
  }

  lemma WireRender(a: Amount)
    ensures var v := FormatUint(a.value);
      Render("", WireCaptures(a), "") ==
        if a.fraction != 0 then a.currency + ":" + v + "." + WireFraction(a.fraction)
        else a.currency + ":" + v
    ensures ValidCurrency(a.currency) ==> Scan(Render("", WireCaptures(a), "")) == Some(WireCaptures(a))
  {
    var p := WireCaptures(a);
    RenderText(p.currency, p.integer, p.dot, p.fraction);
    if ValidCurrency(a.currency) {
      ValueTrimZeros(FormatUint(a.fraction));
      assert WellFormed(p);
      ScanRender("", p, "");
    }
  }

  lemma FormatUintLastDigit(n: nat)
    ensures FormatUint(n)[|FormatUint(n)| - 1] == DigitChar(n % 10)
  {
  }

  /** What ParseAmount's fraction rule makes of String()'s fraction digits:
      they are accepted and denote the fraction exactly when the fraction
      has eight digits, the last of them 0. Fewer digits lose their leading
      zeros and read back as 10^(8-k) times the fraction; eight significant
      digits are one more than ParseAmount admits. */
  lemma WireFractionReads(f: nat)
    requires 0 < f < FractionalBase
    ensures AllDigits(WireFraction(f)) && 0 < |WireFraction(f)| <= FractionalLength
    ensures var t := WireFraction(f);
      |t| <= FractionalLength - 1 && Value(t) * Pow10(FractionalLength - |t|) == f
      <==> 10_000_000 <= f && f % 10 == 0
  {
    WireFractionScale(f);
    Pow10Of78();
    if 10_000_000 <= f {
      WireFractionEight(f);
    } else {
      WireFractionShort(f);
    }
  }

  /** Trimming String()'s fraction digits keeps the number they denote
      once both are scaled to eight places. */
  lemma WireFractionScale(f: nat)
    requires 0 < f < FractionalBase
    ensures var t := WireFraction(f);
      && AllDigits(t) && 0 < |t| <= |FormatUint(f)| <= FractionalLength
      && Value(t) * Pow10(FractionalLength - |t|) == f * Pow10(FractionalLength - |FormatUint(f)|)
  {
    FormatUintFits(f);
    TrimmedScale(FormatUint(f), f);
    assert WireFraction(f) == TrimZeros(FormatUint(f));
  }

  /** Trimming the trailing zeros of a non-zero digit string of at most
      eight digits leaves a non-empty string that denotes the same number
      once both are scaled to eight places. */
  lemma TrimmedScale(d: string, f: nat)
    requires AllDigits(d) && Value(d) == f && 0 < f && |d| <= FractionalLength
    ensures var t := TrimZeros(d);
      && AllDigits(t) && 0 < |t| <= |d|
      && Value(t) * Pow10(FractionalLength - |t|) == f * Pow10(FractionalLength - |d|)
  {
    ScaleTrimZeros(d, FractionalLength);
    PositiveProduct(f, Pow10(FractionalLength - |d|));
  }

  /** A fraction of eight significant digits is printed in full, and loses
      digits to the trimming exactly when its last digit is 0. */
  lemma WireFractionEight(f: nat)
    requires 10_000_000 <= f < FractionalBase
    ensures |FormatUint(f)| == FractionalLength
    ensures |WireFraction(f)| <= FractionalLength - 1 <==> f % 10 == 0
  {
    Pow10Of78();
    FormatUintLength(f, 8);
    FormatUintLastDigit(f);
    var d := FormatUint(f);
    var t := WireFraction(f);
    if |t| == |d| {
      assert t == d;
    }
  }

  /** A fraction of fewer than eight significant digits, printed without
      its leading zeros, reads back too large. */
  lemma WireFractionShort(f: nat)
    requires 0 < f < 10_000_000
    ensures |FormatUint(f)| <= FractionalLength - 1
    ensures f * Pow10(FractionalLength - |FormatUint(f)|) > f
  {
    Pow10Of78();
    FormatUintWithin(f, 7);
    Pow10Monotone(1, FractionalLength - |FormatUint(f)|);
    GrowsByScale(f, Pow10(FractionalLength - |FormatUint(f)|));
  }

  lemma GrowsByScale(f: nat, q: nat)
    requires f > 0 && q >= 10
    ensures f * q > f
  {
  }

  lemma FormatUintFits(f: nat)
    requires f < FractionalBase
    ensures |FormatUint(f)| <= FractionalLength
  {
    Pow10Of78();
    FormatUintWithin(f, 8);
  }

  /** The wire form reads back as the same amount exactly when the fraction
      is 0, or has eight digits of which the last is 0. */
  lemma StringRoundTrip(a: Amount)
    requires ValidCurrency(a.currency) && a.fraction < FractionalBase
    ensures ParseAmount(ToString(a)) == Success(a) <==>
      a.fraction == 0 || (10_000_000 <= a.fraction && a.fraction % 10 == 0)
  {
    var p := WireCaptures(a);
    WireRender(a);
    WireCapturesRead(a);
    ParseAmountOfRender("", p, "");
  }

  /** String()'s captures are well formed; the whole units read back
      exactly, the fraction exactly in the cases of StringRoundTrip. */
  lemma WireCapturesRead(a: Amount)
    requires ValidCurrency(a.currency) && a.fraction < FractionalBase
    ensures var p := WireCaptures(a);
      && WellFormed(p) && Value(p.integer) == a.value
      && (|p.fraction| <= FractionalLength - 1 && ScaledFraction(p.fraction) == a.fraction
          <==> a.fraction == 0 || (10_000_000 <= a.fraction && a.fraction % 10 == 0))
  {
    var p := WireCaptures(a);
    if a.fraction != 0 {
      WireFractionReads(a.fraction);
    } else {
      assert ScaledFraction(p.fraction) == 0 * Pow10(FractionalLength);
    }
  }

  /** The wire form as intended: the fraction is first padded to eight
      digits, so no leading zero is lost, then stripped of trailing zeros. */
  function CanonicalString(a: Amount): (r: string)
    requires a.fraction < FractionalBase
    ensures ValidCurrency(a.currency) ==> Scan(r) == Some(CanonicalCaptures(a))
  {
    CanonicalRender(a);
    var v := FormatUint(a.value);
    if a.fraction != 0 then
      a.currency + ":" + v + "." + CanonicalFraction(a.fraction)
    else
      a.currency + ":" + v
  }

  /** The fraction digits of the corrected wire form. */
  function CanonicalFraction(f: nat): string {
    TrimZeros(PadLeft(FormatUint(f), FractionalLength))
  }

  function CanonicalCaptures(a: Amount): Captures {
    Captures(a.currency, FormatUint(a.value), a.fraction != 0, if a.fraction != 0 then CanonicalFraction(a.fraction) else [])
  }

  /** Every non-zero fraction below 10^8 is written in at most eight digits
      that denote it exactly. */
  lemma CanonicalFractionReads(f: nat)
    requires 0 < f < FractionalBase
    ensures AllDigits(CanonicalFraction(f)) && 0 < |CanonicalFraction(f)| <= FractionalLength
    ensures Value(CanonicalFraction(f)) * Pow10(FractionalLength - |CanonicalFraction(f)|) == f
  {
    PaddedFraction(f);
    ScaleTrimZeros(PadLeft(FormatUint(f), FractionalLength), FractionalLength);
  }

  /** Padded to eight places, the digits of a fraction still denote it. */
  lemma PaddedFraction(f: nat)
    requires f < FractionalBase
    ensures var d := PadLeft(FormatUint(f), FractionalLength);
      |d| == FractionalLength && AllDigits(d) && Value(d) == f
      && Pow10(FractionalLength - |d|) == 1
  {
    FormatUintFits(f);
    ValuePadLeft(FormatUint(f), FractionalLength);
  }

  lemma CanonicalRender(a: Amount)
    requires a.fraction < FractionalBase
    ensures var v := FormatUint(a.value);
      Render("", CanonicalCaptures(a), "") ==
        if a.fraction != 0 then a.currency + ":" + v + "." + CanonicalFraction(a.fraction)
        else a.currency + ":" + v
    ensures ValidCurrency(a.currency) ==> Scan(Render("", CanonicalCaptures(a), "")) == Some(CanonicalCaptures(a))
  {
    var p := CanonicalCaptures(a);
    RenderText(p.currency, p.integer, p.dot, p.fraction);
    if ValidCurrency(a.currency) {
      if a.fraction != 0 {
        CanonicalFractionReads(a.fraction);
      }
      assert WellFormed(p);
      ScanRender("", p, "");
    }
  }

  /** The corrected wire form reads back, through the parser that admits
      eight fraction digits, as the very same amount. */
  lemma CanonicalRoundTrip(a: Amount)
    requires ValidCurrency(a.currency) && a.fraction < FractionalBase
    ensures ParseAmountUpTo8(CanonicalString(a)) == Success(a)
  {
    var p := CanonicalCaptures(a);
    CanonicalRender(a);
    CanonicalCapturesRead(a);
    ParseAmountUpTo8OfRender("", p, "");
  }

  /** The corrected captures are well formed and denote the amount. */
  lemma CanonicalCapturesRead(a: Amount)
    requires ValidCurrency(a.currency) && a.fraction < FractionalBase
    ensures var p := CanonicalCaptures(a);
      && WellFormed(p) && |p.fraction| <= FractionalLength
      && Value(p.integer) == a.value && ScaledFraction(p.fraction) == a.fraction
  {
    var p := CanonicalCaptures(a);
    if a.fraction != 0 {
      CanonicalFractionReads(a.fraction);
    } else {
      assert ScaledFraction(p.fraction) == 0 * Pow10(FractionalLength);
    }
  }

  /** String() of 1.05 prints "1.5". */
  lemma StringDropsLeadingZeros()
    ensures ToString(Amount("EUR", 1, 5_000_000)) == "EUR:1.5"
  {
    FormatFiveMillion();
    FormatOne();
    WireOnePointZeroFive();
    WireRender(Amount("EUR", 1, 5_000_000));
    RenderOnePointFive();
  }

  lemma FormatOne()
    ensures FormatUint(1) == "1"
  {
  }

  lemma WireOnePointZeroFive()
    requires TrimZeros(FormatUint(5_000_000)) == "5" && FormatUint(1) == "1"
    ensures WireCaptures(Amount("EUR", 1, 5_000_000)) == Captures("EUR", "1", true, "5")
  {
  }

  lemma RenderOnePointFive()
    ensures Render("", Captures("EUR", "1", true, "5"), "") == "EUR:1.5"
  {
  }

  lemma DigitsOnePointFive()
    ensures Value("1") == 1 && ScaledFraction("5") == 50_000_000
  {
    assert Value("5") == 5;
    Pow10Of78();
  }

  lemma WellFormedOnePointFive()
    ensures WellFormed(Captures("EUR", "1", true, "5"))
  {
  }

  /** "EUR:1.5" reads back as 1.5, not as the 1.05 it was printed from. */
  lemma OnePointFiveReadsBack()
    ensures ParseAmount("EUR:1.5") == Success(Amount("EUR", 1, 50_000_000))
  {
    RenderOnePointFive();
    DigitsOnePointFive();
    WellFormedOnePointFive();
    ParseAmountOfRender("", Captures("EUR", "1", true, "5"), "");
  }

  /** The corrected wire form of 1.05 keeps the leading zero. */
  lemma CanonicalKeepsLeadingZeros()
    ensures CanonicalString(Amount("EUR", 1, 5_000_000)) == "EUR:1.05"
  {
    FormatFiveMillion();
    FormatOne();
    CanonicalOnePointZeroFive();
    CanonicalRender(Amount("EUR", 1, 5_000_000));
    RenderOnePointZeroFive();
  }

  lemma CanonicalOnePointZeroFive()
    requires TrimZeros(PadLeft(FormatUint(5_000_000), FractionalLength)) == "05" && FormatUint(1) == "1"
    ensures CanonicalCaptures(Amount("EUR", 1, 5_000_000)) == Captures("EUR", "1", true, "05")
  {
  }

  lemma RenderOnePointZeroFive()
    ensures Render("", Captures("EUR", "1", true, "05"), "") == "EUR:1.05"
  {
  }

  lemma FormatFiveMillion()
    ensures TrimZeros(FormatUint(5_000_000)) == "5"
    ensures TrimZeros(PadLeft(FormatUint(5_000_000), FractionalLength)) == "05"
  {
    FiveMillionDigits();
    TrimZerosAfter("5", 6);
    PadFiveMillion();
    TrimZerosAfter("05", 6);
  }

  lemma FiveMillionDigits()
    ensures FormatUint(5_000_000) == "5" + Zeros(6)
  {
    assert Pow10(6) == 1_000_000;
    FormatUintShift(5, 6);
  }

  lemma PadFiveMillion()
    ensures PadLeft("5" + Zeros(6), 8) == "05" + Zeros(6)
  {
    assert Zeros(1) == "0";
    assert Zeros(1) + ("5" + Zeros(6)) == "05" + Zeros(6);
  }

  /** ParseAmount refuses eight fraction digits, the precision of the
      fraction itself; the corrected parser reads them. */
  lemma EightDigitFractionRejected()
    ensures ParseAmount("EUR:0.00000001") == Failure(FractionTooLong)
    ensures ParseAmountUpTo8("EUR:0.00000001") == Success(Amount("EUR", 0, 1))
  {
    var p := Captures("EUR", "0", true, "00000001");
    RenderOneUnit();
    WellFormedOneUnit();
    DigitsOneUnit();
    ParseAmountOfRender("", p, "");
    ParseAmountUpTo8OfRender("", p, "");
  }

  lemma RenderOneUnit()
    ensures Render("", Captures("EUR", "0", true, "00000001"), "") == "EUR:0.00000001"
  {
  }

  lemma WellFormedOneUnit()
    ensures WellFormed(Captures("EUR", "0", true, "00000001"))
  {
  }

  lemma DigitsOneUnit()
    ensures Value("0") == 0 && ScaledFraction("00000001") == 1
  {
    assert "00000001"[..7] == "0000000";
    assert "0000000"[..6] == "000000";
    assert "000000"[..5] == "00000";
    assert "00000"[..4] == "0000";
    assert "0000"[..3] == "000";
    assert "000"[..2] == "00";
    assert "00"[..1] == "0";
    assert Value("00000001") == 1;
  }
}
