/** ParseAmount: the amount pattern
      ^\s*([-_*A-Za-z0-9]+):([0-9]+)\.?([0-9]+)?\s*$
    written as a scanner over the string, and the conversion of its three
    capture groups into an Amount. */
module Parser {
  import opened Decimal
  import opened Amounts

  datatype Option<T> = None | Some(value: T)

  /** `\s` in Go's regular expressions: tab, newline, form feed, carriage
      return and space. */
  predicate IsSpace(c: char) {
    c == ' ' || c == '\t' || c == '\n' || c == '\r' || c as int == 0x0C
  }

  predicate AllSpace(s: string) {
    forall i :: 0 <= i < |s| ==> IsSpace(s[i])
  }

  /** The character class [-_*A-Za-z0-9] of a currency code. */
  predicate IsCurrencyChar(c: char) {
    c == '-' || c == '_' || c == '*' || 'A' <= c <= 'Z' || 'a' <= c <= 'z' || IsDigit(c)
  }

  predicate ValidCurrency(s: string) {
    |s| > 0 && forall i :: 0 <= i < |s| ==> IsCurrencyChar(s[i])
  }

  /** The capture groups of a match: the currency, the integer digits,
      whether the optional '.' was present, and the fraction digits (empty
      when the optional group did not take part). */
  datatype Captures = Captures(currency: string, integer: string, dot: bool, fraction: string)

  /** The shape of the captures of any match. The greedy integer group takes
      every digit before the '.', so fraction digits come only after a dot. */
  predicate WellFormed(p: Captures) {
    && ValidCurrency(p.currency)
    && |p.integer| > 0 && AllDigits(p.integer)
    && AllDigits(p.fraction)
    && (!p.dot ==> p.fraction == [])
  }

  /** The text after the ':' that the last two groups and the '.' cover. */
  function Number(p: Captures): string {
    p.integer + (if p.dot then "." else "") + p.fraction
  }

  /** The text the three groups and the optional '.' cover. */
  function Body(p: Captures): string {
    p.currency + ":" + Number(p)
  }

  /** The string a match covers, with its surrounding whitespace. */
  function Render(lead: string, p: Captures, trail: string): string {
    lead + Body(p) + trail
  }

  /** Length of the longest prefix of whitespace. */
  function LeadingSpaces(s: string): (n: nat)
    ensures n <= |s| && forall i :: 0 <= i < n ==> IsSpace(s[i])
    ensures n < |s| ==> !IsSpace(s[n])
  {
    if s != [] && IsSpace(s[0]) then 1 + LeadingSpaces(s[1..]) else 0
  }

  /** Length of the longest suffix of whitespace. */
  function TrailingSpaces(s: string): (n: nat)
    ensures n <= |s| && forall i :: |s| - n <= i < |s| ==> IsSpace(s[i])
    ensures n < |s| ==> !IsSpace(s[|s| - n - 1])
  {
    if s != [] && IsSpace(s[|s| - 1]) then 1 + TrailingSpaces(s[..|s| - 1]) else 0
  }

  /** Length of the longest prefix of digits. */
  function DigitRun(s: string): (n: nat)
    ensures n <= |s| && forall i :: 0 <= i < n ==> IsDigit(s[i])
    ensures n < |s| ==> !IsDigit(s[n])
  {
    if s != [] && IsDigit(s[0]) then 1 + DigitRun(s[1..]) else 0
  }

  /** Length of the longest prefix of currency characters. */
  function CurrencyRun(s: string): (n: nat)
    ensures n <= |s| && forall i :: 0 <= i < n ==> IsCurrencyChar(s[i])
    ensures n < |s| ==> !IsCurrencyChar(s[n])
  {
    if s != [] && IsCurrencyChar(s[0]) then 1 + CurrencyRun(s[1..]) else 0
  }

  /** The whitespace the pattern's leading `\s*` consumes. */
  function Lead(s: string): (w: string)
    ensures AllSpace(w)
  {
    s[..LeadingSpaces(s)]
  }

  /** The whitespace the pattern's trailing `\s*` consumes. */
  function Trail(s: string): (w: string)
    ensures AllSpace(w)
  {
    var t := s[LeadingSpaces(s)..];
    t[|t| - TrailingSpaces(t)..]
  }

  /** The string between the leading and the trailing whitespace. */
  function Core(s: string): (t: string)
    ensures s == Lead(s) + t + Trail(s)
  {
    var t0 := s[LeadingSpaces(s)..];
    var j := |t0| - TrailingSpaces(t0);
    SplitAt(s, LeadingSpaces(s));
    SplitAt(t0, j);
    assert Trail(s) == t0[j..];
    t0[..j]
  }

  lemma SplitAt(s: string, i: nat)
    requires i <= |s|
    ensures s == s[..i] + s[i..]
  {
  }

  /** `([0-9]+)\.?([0-9]+)?` matched against the whole of rest. */
  function ScanNumber(currency: string, rest: string): (m: Option<Captures>)
    ensures m.Some? ==> m.value.currency == currency && rest == Number(m.value)
    ensures m.Some? ==> |m.value.integer| > 0 && AllDigits(m.value.integer) && AllDigits(m.value.fraction)
    ensures m.Some? ==> !m.value.dot ==> m.value.fraction == []
  {
    var n := DigitRun(rest);
    if n == 0 then
      None
    else if n == |rest| then
      Some(Captures(currency, rest, false, []))
    else if rest[n] == '.' && AllDigits(rest[n + 1..]) then
      var p := Captures(currency, rest[..n], true, rest[n + 1..]);
      assert rest == p.integer + "." + p.fraction;
      Some(p)
    else
      None
  }

  /** The pattern without its whitespace, matched against the whole of t. */
  function ScanCore(t: string): (m: Option<Captures>)
    ensures m.Some? ==> WellFormed(m.value) && t == Body(m.value)
  {
    var k := CurrencyRun(t);
    if k == 0 || k == |t| || t[k] != ':' then
      None
    else
      var m := ScanNumber(t[..k], t[k + 1..]);
      assert m.Some? ==> t == t[..k] + ":" + Number(m.value);
      m
  }

  /** FindStringSubmatch with the amount pattern: the capture groups of the
      match, or None where Go returns nil. */
  function Scan(s: string): (m: Option<Captures>)
    ensures m.Some? ==> WellFormed(m.value) && s == Render(Lead(s), m.value, Trail(s))
  {
    ScanCore(Core(s))
  }

  lemma {:induction false} LeadingSpacesOf(lead: string, x: string)
    requires AllSpace(lead) && (x == [] || !IsSpace(x[0]))
    ensures LeadingSpaces(lead + x) == |lead|
    decreases |lead|
  {
    if lead != [] {
      assert (lead + x)[1..] == lead[1..] + x;
      LeadingSpacesOf(lead[1..], x);
    } else {
      assert lead + x == x;
    }
  }

  lemma {:induction false} TrailingSpacesOf(x: string, trail: string)
    requires AllSpace(trail) && (x == [] || !IsSpace(x[|x| - 1]))
    ensures TrailingSpaces(x + trail) == |trail|
    decreases |trail|
  {
    if trail != [] {
      assert (x + trail)[..|x + trail| - 1] == x + trail[..|trail| - 1];
      TrailingSpacesOf(x, trail[..|trail| - 1]);
    } else {
      assert x + trail == x;
    }
  }

  lemma {:induction false} DigitRunOf(x: string, y: string)
    requires AllDigits(x) && (y == [] || !IsDigit(y[0]))
    ensures DigitRun(x + y) == |x|
    decreases |x|
  {
    if x != [] {
      assert (x + y)[1..] == x[1..] + y;
      DigitRunOf(x[1..], y);
    } else {
      assert x + y == y;
    }
  }

  lemma {:induction false} CurrencyRunOf(x: string, y: string)
    requires forall i :: 0 <= i < |x| ==> IsCurrencyChar(x[i])
    requires y == [] || !IsCurrencyChar(y[0])
    ensures CurrencyRun(x + y) == |x|
    decreases |x|
  {
    if x != [] {
      assert (x + y)[1..] == x[1..] + y;
      CurrencyRunOf(x[1..], y);
    } else {
      assert x + y == y;
    }
  }

  /** The scanner finds every match of the pattern: any well-formed captures,
      wrapped in any whitespace, are scanned back exactly. Together with
      Scan's own contract this makes Scan and the pattern agree on every
      string. */
  lemma ScanRender(lead: string, p: Captures, trail: string)
    requires AllSpace(lead) && AllSpace(trail) && WellFormed(p)
    ensures Scan(Render(lead, p, trail)) == Some(p)
  {
    var tail := (if p.dot then "." else "") + p.fraction;
    var rest := Number(p);
    var core := Body(p);
    assert core == p.currency + (":" + rest);
    var s := Render(lead, p, trail);
    assert s == lead + (core + trail);
    LeadingSpacesOf(lead, core + trail);
    assert s[LeadingSpaces(s)..] == core + trail;
    assert core[|core| - 1] == if tail == [] then p.integer[|p.integer| - 1] else tail[|tail| - 1];
    TrailingSpacesOf(core, trail);
    assert Core(s) == core;
    CurrencyRunOf(p.currency, ":" + rest);
    assert core[|p.currency| + 1..] == rest;
    assert core[..|p.currency|] == p.currency;
    ScanNumberOf(p);
  }

  lemma ScanNumberOf(p: Captures)
    requires WellFormed(p)
    ensures ScanNumber(p.currency, Number(p)) == Some(p)
  {
    var tail := (if p.dot then "." else "") + p.fraction;
    var rest := Number(p);
    DigitRunOf(p.integer, tail);
    if p.dot {
      var n := |p.integer|;
      assert rest == p.integer + ("." + p.fraction);
      assert n < |rest| && rest[n] == '.';
      assert rest[..n] == p.integer;
      assert rest[n + 1..] == p.fraction;
      assert ScanNumber(p.currency, rest) == Some(Captures(p.currency, rest[..n], true, rest[n + 1..]));
    } else {
      assert rest == p.integer;
    }
  }

  /** The errors ParseAmount reports. MatchPanic stands for the run-time
      panic of indexing the nil slice that FindStringSubmatch returns when the
      pattern does not match: the only error tested before the indexing is
      the pattern's compile error, which cannot occur. */
  datatype ParseError = MatchPanic | FractionTooLong | ValueUnparsable

  /** The fraction that "0.<digits>" denotes, in units of 10^-8. */
  function ScaledFraction(digits: string): (f: nat)
    requires AllDigits(digits) && |digits| <= FractionalLength
    ensures f < FractionalBase
    ensures f == Value(digits) * Pow10(FractionalLength - |digits|)
  {
    Pow10Add(|digits|, FractionalLength - |digits|);
    assert Pow10(FractionalLength) == FractionalBase;
    var p := Pow10(FractionalLength - |digits|);
    MulStrict(Value(digits), Pow10(|digits|), p);
    Value(digits) * p
  }

  lemma MulStrict(x: nat, y: nat, p: nat)
    requires x < y && p >= 1
    ensures x * p < y * p
  {
  }

  /** The value and fraction checks shared by both length rules. */
  function Convert(p: Captures): (r: Result<Amount, ParseError>)
    requires WellFormed(p) && |p.fraction| <= FractionalLength
    ensures r.Success? <==> Value(p.integer) < Uint64Limit
    ensures r.Failure? ==> r.error == ValueUnparsable
    ensures r.Success? ==> r.value.currency == p.currency && r.value.value == Value(p.integer)
    ensures r.Success? ==> r.value.fraction < FractionalBase
  {
    var value := Value(p.integer);
    if value >= Uint64Limit then
      Failure(ValueUnparsable)
    else
      Success(NewAmount(p.currency, value, ScaledFraction(p.fraction)))
  }

  /** ParseAmount(s). The length test on "0." + digits admits at most 7
      fraction digits; the value is bounded by uint64 only. */
  function ParseAmount(s: string): (r: Result<Amount, ParseError>)
    ensures r == Failure(MatchPanic) <==> Scan(s) == None
    ensures r == Failure(FractionTooLong) <==> Scan(s).Some? && |Scan(s).value.fraction| > FractionalLength - 1
    ensures r.Success? ==> ValidCurrency(r.value.currency) && r.value.fraction < FractionalBase
  {
    match Scan(s)
    case None => Failure(MatchPanic)
    case Some(p) =>
      var tail := "0." + p.fraction;
      if |tail| > FractionalLength + 1 then Failure(FractionTooLong) else Convert(p)
  }

  /** What ParseAmount makes of every string the pattern matches. */
  lemma ParseAmountOfRender(lead: string, p: Captures, trail: string)
    requires AllSpace(lead) && AllSpace(trail) && WellFormed(p)
    ensures ParseAmount(Render(lead, p, trail)) ==
      if |p.fraction| > FractionalLength - 1 then Failure(FractionTooLong)
      else if Value(p.integer) >= Uint64Limit then Failure(ValueUnparsable)
      else Success(Amount(p.currency, Value(p.integer), ScaledFraction(p.fraction)))
  {
    ScanRender(lead, p, trail);
  }

  /** ParseAmount with the length rule its constant promises: up to
      FractionalLength (8) fraction digits. */
  function ParseAmountUpTo8(s: string): (r: Result<Amount, ParseError>)
    ensures r == Failure(MatchPanic) <==> Scan(s) == None
    ensures r == Failure(FractionTooLong) <==> Scan(s).Some? && |Scan(s).value.fraction| > FractionalLength
    ensures r.Success? ==> ValidCurrency(r.value.currency) && r.value.fraction < FractionalBase
  {
    match Scan(s)
    case None => Failure(MatchPanic)
    case Some(p) =>
      if |p.fraction| > FractionalLength then Failure(FractionTooLong) else Convert(p)
  }

  /** What the eight-digit parser makes of every string the pattern matches. */
  lemma ParseAmountUpTo8OfRender(lead: string, p: Captures, trail: string)
    requires AllSpace(lead) && AllSpace(trail) && WellFormed(p)
    ensures ParseAmountUpTo8(Render(lead, p, trail)) ==
      if |p.fraction| > FractionalLength then Failure(FractionTooLong)
      else if Value(p.integer) >= Uint64Limit then Failure(ValueUnparsable)
      else Success(Amount(p.currency, Value(p.integer), ScaledFraction(p.fraction)))
  {
    ScanRender(lead, p, trail);
  }
}
