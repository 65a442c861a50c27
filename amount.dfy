/** The GNU Taler amount: a currency code, a whole-unit value and a fraction
    in units of 10^-8, with Add (carry, overflow check) and Sub (borrow).
    Both fields are Go uint64s; every place where the Go arithmetic can wrap
    is written out with `% Uint64Limit`. */
module Amounts {

  datatype Result<T, E> = Success(value: T) | Failure(error: E)

  const Uint64Limit: nat := 0x1_0000_0000_0000_0000

  type uint64 = x: int | 0 <= x < Uint64Limit

  /** The maximum number of fraction digits. */
  const FractionalLength: nat := 8

  /** The base of the fraction: one whole unit is 10^8 fraction units. */
  const FractionalBase: nat := 100_000_000

  /** The exclusive upper bound on a value produced by Add: 2^52. */
  const MaxAmountValue: nat := 4_503_599_627_370_496

  datatype Amount = Amount(currency: string, value: uint64, fraction: uint64)

  /** The errors Add and Sub report. Both report a too-large and a negative
      result with the same "Amount Overflow" message. */
  datatype AmountError = CurrencyMismatch | AmountOverflow

  /** The invariant the arithmetic expects of its operands and keeps. */
  predicate Valid(a: Amount) {
    a.value < MaxAmountValue && a.fraction < FractionalBase
  }

  /** The amount as a whole number of 10^-8 units. */
  function Magnitude(a: Amount): nat {
    a.value * FractionalBase + a.fraction
  }

  /** NewAmount stores its arguments as given: no normalisation of a
      fraction of 10^8 or more. */
  function NewAmount(currency: string, value: uint64, fraction: uint64): (a: Amount)
    ensures a.currency == currency && a.value == value && a.fraction == fraction
    ensures Magnitude(a) == value * FractionalBase + fraction
  {
    Amount(currency, value, fraction)
  }

  function IsZero(a: Amount): (z: bool)
    ensures z <==> Magnitude(a) == 0
  {
    a.value == 0 && a.fraction == 0
  }

  /** a.Add(b). The carry is the integer quotient that the Go code computes
      through float64, and the value sum wraps like a uint64 before the
      overflow check sees it. */
  function Add(a: Amount, b: Amount): (r: Result<Amount, AmountError>)
    ensures r == Failure(CurrencyMismatch) <==> a.currency != b.currency
    ensures r.Success? ==> r.value.currency == a.currency
    ensures r.Success? ==> r.value.value < MaxAmountValue && r.value.fraction < FractionalBase
  {
    if a.currency != b.currency then
      Failure(CurrencyMismatch)
    else
      var carry := (a.fraction + b.fraction) / FractionalBase;
      var v := (a.value + b.value + carry) % Uint64Limit;
      if v >= MaxAmountValue then
        Failure(AmountOverflow)
      else
        var f := ((a.fraction + b.fraction) % Uint64Limit) % FractionalBase;
        Success(Amount(a.currency, v, f))
  }

  /** a.Sub(b). The borrow decrements the value as a uint64, so a zero value
      wraps to 2^64 - 1 and the later `v < b.Value` test no longer fires. */
  function Sub(a: Amount, b: Amount): (r: Result<Amount, AmountError>)
    ensures r == Failure(CurrencyMismatch) <==> a.currency != b.currency
    ensures r.Success? ==> r.value.currency == a.currency
  {
    if a.currency != b.currency then
      Failure(CurrencyMismatch)
    else
      var borrow := a.fraction < b.fraction;
      var v := if borrow then (a.value - 1) % Uint64Limit else a.value;
      var f := if borrow then (a.fraction + FractionalBase) % Uint64Limit else a.fraction;
      var f' := (f - b.fraction) % Uint64Limit;
      if v < b.value then
        Failure(AmountOverflow)
      else
        Success(Amount(a.currency, v - b.value, f'))
  }

  /** Add on operands with fractions below 10^8 whose value sum does not
      wrap is exact addition of magnitudes, and it fails exactly when the
      value sum, carry included, reaches 2^52. */
  lemma AddExact(a: Amount, b: Amount)
    requires a.fraction < FractionalBase && b.fraction < FractionalBase
    requires a.currency == b.currency
    requires a.value + b.value + (a.fraction + b.fraction) / FractionalBase < Uint64Limit
    ensures var carry := (a.fraction + b.fraction) / FractionalBase;
      && carry <= 1
      && (Add(a, b).Success? <==> a.value + b.value + carry < MaxAmountValue)
      && (Add(a, b).Success? <==> Magnitude(a) + Magnitude(b) < MaxAmountValue * FractionalBase)
      && (Add(a, b).Success? ==>
            && Add(a, b).value.value == a.value + b.value + carry
            && Add(a, b).value.fraction == (a.fraction + b.fraction) % FractionalBase
            && Magnitude(Add(a, b).value) == Magnitude(a) + Magnitude(b)
            && Valid(Add(a, b).value))
      && (Add(a, b).Failure? ==> Add(a, b).error == AmountOverflow)
  {
  }

  /** Add is commutative, failures included. */
  lemma AddCommutative(a: Amount, b: Amount)
    ensures a.currency == b.currency ==> Add(a, b) == Add(b, a)
    ensures a.currency != b.currency ==> Add(a, b) == Add(b, a) == Failure(CurrencyMismatch)
  {
  }

  /** Sub on operands with fractions below 10^8, of any uint64 values, when
      the borrow cannot wrap, fails exactly when a < b and otherwise yields
      the exact difference of magnitudes, with a fraction below 10^8. */
  lemma SubExact(a: Amount, b: Amount)
    requires a.fraction < FractionalBase && b.fraction < FractionalBase
    requires a.currency == b.currency
    requires a.value >= 1 || a.fraction >= b.fraction
    ensures Sub(a, b).Success? <==> Magnitude(a) >= Magnitude(b)
    ensures Sub(a, b).Failure? ==> Sub(a, b).error == AmountOverflow
    ensures Sub(a, b).Success? ==>
      && Magnitude(Sub(a, b).value) == Magnitude(a) - Magnitude(b)
      && Sub(a, b).value.fraction < FractionalBase
      && (Valid(a) ==> Valid(Sub(a, b).value))
  {
    if a.fraction < b.fraction {
      assert Magnitude(a) >= Magnitude(b) <==> a.value - 1 >= b.value;
    } else {
      assert Magnitude(a) >= Magnitude(b) <==> a.value >= b.value;
    }
  }

  /** The wrap: when a's value is 0 and a borrow is needed, Sub succeeds
      although a < b, and the result's value is 2^64 - 1 minus b's value. */
  lemma SubWrapsOnZeroValue(a: Amount, b: Amount)
    requires Valid(a) && Valid(b) && a.currency == b.currency
    requires a.value == 0 && a.fraction < b.fraction
    ensures Magnitude(a) < Magnitude(b)
    ensures Sub(a, b).Success?
    ensures Sub(a, b).value.value == Uint64Limit - 1 - b.value
    ensures Sub(a, b).value.fraction == a.fraction + FractionalBase - b.fraction
  {
  }

  /** Subtracting what was just added gives back the original amount. */
  lemma SubUndoesAdd(a: Amount, b: Amount)
    requires Valid(a) && Valid(b) && Add(a, b).Success?
    ensures Sub(Add(a, b).value, b) == Success(a)
  {
    AddExact(a, b);
    var s := Add(a, b).value;
    SubExact(s, b);
    MagnitudeDetermines(Sub(s, b).value, a);
  }

  /** Adding back what was subtracted gives back the original amount. */
  lemma AddUndoesSub(a: Amount, b: Amount)
    requires Valid(a) && Valid(b) && Sub(a, b).Success?
    requires a.value >= 1 || a.fraction >= b.fraction
    ensures Add(Sub(a, b).value, b) == Success(a)
  {
    SubExact(a, b);
    var d := Sub(a, b).value;
    AddExact(d, b);
    MagnitudeDetermines(Add(d, b).value, a);
  }

  /** Two valid amounts of one currency with equal magnitudes are equal. */
  lemma MagnitudeDetermines(x: Amount, y: Amount)
    requires x.fraction < FractionalBase && y.fraction < FractionalBase
    requires x.currency == y.currency && Magnitude(x) == Magnitude(y)
    ensures x == y
  {
  }

  /** Sub as the comment above it intends ("a >= b"): a borrow never wraps,
      and a < b is always reported. */
  function SubChecked(a: Amount, b: Amount): (r: Result<Amount, AmountError>)
    requires a.fraction < FractionalBase && b.fraction < FractionalBase
    ensures r == Failure(CurrencyMismatch) <==> a.currency != b.currency
    ensures r.Success? ==> r.value.currency == a.currency
  {
    if a.currency != b.currency then
      Failure(CurrencyMismatch)
    else if a.value < b.value || (a.value == b.value && a.fraction < b.fraction) then
      Failure(AmountOverflow)
    else if a.fraction < b.fraction then
      Success(Amount(a.currency, a.value - 1 - b.value, a.fraction + FractionalBase - b.fraction))
    else
      Success(Amount(a.currency, a.value - b.value, a.fraction - b.fraction))
  }

  /** SubChecked fails exactly when a < b, for every pair of valid operands. */
  lemma SubCheckedExact(a: Amount, b: Amount)
    requires Valid(a) && Valid(b) && a.currency == b.currency
    ensures SubChecked(a, b).Success? <==> Magnitude(a) >= Magnitude(b)
    ensures SubChecked(a, b).Success? ==>
      && Magnitude(SubChecked(a, b).value) == Magnitude(a) - Magnitude(b)
      && Valid(SubChecked(a, b).value)
  {
  }

  /** Add as its comment intends: the value sum is checked against 2^52
      before it can wrap. */
  function AddChecked(a: Amount, b: Amount): (r: Result<Amount, AmountError>)
    ensures r == Failure(CurrencyMismatch) <==> a.currency != b.currency
    ensures r.Success? ==> r.value.currency == a.currency
  {
    if a.currency != b.currency then
      Failure(CurrencyMismatch)
    else
      var sum := a.value + b.value + (a.fraction + b.fraction) / FractionalBase;
      if sum >= MaxAmountValue then
        Failure(AmountOverflow)
      else
        Success(Amount(a.currency, sum, (a.fraction + b.fraction) % FractionalBase))
  }

  /** AddChecked reports overflow exactly when the exact sum reaches 2^52
      whole units, whatever the operands' values. */
  lemma AddCheckedExact(a: Amount, b: Amount)
    requires a.fraction < FractionalBase && b.fraction < FractionalBase
    requires a.currency == b.currency
    ensures AddChecked(a, b).Success? <==> Magnitude(a) + Magnitude(b) < MaxAmountValue * FractionalBase
    ensures AddChecked(a, b).Success? ==>
      && Magnitude(AddChecked(a, b).value) == Magnitude(a) + Magnitude(b)
      && Valid(AddChecked(a, b).value)
  {
  }

  /** The wrap in Add: a value of 2^64 - 1 plus one whole unit passes the
      overflow check and yields zero. */
  lemma AddWrapsPastUint64()
    ensures Add(Amount("EUR", Uint64Limit - 1, 0), Amount("EUR", 1, 0)) == Success(Amount("EUR", 0, 0))
    ensures AddChecked(Amount("EUR", Uint64Limit - 1, 0), Amount("EUR", 1, 0)) == Failure(AmountOverflow)
  {
  }
}
