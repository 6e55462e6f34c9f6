/** Currency conversion in exact integers, rounded once at the target's minor unit. */
module Conversion {
  import opened Wrappers
  import opened Arithmetic
  import R = Rates

  datatype Error =
    | NotPositiveRate | Overflow | NegativeAmount
    | IdentityAcrossCurrencies | SameCurrencyNeedsIdentity
    | MissingRateSet | LegCurrenciesDiffer | LegDatesDiffer
  datatype Result<+T> = Ok(value: T) | Err(error: Error)

  // ----- Big integers as the code sees them: a sign and base-2^64 limbs, least significant first -----

  const BASE: nat := 0x1_0000_0000_0000_0000

  datatype Sign = Minus | NoSign | Plus

  function SignOf(x: int): Sign {
    if x < 0 then Minus else if x == 0 then NoSign else Plus
  }

  function Limbs(m: nat): (ls: seq<nat>)
    ensures Normal(ls) && LimbValue(ls) == m
  {
    if m == 0 then [] else
      var rest := Limbs(m / BASE);
      assert ([m % BASE] + rest)[1..] == rest;
      [m % BASE] + rest
  }

  predicate Normal(ls: seq<nat>) {
    (forall i :: 0 <= i < |ls| ==> ls[i] < BASE) && (ls != [] ==> ls[|ls| - 1] != 0)
  }

  function LimbValue(ls: seq<nat>): nat {
    if ls == [] then 0 else ls[0] + BASE * LimbValue(ls[1..])
  }

  function ToU64Digits(x: int): (Sign, seq<nat>) {
    (SignOf(x), Limbs(if x < 0 then -x else x))
  }

  /** A normal limb sequence is the only one for its value. */
  lemma {:induction false} LimbsOfValue(ls: seq<nat>)
    requires Normal(ls)
    ensures Limbs(LimbValue(ls)) == ls
    ensures LimbValue(ls) == 0 <==> ls == []
    decreases |ls|
  {
    if ls != [] {
      LimbsOfValue(ls[1..]);
      DivUnique(LimbValue(ls), BASE, LimbValue(ls[1..]), ls[0]);
      assert ls == [ls[0]] + ls[1..];
    }
  }

  predicate IsEven(ls: seq<nat>) {
    ls == [] || ls[0] % 2 == 0
  }

  /** Parity is the parity of the lowest limb. */
  lemma LowestLimbParity(ls: seq<nat>)
    ensures IsEven(ls) <==> LimbValue(ls) % 2 == 0
  {
    if ls != [] {
      assert BASE * LimbValue(ls[1..]) == 2 * (BASE / 2 * LimbValue(ls[1..]));
    }
  }

  function ToMinorUnits(sign: Sign, ls: seq<nat>): Result<nat> {
    if sign == NoSign then Ok(0)
    else if sign == Plus && |ls| == 1 && ls[0] <= R.I64_MAX then Ok(ls[0])
    else if sign == Plus && ls == [] then Ok(0)
    else Err(Overflow)
  }

  /** One limb with its top bit clear is exactly the positive `i64` range. */
  lemma OneLimbIffFits(ls: seq<nat>)
    requires Normal(ls) && ls != []
    ensures |ls| == 1 && ls[0] <= R.I64_MAX <==> LimbValue(ls) <= R.I64_MAX
    ensures |ls| == 1 ==> LimbValue(ls) == ls[0]
  {
    if |ls| > 1 {
      LimbsOfValue(ls[1..]);
      MulMonotone(1, LimbValue(ls[1..]), BASE);
    } else {
      assert LimbValue(ls[1..]) == 0;
    }
  }

  lemma ToMinorUnitsMeaning(x: int)
    ensures var (sign, ls) := ToU64Digits(x);
      ToMinorUnits(sign, ls) == if 0 <= x <= R.I64_MAX then Ok(x) else Err(Overflow)
  {
    if x > 0 {
      LimbsOfValue(Limbs(x));
      OneLimbIffFits(Limbs(x));
    }
  }

  // ----- Rounding -----

  /** Quotient truncated toward zero, as `BigInt` divides. */
  function TruncDiv(n: int, d: nat): int
    requires d > 0
  {
    if n >= 0 then n / d else -((-n) / d)
  }

  function RoundHalfEven(numerator: int, denominator: int): Result<nat> {
    if SignOf(denominator) != Plus then Err(NotPositiveRate)
    else
      var quotient := TruncDiv(numerator, denominator);
      var remainder := numerator - quotient * denominator;
      var rounded :=
        if SignOf(remainder) == NoSign then quotient
        else
          var twice := remainder * 2;
          if twice < denominator then quotient
          else if twice > denominator then quotient + 1
          else if IsEven(ToU64Digits(quotient).1) then quotient else quotient + 1;
      var (sign, ls) := ToU64Digits(rounded);
      ToMinorUnits(sign, ls)
  }

  /** On amounts the result is the nearest integer, ties to even, and it overflows exactly when that integer
      leaves the `i64` range. */
  lemma RoundHalfEvenMeaning(n: nat, d: int)
    ensures d <= 0 ==> RoundHalfEven(n, d) == Err(NotPositiveRate)
    ensures d > 0 ==>
      RoundHalfEven(n, d) == if HalfEven(n, d) <= R.I64_MAX then Ok(HalfEven(n, d)) else Err(Overflow)
  {
    if d > 0 {
      DivMod(n, d);
      LowestLimbParity(Limbs(n / d));
      ToMinorUnitsMeaning(HalfEven(n, d));
    }
  }

  /** A negative numerator truncates toward zero, so only `(-1, 0)` still gives a result. */
  lemma RoundHalfEvenOfNegative(n: nat, d: nat)
    requires d > 0 && n > 0
    ensures RoundHalfEven(0 - n, d) == if n < d then Ok(0) else Err(Overflow)
  {
    var q := n / d;
    DivMod(n, d);
    assert (0 - q) * d == 0 - q * d;
    if n < d { DivUnique(n, d, 0, n); } else { MulCancel(1, q + 1, d); assert q != 0; }
    ToMinorUnitsMeaning(0 - q);
  }

  // ----- Conversion -----

  /** A currency and the number of digits of its ISO 4217 minor unit. */
  datatype Currency = Currency(code: string, digits: nat)
  datatype Money = Money(minorUnits: nat, currency: Currency)
  datatype Observation = Observation(currency: Currency, valueDate: nat, rate: R.Rate)
  datatype Legs = Legs(rateSetId: string, source: Observation, reference: Observation)
  datatype ConversionRate = IdentityRate | AutomaticRate(legs: Legs) | ManualRate(rate: R.Rate) | PendingRate(date: nat)
  datatype Variant = Identity | Automatic | Manual | Pending
  datatype Conversion = Conversion(source: Money, converted: Option<Money>, complete: bool, variant: Variant)

  function NewMoney(minorUnits: int, currency: Currency): Result<Money> {
    if minorUnits < 0 then Err(NegativeAmount) else Ok(Money(minorUnits, currency))
  }

  /** The power of ten, by repeated multiplication. */
  method PowerOfTen(exponent: nat) returns (value: nat)
    ensures value == Pow10(exponent)
  {
    value := 1;
    for i := 0 to exponent
      invariant value == Pow10(i)
    {
      value := value * 10;
    }
  }

  function ConvertWithRates(source: Money, target: Currency, sourceRate: R.Rate, targetRate: R.Rate): Result<Money> {
    var numerator := source.minorUnits * Pow10(target.digits) * targetRate.coefficient * Pow10(sourceRate.scale);
    var denominator := Pow10(source.currency.digits) * sourceRate.coefficient * Pow10(targetRate.scale);
    match RoundHalfEven(numerator, denominator)
    case Ok(minorUnits) => NewMoney(minorUnits, target)
    case Err(error) => Err(error)
  }

  function Complete(source: Money, converted: Result<Money>, variant: Variant): Result<Conversion> {
    match converted
    case Ok(money) => Ok(Conversion(source, Some(money), true, variant))
    case Err(error) => Err(error)
  }

  function Convert(source: Money, target: Currency, rate: ConversionRate): Result<Conversion> {
    var sameCurrency := source.currency == target;
    match rate
    case IdentityRate =>
      if !sameCurrency then Err(IdentityAcrossCurrencies)
      else Complete(source, Ok(source), Identity)
    case PendingRate(_) =>
      if sameCurrency then Err(SameCurrencyNeedsIdentity)
      else Ok(Conversion(source, None, false, Pending))
    case ManualRate(manual) =>
      if sameCurrency then Err(SameCurrencyNeedsIdentity)
      else Complete(source, ConvertWithRates(source, target, R.ONE, manual), Manual)
    case AutomaticRate(legs) =>
      if sameCurrency then Err(SameCurrencyNeedsIdentity)
      else if R.Trim(legs.rateSetId) == "" then Err(MissingRateSet)
      else if legs.source.currency != source.currency || legs.reference.currency != target then Err(LegCurrenciesDiffer)
      else if legs.source.valueDate != legs.reference.valueDate then Err(LegDatesDiffer)
      else Complete(source, ConvertWithRates(source, target, legs.source.rate, legs.reference.rate), Automatic)
  }

  /** The outcome of a conversion of every kind, by the currencies and the legs. In one currency nothing but the
      identity completes, and it gives the amount itself. A pending rate gives no amount and is incomplete. */
  lemma ConvertOutcome(source: Money, target: Currency, rate: ConversionRate)
    ensures var r := Convert(source, target, rate);
      && (source.currency == target ==>
            r == if rate.IdentityRate? then Ok(Conversion(source, Some(source), true, Identity))
                 else Err(SameCurrencyNeedsIdentity))
      && (source.currency != target && rate.IdentityRate? ==> r == Err(IdentityAcrossCurrencies))
      && (source.currency != target && rate.PendingRate? ==> r == Ok(Conversion(source, None, false, Pending)))
      && (r.Ok? ==> r.value.source == source && (r.value.complete <==> r.value.converted.Some?))
      && (r.Ok? && r.value.complete ==> r.value.converted.value.currency == target)
  {
  }

  /** An automatic conversion uses its legs only when both belong to it, on one date and from a named rate set. */
  lemma AutomaticNeedsItsLegs(source: Money, target: Currency, legs: Legs)
    requires source.currency != target
    ensures Convert(source, target, AutomaticRate(legs)).Ok? ==>
      && legs.source.currency == source.currency && legs.reference.currency == target
      && legs.source.valueDate == legs.reference.valueDate && R.Trim(legs.rateSetId) != ""
    ensures legs.rateSetId == "" || legs.rateSetId == " " ==>
      Convert(source, target, AutomaticRate(legs)) == Err(MissingRateSet)
  {
    assert R.Trim("") == "" && " "[1..] == "";
    assert R.Trim(" ") == "";
  }
}
