/** The quotient of two exchange rates: the division algorithm, and what its result is worth. */
module RateQuotients {
  import opened Arithmetic
  import opened DecimalText
  import opened Rates
  import opened RateDivision

  // ----- Facts about the reference definition -----

  lemma {:induction false} FractionDigitsReach(n: nat, d: nat)
    requires n > 0 && d > 0
    ensures var k := FractionDigits(n, d);
      TEN17 * d <= n * Pow10(k) && (k > 0 ==> n * Pow10(k) < 10 * TEN17 * d)
    decreases TEN17 * d - n
  {
    if n < TEN17 * d {
      FractionDigitsReach(10 * n, d);
      var k := FractionDigits(10 * n, d);
      assert n * Pow10(k + 1) == (10 * n) * Pow10(k);
    }
  }

  lemma {:induction false} FractionDigitsBound(n: nat, d: nat, k: nat)
    requires n > 0 && d > 0 && TEN17 * d <= n * Pow10(k)
    ensures FractionDigits(n, d) <= k
    decreases k
  {
    if n < TEN17 * d {
      assert n * Pow10(k) == (10 * n) * Pow10(k - 1);
      FractionDigitsBound(10 * n, d, k - 1);
    }
  }

  lemma Pow10Twenty()
    ensures Pow10(20) == 100_000_000_000_000_000_000
  {
    assert Pow10(5) == 100_000;
    Pow10Add(5, 5);
    Pow10Add(10, 10);
  }

  lemma Pow10Sixty()
    ensures TEN17 * I128_MAX <= Pow10(60)
  {
    Pow10Twenty();
    Pow10Add(20, 20);
    Pow10Add(40, 20);
  }

  lemma FractionDigitsSmall(n: nat, d: nat)
    requires n > 0 && 0 < d <= I128_MAX
    ensures FractionDigits(n, d) <= 60
  {
    Pow10Sixty();
    MulMonotone(1, n, Pow10(60));
    FractionDigitsBound(n, d, 60);
  }

  lemma RoundedDigitsLarge(n: nat, d: nat)
    requires n > 0 && d > 0
    ensures RoundedDigits(n, d) >= TEN17
    ensures n < TEN17 * d ==> RoundedDigits(n, d) <= 10 * TEN17
  {
    var k := FractionDigits(n, d);
    FractionDigitsReach(n, d);
    HalfEvenExact(TEN17, d);
    HalfEvenExact(10 * TEN17, d);
    HalfEvenMonotone(TEN17 * d, n * Pow10(k), d);
    if n < TEN17 * d {
      HalfEvenMonotone(n * Pow10(k), 10 * TEN17 * d, d);
    }
  }

  /** Once the remainder is zero it stays zero. */
  lemma ExactLater(n: nat, d: nat, j: nat, a: nat, more: nat)
    requires d > 0 && At(n, d, j, a, 0)
    ensures a * Pow10(more) >= 0 && n * Pow10(j + more) == a * Pow10(more) * d
    ensures RemainderAt(n, d, j + more) == 0
  {
    Pow10Add(j, more);
    var p := Pow10(more);
    MulMonotone(0, a, p);
    MulAssoc(n, Pow10(j), p);
    MulAssoc(a, d, p);
    MulAssoc(a, p, d);
    DivUnique(n * Pow10(j + more), d, a * p, 0);
  }

  lemma NormaliseTenfold(b: nat, j: nat)
    ensures Normalise(10 * b, j + 1) == Normalise(b, j)
  {
  }

  lemma {:induction false} NormaliseAppended(a: nat, j: nat, more: nat)
    ensures a * Pow10(more) >= 0 && Normalise(a * Pow10(more), j + more) == Normalise(a, j)
    decreases more
  {
    if more > 0 {
      NormaliseAppended(a, j, more - 1);
      var p := Pow10(more - 1);
      var b: nat := a * p;
      MulTen(a, p);
      NormaliseTenfold(b, j + more - 1);
    } else {
      assert a * Pow10(0) == a;
    }
  }

  lemma ExactSpec(n: nat, d: nat, ds: seq<nat>, a: nat)
    requires Dividing(n, d, ds, a, 0)
    requires ds == [] ==> n % d == 0
    requires ds != [] ==> n < TEN17 * d
    ensures StepsFit(n, d) && QuotientDigits(n, d) == Normalise(a, |ds|)
  {
    var k := FractionDigits(n, d);
    var more := k - |ds|;
    forall j | |ds| <= j <= k
      ensures RemainderAt(n, d, j) == 0
    {
      ExactLater(n, d, |ds|, a, j - |ds|);
    }
    ExactLater(n, d, |ds|, a, more);
    NormaliseAppended(a, |ds|, more);
    HalfEvenExact(a * Pow10(more), d);
  }

  lemma RoundedSpec(n: nat, d: nat, ds: seq<nat>, a: nat, rem: nat)
    requires Dividing(n, d, ds, a, rem) && |ds| == FractionDigits(n, d) && rem != 0
    ensures StepsFit(n, d) <==> 10 * rem <= I128_MAX
    ensures 0 <= (10 * rem) / d && 0 <= (10 * rem) % d
    ensures RoundedDigits(n, d) == a + (if RoundsUp((10 * rem) / d, (10 * rem) % d, a % 2 == 1) then 1 else 0)
    ensures n / d < I128_MAX || n > I128_MAX
  {
    RemainderOf(n, d, |ds|, a, rem);
    RoundsHalfEven(n * Pow10(|ds|), d, a, rem);
    DivMod(n, d);
    MulMonotone(2, d, n / d);
  }

  lemma FractionDigitsZeroIff(n: nat, d: nat)
    requires n > 0 && d > 0
    ensures FractionDigits(n, d) == 0 <==> n >= TEN17 * d
  {
  }

  lemma QuotientDigitsShape(n: nat, d: nat)
    requires n > 0 && d > 0
    ensures var (c, s) := QuotientDigits(n, d); c > 0 && s <= FractionDigits(n, d)
  {
    RoundedDigitsLarge(n, d);
  }

  // ----- The algorithm -----

  lemma TextOfDigits(whole: nat, fraction: seq<nat>)
    requires Digits(fraction) && fraction != []
    ensures Dec(whole) + "." + Text(fraction) == Render(Joined(whole, fraction), |fraction|)
  {
    JoinedText(whole, fraction);
    RenderOfAppended(Dec(whole), Text(fraction));
  }

  /** The integer digits, then a point and the fraction digits if there are any. */
  method RenderDigits(whole: nat, fraction: seq<nat>) returns (raw: string)
    requires Digits(fraction)
    ensures raw == if fraction == [] then Dec(whole) else Render(Joined(whole, fraction), |fraction|)
  {
    raw := Dec(whole);
    if fraction != [] {
      raw := raw + ".";
      for i := 0 to |fraction|
        invariant raw == Dec(whole) + "." + Text(fraction[..i])
      {
        assert fraction[..i + 1][..i] == fraction[..i];
        raw := raw + [DigitChar(fraction[i])];
      }
      assert fraction[..|fraction|] == fraction;
      TextOfDigits(whole, fraction);
    }
  }

  /** Trims and re-parses the digits `a / 10^scale`; its error branch is never taken for a positive number. */
  method ReparseDigits(raw: string, ghost c: nat, ghost s: nat) returns (r: Result<Rate>)
    requires c > 0 && s <= U32_MAX && TrimZerosAndPoint(raw) == Render(c, s)
    ensures r == if c > I64_MAX then Err(CoefficientTooLarge) else Ok(Rate(Render(c, s), c, s))
  {
    var trimmed := TrimZerosAndPoint(raw);
    RenderNotZero(c, s);
    ParseRateOfRender(c, s);
    if trimmed == "" || trimmed == "0" {
      return Err(CannotDivide);
    }
    r := ParseRate(trimmed);
  }

  /** Rounds the digits half-even by the next digit, carrying in place. */
  method RoundDigits(numer: nat, denom: nat, whole0: nat, fraction0: seq<nat>, remainder: nat)
    returns (ok: bool, whole: nat, fraction: seq<nat>)
    requires Dividing(numer, denom, fraction0, Joined(whole0, fraction0), remainder) && whole0 == numer / denom
    requires numer <= I128_MAX && remainder != 0 && |fraction0| == FractionDigits(numer, denom)
    ensures ok <==> StepsFit(numer, denom)
    ensures ok ==>
      Digits(fraction) && |fraction| == |fraction0| && Joined(whole, fraction) == RoundedDigits(numer, denom)
  {
    RoundedSpec(numer, denom, fraction0, Joined(whole0, fraction0), remainder);
    JoinedParity(whole0, fraction0);
    whole, fraction := whole0, fraction0;
    if 10 * remainder > I128_MAX {
      return false, whole, fraction;
    }
    var next: nat, rest: nat := (10 * remainder) / denom, (10 * remainder) % denom;
    var lastIsOdd := if fraction != [] then fraction[|fraction| - 1] % 2 == 1 else whole % 2 == 1;
    if RoundsUp(next, rest, lastIsOdd) {
      var buffer := new nat[|fraction|](i requires 0 <= i < |fraction| => fraction[i]);
      assert buffer[..] == fraction;
      whole := RoundUpFraction(whole, buffer);
      fraction := buffer[..];
    }
    ok := true;
  }

  method FromRatio(numer: int, denom: int) returns (r: Result<Rate>)
    requires IsI128(numer) && IsI128(denom)
    ensures r == FromRatioSpec(numer, denom)
  {
    if numer <= 0 || denom <= 0 {
      return Err(CannotDivide);
    }
    QuotientDigitsShape(numer, denom);
    FractionDigitsSmall(numer, denom);
    DivMod(numer, denom);
    DividingStarts(numer, denom);
    var whole: nat := numer / denom;
    if numer % denom == 0 {
      ExactSpec(numer, denom, [], whole);
      ParseRateOfRender(whole, 0);
      r := ParseRate(Dec(whole));
      return;
    }
    var ok, fraction, remainder := GenerateFraction(numer, denom);
    if !ok {
      return Err(CannotDivide);
    }
    FractionDigitsZeroIff(numer, denom);
    if remainder != 0 {
      ok, whole, fraction := RoundDigits(numer, denom, whole, fraction, remainder);
      if !ok {
        return Err(CannotDivide);
      }
    } else {
      ExactSpec(numer, denom, fraction, Joined(whole, fraction));
    }
    var raw := RenderDigits(whole, fraction);
    ghost var (c, s) := QuotientDigits(numer, denom);
    if fraction == [] {
      TrimOfInteger(whole);
    } else {
      TrimOfRender(Joined(whole, fraction), |fraction|);
    }
    r := ReparseDigits(raw, c, s);
  }

  // ----- What the quotient is worth -----

  function Distance(x: int, y: int): nat {
    if x < y then y - x else x - y
  }

  /** `c / 10^s` differs from `n / d` by at most 5 parts in 10^18 of `n / d`. */
  ghost predicate Accurate(n: nat, d: nat, c: nat, s: nat) {
    2 * TEN17 * Distance(c * d, n * Pow10(s)) <= n * Pow10(s)
  }

  /** The rounding error of `c * t / (10^s * t)` against `n / d`, before and after cancelling `t`. */
  lemma ErrorCancels(n: nat, d: nat, c: nat, p: nat, t: nat)
    requires t > 0 && d > 0 && 0 - d <= 2 * (n * (p * t) - (c * t) * d) <= d && TEN17 * d <= n * (p * t)
    ensures 2 * TEN17 * Distance(c * d, n * p) <= n * p
  {
    var x := n * p - c * d;
    MulAssoc(n, p, t);
    MulAssoc(c, t, d);
    MulAssoc(c, d, t);
    assert n * (p * t) - (c * t) * d == x * t;
    assert (2 * TEN17 * x) * t == TEN17 * (2 * (x * t));
    MulCancel(2 * TEN17 * x, n * p, t);
    assert (2 * TEN17 * (0 - x)) * t == TEN17 * (2 * (0 - x * t));
    MulCancel(2 * TEN17 * (0 - x), n * p, t);
  }

  /** A decimal equal to the rounded digits is accurate. */
  lemma RoundedIsAccurate(n: nat, d: nat, c: nat, s: nat)
    requires n > 0 && d > 0 && s <= FractionDigits(n, d)
    requires c * Pow10(FractionDigits(n, d) - s) == RoundedDigits(n, d)
    ensures Accurate(n, d, c, s)
  {
    var k := FractionDigits(n, d);
    FractionDigitsReach(n, d);
    Pow10Add(s, k - s);
    ErrorCancels(n, d, c, Pow10(s), Pow10(k - s));
  }

  /** Below 10^17 the division is correctly rounded: the result is the half-even rounding of `n / d` to
      exactly 18 significant digits, in lowest terms, and always fits the coefficient. */
  lemma QuotientCorrectlyRounded(n: nat, d: nat)
    requires n > 0 && 0 < d <= I128_MAX && n < TEN17 * d && StepsFit(n, d)
    ensures FromRatioSpec(n, d).Ok?
    ensures var q, k := FromRatioSpec(n, d).value, FractionDigits(n, d);
      && q.scale <= k && q.coefficient * Pow10(k - q.scale) == RoundedDigits(n, d)
      && TEN17 * d <= n * Pow10(k) < 10 * TEN17 * d
      && (q.scale == 0 || q.coefficient % 10 != 0) && 0 < q.coefficient <= 10 * TEN17
      && Accurate(n, d, q.coefficient, q.scale)
  {
    var k := FractionDigits(n, d);
    FractionDigitsReach(n, d);
    RoundedDigitsLarge(n, d);
    NormaliseValue(RoundedDigits(n, d), k);
    var (c, s) := QuotientDigits(n, d);
    NoLessThanFactor(c, Pow10(k - s));
    RoundedIsAccurate(n, d, c, s);
  }

  lemma NoLessThanFactor(c: nat, t: nat)
    requires t > 0
    ensures c <= c * t
  {
    MulMonotone(1, t, c);
  }

  /** The result is exact whenever 18 significant digits are enough, and only then. */
  lemma QuotientExactIff(n: nat, d: nat)
    requires n > 0 && 0 < d <= I128_MAX && FromRatioSpec(n, d).Ok?
    ensures var q := FromRatioSpec(n, d).value;
      q.coefficient * d == n * Pow10(q.scale) <==> RemainderAt(n, d, FractionDigits(n, d)) == 0
  {
    var q, k := FromRatioSpec(n, d).value, FractionDigits(n, d);
    FractionDigitsZeroIff(n, d);
    if n >= TEN17 * d && n % d != 0 {
      assert q.scale == 0 && n * Pow10(0) == n;
      if q.coefficient * d == n { DivUnique(n, d, q.coefficient, 0); }
    } else {
      NormaliseValue(RoundedDigits(n, d), k);
      Pow10Add(q.scale, k - q.scale);
      ExactAfterScaling(n, d, q.coefficient, Pow10(q.scale), Pow10(k - q.scale));
    }
  }

  lemma ExactAfterScaling(n: nat, d: nat, c: nat, p: nat, t: nat)
    requires d > 0 && t > 0 && n * (p * t) >= 0 && c * t == HalfEven(n * (p * t), d)
    ensures c * d == n * p <==> (n * (p * t)) % d == 0
  {
    EqualAfterScaling(n, d, c, p, t);
    RoundsExactlyIff(n * (p * t), d);
  }

  lemma EqualAfterScaling(n: nat, d: nat, c: nat, p: nat, t: nat)
    requires t > 0
    ensures c * d == n * p <==> (c * t) * d == n * (p * t)
  {
    MulAssoc(n, p, t);
    MulAssoc(c, t, d);
    MulAssoc(c, d, t);
    if (c * d) * t == (n * p) * t {
      MulCancel(c * d, n * p, t);
      MulCancel(n * p, c * d, t);
    }
  }

  lemma RoundsExactlyIff(n: nat, d: nat)
    requires d > 0
    ensures HalfEven(n, d) * d == n <==> n % d == 0
  {
    DivMod(n, d);
    if n % d == 0 {
      HalfEvenExact(n / d, d);
    } else if HalfEven(n, d) * d == n {
      DivUnique(n, d, HalfEven(n, d), 0);
    }
  }

  lemma StrippedIsOff(n: nat, d: nat, c: nat)
    requires d > 0 && TEN17 * d <= n && HalfEven(n, d) % 10 == 0 && 10 * c <= HalfEven(n, d)
    ensures !Accurate(n, d, c, 0)
  {
    assert n * Pow10(0) == n;
    MulMonotone(10 * c, HalfEven(n, d), d);
    assert 10 * c * d == 10 * (c * d);
  }

  /** The trim takes no zero of an integer: the fraction is not empty, the division comes out even, or the rounded
      integer does not end in zero. */
  ghost predicate KeepsItsZeros(n: nat, d: nat)
    requires d > 0
  {
    n < TEN17 * d || n % d == 0 || HalfEven(n, d) % 10 != 0
  }

  /** The result keeps its promised accuracy exactly when the fraction is not empty, the division comes out
      even, or the rounded integer does not end in a zero that the trim would take. */
  lemma AccurateIff(n: nat, d: nat)
    requires n > 0 && 0 < d <= I128_MAX && FromRatioSpec(n, d).Ok?
    ensures var q := FromRatioSpec(n, d).value;
      Accurate(n, d, q.coefficient, q.scale) <==> KeepsItsZeros(n, d)
  {
    var (c, s) := QuotientDigits(n, d);
    var big := RoundedDigits(n, d);
    NormaliseValue(big, FractionDigits(n, d));
    RoundedDigitsLarge(n, d);
    FractionDigitsZeroIff(n, d);
    assert n * Pow10(0) == n && c * Pow10(0) == c;
    if n >= TEN17 * d && n % d != 0 && big % 10 == 0 {
      StrippedIsOff(n, d, c);
    } else {
      RoundedIsAccurate(n, d, c, s);
    }
  }

  lemma {:induction false} StripPowerOfTen(k: nat)
    ensures StripZeros(Pow10(k)) == 1
  {
    if k > 0 { StripPowerOfTen(k - 1); }
  }

  /** A quotient of eighteen integer digits loses its zeros: 300000000000000001 / 3 comes out as "1". */
  lemma WholeZerosAreLost()
    ensures FromRatioSpec(300_000_000_000_000_001, 3) == Ok(Rate("1", 1, 0))
    ensures !Accurate(300_000_000_000_000_001, 3, 1, 0)
  {
    var n, d := 300_000_000_000_000_001, 3;
    assert n * Pow10(0) == n;
    assert StepsFit(n, d) by { assert FractionDigits(n, d) == 0; }
    HalfEvenOf(n, d, TEN17);
    Pow10Seventeen();
    StripPowerOfTen(17);
    assert Render(1, 0) == "1";
    StrippedIsOff(n, d, 1);
  }

  /** No multiplication overflows while the denominator leaves room for one more digit. */
  lemma SmallDenominatorFits(n: nat, d: nat)
    requires n > 0 && 0 < d <= I128_MAX / 10
    ensures StepsFit(n, d)
  {
    forall j | 0 <= j <= FractionDigits(n, d)
      ensures 10 * RemainderAt(n, d, j) <= I128_MAX
    {
      DivMod(n * Pow10(j), d);
    }
  }

  // ----- Division of rates -----

  /** Numerator and denominator of `x / y` as integers. */
  ghost function CrossNumer(x: Rate, y: Rate): nat {
    x.coefficient * Pow10(y.scale)
  }

  ghost function CheckedDivSpec(x: Rate, y: Rate): Result<Rate> {
    var n, d := CrossNumer(x, y), CrossNumer(y, x);
    if Pow10(y.scale) > I128_MAX || n > I128_MAX || Pow10(x.scale) > I128_MAX || d > I128_MAX
    then Err(CannotDivide)
    else FromRatioSpec(n, d)
  }

  function CheckedPow10(scale: nat): Result<nat> {
    if Pow10(scale) > I128_MAX then Err(CannotDivide) else Ok(Pow10(scale))
  }

  function CheckedMul(a: nat, b: nat): Result<nat> {
    if a * b > I128_MAX then Err(CannotDivide) else Ok(a * b)
  }

  /** Rates with positive coefficients and at most 18 decimals, whose quotient is below 10^17. */
  ghost predicate OrdinaryRates(x: Rate, y: Rate) {
    && 0 < x.coefficient <= I64_MAX && 0 < y.coefficient <= I64_MAX && x.scale <= 18 && y.scale <= 18
    && x.coefficient * Pow10(y.scale) < TEN17 * (y.coefficient * Pow10(x.scale))
  }

  /** The quotient is `x / y` to 5 parts in 10^18. */
  ghost predicate IsNearQuotient(q: Rate, x: Rate, y: Rate) {
    var n, d := x.coefficient * Pow10(y.scale), y.coefficient * Pow10(x.scale);
    2 * TEN17 * Distance(q.coefficient * d, n * Pow10(q.scale)) <= n * Pow10(q.scale)
  }

  method CheckedDiv(x: Rate, y: Rate) returns (r: Result<Rate>)
    ensures r == CheckedDivSpec(x, y)
    ensures OrdinaryRates(x, y) ==> r.Ok? && IsNearQuotient(r.value, x, y)
    ensures x.coefficient * Pow10(y.scale) > I128_MAX || y.coefficient * Pow10(x.scale) > I128_MAX ==>
      r == Err(CannotDivide)
  {
    if OrdinaryRates(x, y) { OrdinaryRatesDivide(x, y); }
    var p := CheckedPow10(y.scale);
    if p.Err? { return Err(p.error); }
    var numer := CheckedMul(x.coefficient, p.value);
    if numer.Err? { return Err(numer.error); }
    p := CheckedPow10(x.scale);
    if p.Err? { return Err(p.error); }
    var denom := CheckedMul(y.coefficient, p.value);
    if denom.Err? { return Err(denom.error); }
    r := FromRatio(numer.value, denom.value);
  }

  /** With positive coefficients, products within an `i128`, room for one more digit in the denominator and a quotient
      below 10^17, the division succeeds and is accurate. */
  lemma DivisionInRange(x: Rate, y: Rate)
    requires x.coefficient > 0 && y.coefficient > 0
    requires x.coefficient * Pow10(y.scale) <= I128_MAX && y.coefficient * Pow10(x.scale) <= I128_MAX / 10
    requires x.coefficient * Pow10(y.scale) < TEN17 * (y.coefficient * Pow10(x.scale))
    ensures CheckedDivSpec(x, y).Ok? && IsNearQuotient(CheckedDivSpec(x, y).value, x, y)
  {
    NoLessThanFactor(Pow10(y.scale), x.coefficient);
    NoLessThanFactor(Pow10(x.scale), y.coefficient);
    MulStrict(0, x.coefficient, Pow10(y.scale));
    MulStrict(0, y.coefficient, Pow10(x.scale));
    var n, d := x.coefficient * Pow10(y.scale), y.coefficient * Pow10(x.scale);
    assert CrossNumer(x, y) == n && CrossNumer(y, x) == d;
    SmallDenominatorFits(n, d);
    QuotientCorrectlyRounded(n, d);
  }

  lemma OrdinaryProduct(c: nat, s: nat)
    requires c <= I64_MAX && s <= 18
    ensures c * Pow10(s) <= I128_MAX / 10
  {
    Pow10Seventeen();
    Pow10Monotone(s, 18);
    assert Pow10(18) == 10 * TEN17;
    MulMonotone(c, I64_MAX, Pow10(s));
    MulMonotone(Pow10(s), 10 * TEN17, I64_MAX);
  }

  /** Rates of up to 18 decimals always divide accurately while the quotient is below 10^17. */
  lemma OrdinaryRatesDivide(x: Rate, y: Rate)
    requires OrdinaryRates(x, y)
    ensures CheckedDivSpec(x, y).Ok? && IsNearQuotient(CheckedDivSpec(x, y).value, x, y)
  {
    OrdinaryProduct(x.coefficient, y.scale);
    OrdinaryProduct(y.coefficient, x.scale);
    DivisionInRange(x, y);
  }

  /** A product beyond the `i128` range makes the division fail. */
  lemma DivisionOverflows(x: Rate, y: Rate)
    requires x.coefficient * Pow10(y.scale) > I128_MAX || y.coefficient * Pow10(x.scale) > I128_MAX
    ensures CheckedDivSpec(x, y) == Err(CannotDivide)
  {
  }

  lemma {:induction false} StripValue(n: nat) returns (j: nat)
    requires n > 0
    ensures StripZeros(n) * Pow10(j) == n
  {
    if n % 10 == 0 {
      j := StripValue(n / 10);
      MulTen(StripZeros(n), Pow10(j));
      j := j + 1;
    } else {
      j := 0;
    }
  }

  /** From 10^17 on, a division that does not come out even gives the rounded integer without its final zeros. */
  lemma LargeQuotient(n: nat, d: nat) returns (j: nat)
    requires d > 0 && TEN17 * d <= n && n % d != 0 && 10 * (n % d) <= I128_MAX && HalfEven(n, d) <= I64_MAX
    ensures FromRatioSpec(n, d).Ok?
    ensures var q := FromRatioSpec(n, d).value;
      q.scale == 0 && q.coefficient % 10 != 0 && q.coefficient * Pow10(j) == HalfEven(n, d)
  {
    FractionDigitsZeroIff(n, d);
    assert n * Pow10(0) == n;
    RoundedDigitsLarge(n, d);
    j := StripValue(HalfEven(n, d));
  }

  /** A quotient that comes out even is its own text, up to the largest coefficient. */
  lemma WholeQuotient(q: nat, d: nat)
    requires q > 0 && d > 0 && q * d > 0
    ensures FromRatioSpec(q * d, d) == if q > I64_MAX then Err(CoefficientTooLarge) else Ok(Rate(Dec(q), q, 0))
  {
    DivUnique(q * d, d, q, 0);
    DividingStarts(q * d, d);
    ExactSpec(q * d, d, [], q);
  }

  /** The product of the rates is one to 5 parts in 10^18. */
  ghost predicate NearlyOne(x: Rate, y: Rate) {
    var one := Pow10(x.scale + y.scale);
    2 * TEN17 * Distance(x.coefficient * y.coefficient, one) <= one
  }

  lemma InverseIsNearlyOne(x: Rate, y: Rate)
    requires CheckedDivSpec(ONE, x) == Ok(y)
    ensures x.coefficient > 0
    ensures NearlyOne(x, y) <==> KeepsItsZeros(Pow10(x.scale), x.coefficient)
  {
    assert CrossNumer(ONE, x) == Pow10(x.scale) && CrossNumer(x, ONE) == x.coefficient;
    AccurateIff(Pow10(x.scale), x.coefficient);
    Pow10Add(x.scale, y.scale);
  }

  /** The rate times its inverse is one to 5 parts in 10^18, exactly when the trim takes no zero of an integer. */
  method Inverse(x: Rate) returns (r: Result<Rate>)
    ensures r == CheckedDivSpec(ONE, x)
    ensures r.Ok? ==> x.coefficient > 0
    ensures r.Ok? ==> (NearlyOne(x, r.value) <==> KeepsItsZeros(Pow10(x.scale), x.coefficient))
  {
    r := CheckedDiv(ONE, x);
    if r.Ok? { InverseIsNearlyOne(x, r.value); }
  }
}
