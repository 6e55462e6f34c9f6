/** Laws of rounded conversion: additivity drift, round trips, and quoted rates. */
module ConversionLaws {
  import opened Arithmetic
  import opened Conversion
  import R = Rates
  import Q = RateQuotients

  // ----- Conversion as one rounded multiplication by a ratio -----

  /** Target minor units per source minor unit are `Factor(target...) / Factor(source...)`. */
  function Factor(digits: nat, rate: R.Rate, otherRate: R.Rate): nat {
    Pow10(digits) * rate.coefficient * Pow10(otherRate.scale)
  }

  lemma FactorPositive(digits: nat, rate: R.Rate, otherRate: R.Rate)
    requires rate.coefficient > 0
    ensures Factor(digits, rate, otherRate) > 0
  {
    MulStrict(0, rate.coefficient, Pow10(digits));
    MulStrict(0, Pow10(digits) * rate.coefficient, Pow10(otherRate.scale));
  }

  /** Converting multiplies by the exact ratio and rounds once, half to even; it fails only when that leaves `i64`. */
  lemma ConvertsByRatio(source: Money, target: Currency, sourceRate: R.Rate, targetRate: R.Rate)
    requires sourceRate.coefficient > 0
    ensures var p, q := Factor(target.digits, targetRate, sourceRate),
      Factor(source.currency.digits, sourceRate, targetRate);
      && q > 0 && source.minorUnits * p >= 0
      && ConvertWithRates(source, target, sourceRate, targetRate)
         == if HalfEven(source.minorUnits * p, q) <= R.I64_MAX then
              Ok(Money(HalfEven(source.minorUnits * p, q), target))
            else Err(Overflow)
  {
    var m, a, c, b := source.minorUnits, Pow10(target.digits), targetRate.coefficient, Pow10(sourceRate.scale);
    var p := Factor(target.digits, targetRate, sourceRate);
    FactorPositive(source.currency.digits, sourceRate, targetRate);
    MulMonotone(0, m, p);
    MulAssoc(m, a, c);
    MulAssoc(m, a * c, b);
    RoundHalfEvenMeaning(m * p, Factor(source.currency.digits, sourceRate, targetRate));
  }

  /** In the numbers the code multiplies: the result is an integer nearest to amount * 10^target digits * target rate /
      (10^source digits * source rate), and the even one of two equally near. */
  lemma ConvertsToNearest(source: Money, target: Currency, sourceRate: R.Rate, targetRate: R.Rate, result: Money)
    requires sourceRate.coefficient > 0
    requires ConvertWithRates(source, target, sourceRate, targetRate) == Ok(result)
    ensures var n := source.minorUnits * (Pow10(target.digits) * targetRate.coefficient * Pow10(sourceRate.scale));
      var d := Pow10(source.currency.digits) * sourceRate.coefficient * Pow10(targetRate.scale);
      && result.currency == target && result.minorUnits <= R.I64_MAX
      && -d <= 2 * (n - result.minorUnits * d) <= d
      && (2 * (n - result.minorUnits * d) in {d, -d} ==> result.minorUnits % 2 == 0)
  {
    ConvertsByRatio(source, target, sourceRate, targetRate);
  }

  /** A larger amount never converts to less. */
  lemma ConvertMonotone(small: Money, large: Money, target: Currency, sourceRate: R.Rate, targetRate: R.Rate)
    requires small.currency == large.currency && small.minorUnits <= large.minorUnits && sourceRate.coefficient > 0
    requires ConvertWithRates(large, target, sourceRate, targetRate).Ok?
    ensures ConvertWithRates(small, target, sourceRate, targetRate).Ok?
    ensures ConvertWithRates(small, target, sourceRate, targetRate).value.minorUnits
         <= ConvertWithRates(large, target, sourceRate, targetRate).value.minorUnits
  {
    ConvertsByRatio(small, target, sourceRate, targetRate);
    ConvertsByRatio(large, target, sourceRate, targetRate);
    var p, q := Factor(target.digits, targetRate, sourceRate), Factor(small.currency.digits, sourceRate, targetRate);
    MulMonotone(small.minorUnits, large.minorUnits, p);
    HalfEvenMonotone(small.minorUnits * p, large.minorUnits * p, q);
  }

  /** The rates are the same rational number. */
  predicate SameValue(x: R.Rate, y: R.Rate) {
    x.coefficient * Pow10(y.scale) == y.coefficient * Pow10(x.scale)
  }

  /** u c : v t and u c' : v t' are equal when c : t and c' : t' are. */
  lemma SameRatio(u: nat, v: nat, c: nat, c': nat, t: nat, t': nat)
    requires c * t' == c' * t
    ensures (u * c) * (v * t') == (u * c') * (v * t)
  {
    SwapInner(u, c, v, t');
    SwapInner(u, c', v, t);
  }

  lemma Regrouped(m: nat, a: nat, c: nat, b: nat)
    ensures m * (a * c * b) == m * (a * b) * c
  {
    assert a * c * b == (a * b) * c;
  }

  /** Rounding m(acb) / (vt) is unchanged when c : t is replaced by an equal ratio. */
  lemma SameRounding(m: nat, a: nat, b: nat, v: nat, c: nat, t: nat, c': nat, t': nat)
    requires v * t > 0 && v * t' > 0 && c * t' == c' * t
    ensures m * (a * c * b) >= 0 && m * (a * c' * b) >= 0
    ensures HalfEven(m * (a * c * b), v * t) == HalfEven(m * (a * c' * b), v * t')
  {
    Regrouped(m, a, c, b);
    Regrouped(m, a, c', b);
    var u := m * (a * b);
    SameRatio(u, v, c, c', t, t');
    MulMonotone(0, u, c);
    MulMonotone(0, u, c');
    HalfEvenOfEqualRatios(u * c, v * t, u * c', v * t');
  }

  lemma ScaleFreeTarget(source: Money, target: Currency, sourceRate: R.Rate, x: R.Rate, y: R.Rate)
    requires sourceRate.coefficient > 0 && SameValue(x, y)
    ensures ConvertWithRates(source, target, sourceRate, x) == ConvertWithRates(source, target, sourceRate, y)
  {
    ConvertsByRatio(source, target, sourceRate, x);
    ConvertsByRatio(source, target, sourceRate, y);
    SameRounding(source.minorUnits, Pow10(target.digits), Pow10(sourceRate.scale),
      Pow10(source.currency.digits) * sourceRate.coefficient,
      x.coefficient, Pow10(x.scale), y.coefficient, Pow10(y.scale));
  }

  lemma ScaleFreeSource(source: Money, target: Currency, x: R.Rate, y: R.Rate, targetRate: R.Rate)
    requires x.coefficient > 0 && y.coefficient > 0 && SameValue(x, y)
    ensures ConvertWithRates(source, target, x, targetRate) == ConvertWithRates(source, target, y, targetRate)
  {
    ConvertsByRatio(source, target, x, targetRate);
    ConvertsByRatio(source, target, y, targetRate);
    SameRoundingBelow(source.minorUnits, Pow10(target.digits) * targetRate.coefficient,
      Pow10(source.currency.digits), Pow10(targetRate.scale),
      x.coefficient, Pow10(x.scale), y.coefficient, Pow10(y.scale));
  }

  /** Rounding m(ws) / (dct) is unchanged when c : s is replaced by an equal ratio. */
  lemma SameRoundingBelow(m: nat, w: nat, d: nat, t: nat, c: nat, s: nat, c': nat, s': nat)
    requires d * c * t > 0 && d * c' * t > 0 && c * s' == c' * s
    ensures m * (w * s) >= 0 && m * (w * s') >= 0
    ensures HalfEven(m * (w * s), d * c * t) == HalfEven(m * (w * s'), d * c' * t)
  {
    Commuted(m, w, s, d, c, t);
    Commuted(m, w, s', d, c', t);
    SameRounding(m, w, 1, d * t, s, c, s', c');
  }

  lemma Commuted(m: nat, w: nat, s: nat, d: nat, c: nat, t: nat)
    ensures m * (w * s) == m * (w * s * 1) && d * c * t == d * t * c
  {
  }

  /** Only the values of the rates matter, not how many decimals they are written with. */
  lemma ConvertScaleFree(source: Money, target: Currency, x: R.Rate, x': R.Rate, y: R.Rate, y': R.Rate)
    requires x.coefficient > 0 && x'.coefficient > 0 && SameValue(x, x') && SameValue(y, y')
    ensures ConvertWithRates(source, target, x, y) == ConvertWithRates(source, target, x', y')
  {
    ScaleFreeSource(source, target, x, x', y);
    ScaleFreeTarget(source, target, x', y, y');
  }

  // ----- Additivity drift -----

  function Sum(ms: seq<nat>): nat {
    if ms == [] then 0 else Sum(ms[..|ms| - 1]) + ms[|ms| - 1]
  }

  /** The sum of the separately converted amounts. */
  function SumConverted(ms: seq<nat>, p: nat, q: nat): nat
    requires q > 0
  {
    if ms == [] then 0 else SumConverted(ms[..|ms| - 1], p, q) + HalfEven(Times(ms[|ms| - 1], p), q)
  }

  function Times(m: nat, p: nat): (r: nat) {
    MulMonotone(0, m, p);
    m * p
  }

  lemma DriftStep(k: nat, s: nat, c: nat, m: nat, h: nat, p: nat, q: nat)
    requires -(k * q) <= 2 * (s * p - c * q) <= k * q && 0 - q <= 2 * (m * p - h * q) <= q
    ensures -((k + 1) * q) <= 2 * ((s + m) * p - (c + h) * q) <= (k + 1) * q
  {
    assert (k + 1) * q == k * q + q;
    assert (s + m) * p == s * p + m * p;
    assert (c + h) * q == c * q + h * q;
  }

  lemma {:induction false} SumError(ms: seq<nat>, p: nat, q: nat)
    requires q > 0
    ensures -(|ms| * q) <= 2 * (Sum(ms) * p - SumConverted(ms, p, q) * q) <= |ms| * q
    decreases |ms|
  {
    if ms != [] {
      var init, m := ms[..|ms| - 1], ms[|ms| - 1];
      SumError(init, p, q);
      DriftStep(|init|, Sum(init), SumConverted(init, p, q), m, HalfEven(Times(m, p), q), p, q);
    }
  }

  lemma DriftBound(x: int, h: nat, t: nat, k: nat, q: nat)
    requires q > 0 && 0 - q <= 2 * (x - h * q) <= q && -(k * q) <= 2 * (x - t * q) <= k * q
    ensures 2 * Q.Distance(h, t) <= k + 1
  {
    assert (k + 1) * q == k * q + q;
    assert (2 * (h - t)) * q == 2 * (h * q) - 2 * (t * q);
    assert (2 * (t - h)) * q == 2 * (t * q) - 2 * (h * q);
    MulCancel(2 * (h - t), k + 1, q);
    MulCancel(2 * (t - h), k + 1, q);
  }

  /** Converting a total and totalling the conversions of its `n` parts differ by at most `(n + 1) / 2` minor units. */
  lemma AdditivityDrift(ms: seq<nat>, p: nat, q: nat)
    requires q > 0
    ensures 2 * Q.Distance(HalfEven(Times(Sum(ms), p), q), SumConverted(ms, p, q)) <= |ms| + 1
  {
    SumError(ms, p, q);
    DriftBound(Times(Sum(ms), p), HalfEven(Times(Sum(ms), p), q), SumConverted(ms, p, q), |ms|, q);
  }

  /** The conversions of amounts in one currency, when none of them fails. */
  ghost predicate ConvertsEach(ms: seq<nat>, results: seq<nat>, from: Currency, to: Currency, x: R.Rate, y: R.Rate) {
    |ms| == |results| && forall i :: 0 <= i < |ms| ==>
      ConvertWithRates(Money(ms[i], from), to, x, y) == Ok(Money(results[i], to))
  }

  lemma {:induction false} SumOfResults(
    ms: seq<nat>, results: seq<nat>, from: Currency, to: Currency, x: R.Rate, y: R.Rate)
    requires x.coefficient > 0 && ConvertsEach(ms, results, from, to, x, y)
    ensures var p, q := Factor(to.digits, y, x), Factor(from.digits, x, y);
      q > 0 && Sum(results) == SumConverted(ms, p, q)
    decreases |ms|
  {
    FactorPositive(from.digits, x, y);
    if ms != [] {
      SumOfResults(ms[..|ms| - 1], results[..|results| - 1], from, to, x, y);
      ConvertsByRatio(Money(ms[|ms| - 1], from), to, x, y);
    }
  }

  /** The drift bound for the amounts of any list, as the conversion returns them. */
  lemma ConversionDrift(ms: seq<nat>, results: seq<nat>, total: nat, from: Currency, to: Currency, x: R.Rate, y: R.Rate)
    requires x.coefficient > 0 && ConvertsEach(ms, results, from, to, x, y)
    requires ConvertWithRates(Money(Sum(ms), from), to, x, y) == Ok(Money(total, to))
    ensures 2 * Q.Distance(total, Sum(results)) <= |ms| + 1
  {
    SumOfResults(ms, results, from, to, x, y);
    ConvertsByRatio(Money(Sum(ms), from), to, x, y);
    AdditivityDrift(ms, Factor(to.digits, y, x), Factor(from.digits, x, y));
  }
}
