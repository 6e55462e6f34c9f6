/** Conversions compared with each other: there and back, and by a quoted rate against its two legs. */
module ConversionAgreement {
  import opened Arithmetic
  import opened Conversion
  import opened ConversionLaws
  import R = Rates
  import D = RateDivision
  import Q = RateQuotients

  // ----- There and back -----

  /** `x` converted by `p / q` and back by `q / p`, rounding each time. */
  function ThereAndBack(x: nat, p: nat, q: nat): nat
    requires p > 0 && q > 0
  {
    HalfEven(Times(HalfEven(Times(x, p), q), q), p)
  }

  /** The return trip is off by at most 1/2 + q/(2p). */
  lemma RoundTripError(x: nat, p: nat, q: nat)
    requires p > 0 && q > 0
    ensures 2 * (Q.Distance(ThereAndBack(x, p, q), x) * p) <= p + q
  {
    var z := ThereAndBack(x, p, q);
    assert (z - x) * p == z * p - x * p && (x - z) * p == x * p - z * p;
  }

  /** When a source unit is worth at least one target unit the trip is exact. */
  lemma RoundTripExact(x: nat, p: nat, q: nat)
    requires 0 < q <= p
    ensures ThereAndBack(x, p, q) == x
  {
    var y := HalfEven(Times(x, p), q);
    if p == q {
      assert y == x by { HalfEvenExact(x, q); }
    }
    HalfEvenOf(Times(y, q), p, x);
  }

  /** The round trip as the conversion performs it, with the same two legs in both directions. */
  lemma ConvertThereAndBack(source: Money, target: Currency, x: R.Rate, y: R.Rate, there: Money, back: Money)
    requires x.coefficient > 0 && y.coefficient > 0
    requires ConvertWithRates(source, target, x, y) == Ok(there)
    requires ConvertWithRates(there, source.currency, y, x) == Ok(back)
    ensures var p, q := Factor(target.digits, y, x), Factor(source.currency.digits, x, y);
      && 2 * (Q.Distance(back.minorUnits, source.minorUnits) * p) <= p + q
      && (q <= p ==> back == source)
  {
    var p, q := Factor(target.digits, y, x), Factor(source.currency.digits, x, y);
    ConvertsByRatio(source, target, x, y);
    ConvertsByRatio(there, source.currency, y, x);
    RoundTripError(source.minorUnits, p, q);
    if q <= p { RoundTripExact(source.minorUnits, p, q); }
  }

  /** The amount where the loss first exceeds half a unit, and the one below it, cannot both survive. */
  lemma NeighboursClash(k: nat, p: nat, q: nat)
    requires 0 < p < q && k == q / (2 * (q - p))
    ensures ThereAndBack(k, p, q) != k || ThereAndBack(k + 1, p, q) != k + 1
  {
    var h, h' := HalfEven(Times(k, p), q), HalfEven(Times(k + 1, p), q);
    MulMonotone(k, k + 1, p);
    HalfEvenMonotone(Times(k, p), Times(k + 1, p), q);
    LossAround(k, p, q);
    StaysBelow(k, p, q, h');
    if h < k { LossNotUndone(k, p, q, h); }
  }

  /** The amount above rounds to at most the one below. */
  lemma StaysBelow(k: nat, p: nat, q: nat, h: nat)
    requires q < 2 * ((k + 1) * q - (k + 1) * p) && 2 * ((k + 1) * p - h * q) >= 0 - q
    ensures h <= k
  {
    if h > k { MulMonotone(k + 1, h, q); }
  }

  /** What rounds to less than the amount is converted back to less than the amount. */
  lemma LossNotUndone(k: nat, p: nat, q: nat, h: nat)
    requires p < q && 2 * (k * q - k * p) <= q && h < k
    ensures 2 * (k * p - h * q) > p
  {
    MulMonotone(h + 1, k, q);
    assert (h + 1) * q == h * q + q;
  }

  lemma LossAround(k: nat, p: nat, q: nat)
    requires 0 < p < q && k == q / (2 * (q - p))
    ensures 2 * (k * q - k * p) <= q && q < 2 * ((k + 1) * q - (k + 1) * p)
  {
    var e := q - p;
    DivMod(q, 2 * e);
    assert k * (2 * e) == 2 * (k * q - k * p) && (k + 1) * (2 * e) == 2 * ((k + 1) * q - (k + 1) * p);
    assert (k + 1) * (2 * e) == k * (2 * e) + 2 * e;
  }

  /** Over unbounded amounts, every one survives the trip exactly when a source unit is worth at least one target
      unit. */
  lemma RoundTripExactIff(p: nat, q: nat)
    requires p > 0 && q > 0
    ensures (forall x: nat :: ThereAndBack(x, p, q) == x) <==> p >= q
  {
    if p >= q {
      forall x: nat ensures ThereAndBack(x, p, q) == x { RoundTripExact(x, p, q); }
    } else {
      NeighboursClash(q / (2 * (q - p)), p, q);
    }
  }

  lemma TimesPower(i: nat, j: nat, c: nat)
    ensures Pow10(i) * c * Pow10(j) == Pow10(i + j) * c
  {
    Pow10Add(i, j);
    MulAssoc(Pow10(i), c, Pow10(j));
    MulAssoc(Pow10(i), Pow10(j), c);
  }

  /** Different products of a power of ten and an `i64` lie a 2^63-rd part apart. */
  lemma ProductsApart(i: nat, j: nat, c: nat, d: nat)
    requires 0 < c <= R.I64_MAX && 0 < d <= R.I64_MAX && Pow10(i) * c < Pow10(j) * d
    ensures Pow10(j) * d <= (R.I64_MAX + 1) * (Pow10(j) * d - Pow10(i) * c)
  {
    if i >= j {
      Pow10Add(j, i - j);
      LeftShares(Pow10(i), Pow10(j), Pow10(i - j), c, d, R.I64_MAX);
    } else {
      Pow10Add(i, j - i);
      RightShares(Pow10(j), Pow10(i), Pow10(j - i), c, d, R.I64_MAX);
    }
  }

  lemma LeftShares(big: nat, t: nat, s: nat, c: nat, d: nat, most: nat)
    requires big == t * s && big * c < t * d && d <= most
    ensures t * d <= (most + 1) * (t * d - big * c)
  {
    MulAssoc(t, s, c);
    MulMonotone(0, s, c);
    MultiplesApart(t, s * c, d, most);
  }

  lemma RightShares(big: nat, t: nat, s: nat, c: nat, d: nat, most: nat)
    requires big == t * s && t * c < big * d && c <= most
    ensures big * d <= (most + 1) * (big * d - t * c)
  {
    MulAssoc(t, s, d);
    MulMonotone(0, s, d);
    MultiplesApart(t, c, s * d, most);
  }

  lemma MultiplesApart(t: nat, a: nat, b: nat, most: nat)
    requires t * a < t * b && (a <= most || b <= most)
    ensures t * b <= (most + 1) * (t * b - t * a)
  {
    var gap := t * b - t * a;
    if b < a + 1 { MulMonotone(b, a, t); }
    assert gap == (b - a) * t;
    MulMonotone(1, b - a, t);
    var factor := if b <= most then b else a;
    MulMonotone(t, gap, factor);
    MulMonotone(factor + 1, most + 1, gap);
    assert (factor + 1) * gap == factor * gap + gap;
  }

  /** Both conversions of the trip succeed, and it does not come back to `m`. */
  ghost predicate TripFails(m: nat, from: Currency, to: Currency, x: R.Rate, y: R.Rate) {
    var there := ConvertWithRates(Money(m, from), to, x, y);
    there.Ok? && ConvertWithRates(there.value, from, y, x).Ok?
    && ConvertWithRates(there.value, from, y, x) != Ok(Money(m, from))
  }

  lemma TripFailsAt(m: nat, from: Currency, to: Currency, x: R.Rate, y: R.Rate)
    requires x.coefficient > 0 && y.coefficient > 0
    ensures var p, q := Factor(to.digits, y, x), Factor(from.digits, x, y);
      && p > 0 && q > 0
      && (TripFails(m, from, to, x, y) <==>
            HalfEven(Times(m, p), q) <= R.I64_MAX && ThereAndBack(m, p, q) <= R.I64_MAX && ThereAndBack(m, p, q) != m)
  {
    var p, q := Factor(to.digits, y, x), Factor(from.digits, x, y);
    ConvertsByRatio(Money(m, from), to, x, y);
    FactorPositive(to.digits, y, x);
    ConvertsByRatio(Money(HalfEven(Times(m, p), q), to), from, y, x);
  }

  /** Neither leg of the trip overflows below the middle of the range. */
  lemma TripInRange(m: nat, p: nat, q: nat)
    requires 0 < p < q && m <= R.I64_MAX / 2 + 2 && (q > 2 * p ==> m <= 1)
    ensures HalfEven(Times(m, p), q) <= m && ThereAndBack(m, p, q) <= R.I64_MAX
  {
    var there, back := HalfEven(Times(m, p), q), ThereAndBack(m, p, q);
    assert there <= m by {
      MulMonotone(p, q, m);
      HalfEvenExact(m, q);
      HalfEvenMonotone(Times(m, p), m * q, q);
    }
    if q > 2 * p {
      assert Times(m, p) == if m == 0 then 0 else p;
      assert there == 0 by { HalfEvenOf(Times(m, p), q, 0); }
      assert back == 0 by { HalfEvenExact(0, p); }
    } else if back > m + 1 {
      RoundTripError(m, p, q);
      MulMonotone(2, Q.Distance(back, m), p);
    }
  }

  /** Some amount the code can hold fails to come back, both conversions succeeding, exactly when a source unit is
      worth less than one target unit. */
  lemma RoundTripFailsIff(from: Currency, to: Currency, x: R.Rate, y: R.Rate)
    requires 0 < x.coefficient <= R.I64_MAX && 0 < y.coefficient <= R.I64_MAX
    ensures (exists m: nat :: m <= R.I64_MAX && TripFails(m, from, to, x, y)) <==>
      Factor(to.digits, y, x) < Factor(from.digits, x, y)
  {
    var p, q := Factor(to.digits, y, x), Factor(from.digits, x, y);
    if p < q {
      TimesPower(to.digits, x.scale, y.coefficient);
      TimesPower(from.digits, y.scale, x.coefficient);
      ProductsApart(to.digits + x.scale, from.digits + y.scale, y.coefficient, x.coefficient);
      FactorPositive(to.digits, y, x);
      var k := FailingAmount(p, q);
      TripFailsAt(k, from, to, x, y);
    } else if exists m: nat :: m <= R.I64_MAX && TripFails(m, from, to, x, y) {
      var m: nat :| m <= R.I64_MAX && TripFails(m, from, to, x, y);
      TripFailsAt(m, from, to, x, y);
      RoundTripExact(m, p, q);
    }
  }

  lemma FailingAmount(p: nat, q: nat) returns (m: nat)
    requires 0 < p < q && q <= (R.I64_MAX + 1) * (q - p)
    ensures m <= R.I64_MAX && HalfEven(Times(m, p), q) <= R.I64_MAX
    ensures ThereAndBack(m, p, q) <= R.I64_MAX && ThereAndBack(m, p, q) != m
  {
    var k := q / (2 * (q - p));
    DivMod(q, 2 * (q - p));
    assert (2 * k) * (q - p) == k * (2 * (q - p));
    MulCancel(2 * k, R.I64_MAX + 1, q - p);
    if q > 2 * p && k >= 1 { MulMonotone(1, k, 2 * (q - p)); }
    NeighboursClash(k, p, q);
    m := if ThereAndBack(k, p, q) != k then k else k + 1;
    TripInRange(m, p, q);
  }

  // ----- Quoted rate against the two legs -----

  /** Numerators half a unit apart round at most one apart. */
  lemma NearRounding(x: nat, y: nat, d: nat)
    requires d > 0 && 2 * Q.Distance(x, y) <= d
    ensures Q.Distance(HalfEven(x, d), HalfEven(y, d)) <= 1
  {
    LessThanTwoApart(HalfEven(x, d), HalfEven(y, d), d);
    LessThanTwoApart(HalfEven(y, d), HalfEven(x, d), d);
  }

  lemma LessThanTwoApart(a: nat, b: nat, d: nat)
    requires d > 0 && 2 * (a * d - b * d) <= 3 * d
    ensures a - b <= 1
  {
    assert (2 * (a - b)) * d == 2 * (a * d) - 2 * (b * d);
    MulCancel(2 * (a - b), 3, d);
  }

  /** u(c d - n p) is small when u n is at most 10^17 v d and c/p is accurate for n/d. */
  lemma ScaledError(u: nat, v: nat, n: nat, d: nat, e: nat, p: nat)
    requires 2 * D.TEN17 * e <= n * p && u * n <= D.TEN17 * (v * d)
    ensures 2 * (u * e) <= v * d * p
  {
    MulMonotone(2 * D.TEN17 * e, n * p, u);
    MulMonotone(u * n, D.TEN17 * (v * d), p);
    assert (n * p) * u == (u * n) * p;
    assert (2 * D.TEN17 * e) * u == D.TEN17 * (2 * (u * e));
    assert D.TEN17 * (v * d) * p == D.TEN17 * (v * d * p);
  }

  lemma DistanceScales(u: nat, a: nat, b: nat)
    ensures Times(u, a) == u * a && Times(u, b) == u * b && Q.Distance(u * a, u * b) == u * Q.Distance(a, b)
  {
    if a < b { MulMonotone(a, b, u); } else { MulMonotone(b, a, u); }
    assert u * (a - b) == u * a - u * b && u * (b - a) == u * b - u * a;
  }

  /** u n / (v d) and u c / (v p) round at most one apart, and alike when c / p is exactly n / d. */
  lemma QuotedRounding(u: nat, v: nat, n: nat, d: nat, c: nat, p: nat)
    requires v > 0 && d > 0 && p > 0 && u * n <= D.TEN17 * (v * d)
    requires 2 * D.TEN17 * Q.Distance(c * d, n * p) <= n * p
    ensures v * d > 0 && v * p > 0
    ensures Q.Distance(HalfEven(Times(u, n), v * d), HalfEven(Times(u, c), v * p)) <= 1
    ensures c * d == n * p ==> HalfEven(Times(u, n), v * d) == HalfEven(Times(u, c), v * p)
  {
    MulStrict(0, v, d);
    MulStrict(0, v, p);
    ScaledError(u, v, n, d, Q.Distance(c * d, n * p), p);
    HalfEvenScale(Times(u, n), v * d, p);
    HalfEvenScale(Times(u, c), v * p, d);
    DistanceScales(u, c * d, n * p);
    MulAssoc(u, n, p);
    MulAssoc(u, c, d);
    MulAssoc(v, p, d);
    MulAssoc(v, d, p);
    NearRounding(Times(u, n * p), Times(u, c * d), v * (d * p));
  }

  /** Rounding moves two numerators apart by at most one unit. */
  lemma RoundedApart(x: nat, y: nat, d: nat)
    requires d > 0
    ensures (Q.Distance(HalfEven(x, d), HalfEven(y, d)) - 1) * d <= Q.Distance(x, y)
  {
    OneMoreApart(HalfEven(x, d), HalfEven(y, d), d);
    OneMoreApart(HalfEven(y, d), HalfEven(x, d), d);
  }

  lemma OneMoreApart(a: nat, b: nat, d: nat)
    ensures (a - b - 1) * d == a * d - b * d - d
  {
  }

  /** For every amount, u n / (v d) and u c / (v p) round apart by at most one unit and 5 parts in 10^18. */
  lemma QuotedDrift(u: nat, v: nat, n: nat, d: nat, c: nat, p: nat)
    requires v > 0 && d > 0 && p > 0 && 2 * D.TEN17 * Q.Distance(c * d, n * p) <= n * p
    ensures v * d > 0 && v * p > 0
    ensures 2 * D.TEN17
        * ((Q.Distance(HalfEven(Times(u, n), v * d), HalfEven(Times(u, c), v * p)) - 1) * (v * d)) <= u * n
  {
    MulStrict(0, v, d);
    MulStrict(0, v, p);
    HalfEvenScale(Times(u, n), v * d, p);
    HalfEvenScale(Times(u, c), v * p, d);
    DistanceScales(u, c * d, n * p);
    MulAssoc(u, n, p);
    MulAssoc(u, c, d);
    MulAssoc(v, p, d);
    MulAssoc(v, d, p);
    RoundedApart(Times(u, n * p), Times(u, c * d), v * (d * p));
    MulMonotone(2 * D.TEN17 * Q.Distance(c * d, n * p), n * p, u);
    DriftCancels(Q.Distance(HalfEven(Times(u, n), v * d), HalfEven(Times(u, c), v * p)) - 1, v * d, p,
      u, Q.Distance(c * d, n * p), u * n);
  }

  lemma DriftCancels(k: int, w: nat, p: nat, u: nat, e: nat, x: nat)
    requires p > 0 && k * (w * p) <= u * e && (2 * D.TEN17 * e) * u <= x * p
    ensures 2 * D.TEN17 * (k * w) <= x
  {
    MulAssoc(k, w, p);
    assert (2 * D.TEN17 * (k * w)) * p == 2 * D.TEN17 * ((k * w) * p);
    assert (2 * D.TEN17 * e) * u == 2 * D.TEN17 * (u * e);
    MulCancel(2 * D.TEN17 * (k * w), x, p);
  }

  lemma FactorsOfLegs(m: nat, a: nat, c: nat, s: nat)
    ensures Times(m, a * c * s) == Times(Times(m, a), Times(c, s))
  {
    MulAssoc(a, c, s);
    MulAssoc(m, a, c * s);
  }

  /** The automatic conversion's own checks pass. */
  predicate Applies(source: Money, target: Currency, legs: Legs) {
    && source.currency != target && R.Trim(legs.rateSetId) != ""
    && legs.source.currency == source.currency && legs.reference.currency == target
    && legs.source.valueDate == legs.reference.valueDate
    && legs.source.rate.coefficient > 0 && legs.reference.rate.coefficient > 0
  }

  /** The legs as the quote's numerator and denominator. */
  ghost function LegsNumer(legs: Legs): nat {
    Q.CrossNumer(legs.reference.rate, legs.source.rate)
  }

  ghost function LegsDenom(legs: Legs): nat {
    Q.CrossNumer(legs.source.rate, legs.reference.rate)
  }

  /** Both conversions give the same amount or the same error. */
  predicate SameAmount(a: Result<Conversion>, b: Result<Conversion>) {
    if a.Err? then b == Err(a.error) else b.Ok? && a.value.converted == b.value.converted
  }

  /** A quote that is exactly the quotient of the legs converts every amount as they do, errors included. */
  lemma ExactQuoteAgrees(source: Money, target: Currency, legs: Legs, quote: R.Rate)
    requires Applies(source, target, legs)
    requires quote.coefficient * LegsDenom(legs) == LegsNumer(legs) * Pow10(quote.scale)
    ensures SameAmount(Convert(source, target, AutomaticRate(legs)), Convert(source, target, ManualRate(quote)))
  {
    var n, d, c, p := LegsNumer(legs), LegsDenom(legs), quote.coefficient, Pow10(quote.scale);
    var u, v := Times(source.minorUnits, Pow10(target.digits)), Pow10(source.currency.digits);
    LegRatios(source, target, legs.source.rate, legs.reference.rate, quote);
    SwapInner(u, n, v, p);
    SwapInner(u, c, v, d);
    HalfEvenOfEqualRatios(Times(u, n), v * d, Times(u, c), v * p);
  }

  /** The amount converted by the legs is at most 10^17 minor units. */
  predicate AtMostTen17(source: Money, target: Currency, legs: Legs) {
    source.minorUnits * Factor(target.digits, legs.reference.rate, legs.source.rate)
      <= D.TEN17 * Factor(source.currency.digits, legs.source.rate, legs.reference.rate)
  }

  /** The amount converted by the legs is below one and a half minor units. */
  predicate BelowThreeHalves(source: Money, target: Currency, legs: Legs) {
    2 * (source.minorUnits * Factor(target.digits, legs.reference.rate, legs.source.rate))
      < 3 * Factor(source.currency.digits, legs.source.rate, legs.reference.rate)
  }

  ghost predicate ConvertedWithinOne(a: Result<Conversion>, b: Result<Conversion>) {
    && a.Ok? && b.Ok? && a.value.converted.Some? && b.value.converted.Some?
    && Q.Distance(a.value.converted.value.minorUnits, b.value.converted.value.minorUnits) <= 1
  }

  /** Up to 10^17 minor units, converting by the quoted quotient and by its two legs both succeed, and they agree to
      one minor unit exactly when the quote's trim took no zero of an integer or hardly anything is converted. */
  lemma QuotedRateAgrees(source: Money, target: Currency, legs: Legs, quote: R.Rate)
    requires Applies(source, target, legs) && AtMostTen17(source, target, legs)
    requires Q.CheckedDivSpec(legs.reference.rate, legs.source.rate) == R.Ok(quote)
    ensures LegsDenom(legs) > 0
    ensures var byLegs, byQuote := Convert(source, target, AutomaticRate(legs)),
      Convert(source, target, ManualRate(quote));
      && byLegs.Ok? && byQuote.Ok? && byLegs.value.complete && byQuote.value.complete
      && (ConvertedWithinOne(byLegs, byQuote) <==>
            Q.KeepsItsZeros(LegsNumer(legs), LegsDenom(legs)) || BelowThreeHalves(source, target, legs))
  {
    var n, d := LegsNumer(legs), LegsDenom(legs);
    var u, v := Times(source.minorUnits, Pow10(target.digits)), Pow10(source.currency.digits);
    var c, p := quote.coefficient, Pow10(quote.scale);
    LegRatios(source, target, legs.source.rate, legs.reference.rate, quote);
    AtMost(Times(u, n), v * d);
    if Q.KeepsItsZeros(n, d) {
      Q.AccurateIff(n, d);
      QuotedRounding(u, v, n, d, c, p);
    } else {
      StrippedQuote(n, d);
      StrippedRounding(u, v, n, d, c);
    }
  }

  /** For every amount that both paths convert, a quote that keeps its zeros differs from the legs by at most one
      minor unit and 5 parts in 10^18 of the amount. */
  lemma QuotedRateDrift(source: Money, target: Currency, legs: Legs, quote: R.Rate, byLegs: nat, byQuote: nat)
    requires Applies(source, target, legs)
    requires Q.CheckedDivSpec(legs.reference.rate, legs.source.rate) == R.Ok(quote)
    requires LegsDenom(legs) > 0 && Q.KeepsItsZeros(LegsNumer(legs), LegsDenom(legs))
    requires ConvertWithRates(source, target, legs.source.rate, legs.reference.rate) == Ok(Money(byLegs, target))
    requires ConvertWithRates(source, target, R.ONE, quote) == Ok(Money(byQuote, target))
    ensures 2 * D.TEN17
        * ((Q.Distance(byLegs, byQuote) - 1) * Factor(source.currency.digits, legs.source.rate, legs.reference.rate))
         <= source.minorUnits * Factor(target.digits, legs.reference.rate, legs.source.rate)
  {
    var n, d := LegsNumer(legs), LegsDenom(legs);
    var u, v := Times(source.minorUnits, Pow10(target.digits)), Pow10(source.currency.digits);
    LegRatios(source, target, legs.source.rate, legs.reference.rate, quote);
    Q.AccurateIff(n, d);
    QuotedDrift(u, v, n, d, quote.coefficient, Pow10(quote.scale));
  }

  /** Where the trim took zeros, the quote is at most a ninth of the quotient. */
  lemma StrippedQuote(n: nat, d: nat)
    requires 0 < n && 0 < d && D.FromRatioSpec(n, d).Ok? && !Q.KeepsItsZeros(n, d)
    ensures var q := D.FromRatioSpec(n, d).value; q.scale == 0 && 9 * (q.coefficient * d) <= n
  {
    var c := D.FromRatioSpec(n, d).value.coefficient;
    Q.FractionDigitsZeroIff(n, d);
    assert n * Pow10(0) == n;
    Q.RoundedDigitsLarge(n, d);
    assert 10 * c <= HalfEven(n, d);
    TenthOfRounded(n, d, HalfEven(n, d), c);
  }

  lemma TenthOfRounded(n: nat, d: nat, rounded: nat, c: nat)
    requires d > 0 && D.TEN17 * d <= n && 2 * (n - rounded * d) >= 0 - d && 10 * c <= rounded
    ensures 9 * (c * d) <= n
  {
    MulMonotone(10 * c, rounded, d);
    MulAssoc(10, c, d);
  }

  /** Then the two results are further than one unit apart from one and a half units on. */
  lemma StrippedRounding(u: nat, v: nat, n: nat, d: nat, c: nat)
    requires v > 0 && d > 0 && 9 * (c * d) <= n
    ensures v * d > 0
    ensures Q.Distance(HalfEven(Times(u, n), v * d), HalfEven(Times(u, c), v)) <= 1 <==> 2 * (u * n) < 3 * (v * d)
    ensures HalfEven(Times(u, c), v) <= HalfEven(Times(u, n), v * d)
  {
    MulStrict(0, v, d);
    MulMonotone(9 * (c * d), n, u);
    MulAssoc(u, c, d);
    assert (9 * (c * d)) * u == 9 * (u * (c * d));
    assert Times(u, c) * d == u * (c * d);
    HalfEvenScale(Times(u, c), v, d);
    FarRounding(Times(u, n), Times(u, c) * d, v * d);
    HalfEvenMonotone(Times(u, c) * d, Times(u, n), v * d);
  }

  lemma FarRounding(x: nat, y: nat, d: nat)
    requires d > 0 && 9 * y <= x
    ensures Q.Distance(HalfEven(x, d), HalfEven(y, d)) <= 1 <==> 2 * x < 3 * d
  {
    var h, k := HalfEven(x, d), HalfEven(y, d);
    if h >= 2 { MulMonotone(2, h, d); }
    if k >= 1 { MulMonotone(1, k, d); }
    if h <= k + 1 { FarApart(x, y, d, h, k); }
  }

  lemma FarApart(x: nat, y: nat, d: nat, h: nat, k: nat)
    requires d > 0 && 9 * y <= x && h <= k + 1 && IsNearestEven(x, d, h) && IsNearestEven(y, d, k)
    ensures 2 * x < 3 * d
  {
    MulMonotone(h, k + 1, d);
    assert (k + 1) * d == k * d + d;
    if k >= 1 { MulMonotone(1, k, d); }
    if h == 1 { assert h * d == d; }
    assert k == 0 && h <= 1;
  }

  /** Fifty hundredths at 300000000000000001 to 3 are 5 * 10^16 by the legs, and nothing by their quote "1". */
  lemma QuoteLosesAmount()
    ensures var (source, target, legs, quote) := LosingInput();
      && Applies(source, target, legs) && AtMostTen17(source, target, legs)
      && Q.CheckedDivSpec(legs.reference.rate, legs.source.rate) == R.Ok(quote)
      && ConvertWithRates(source, target, legs.source.rate, legs.reference.rate)
         == Ok(Money(50_000_000_000_000_000, target))
      && ConvertWithRates(source, target, R.ONE, quote) == Ok(Money(0, target))
  {
    var (source, target, legs, quote) := LosingInput();
    assert Q.CheckedDivSpec(legs.reference.rate, legs.source.rate) == R.Ok(quote) by {
      Q.WholeZerosAreLost();
      assert Pow10(0) == 1;
    }
    LosingApplies();
    LosingFactors();
    LosingByLegs();
    LosingByQuote();
  }

  lemma LosingApplies()
    ensures var (source, target, legs, _) := LosingInput(); Applies(source, target, legs)
  {
    var (source, target, legs, _) := LosingInput();
    assert source.currency.code[0] != target.code[0];
    assert R.Trim(legs.rateSetId) == legs.rateSetId;
  }

  lemma LosingFactors()
    ensures var (source, target, legs, _) := LosingInput();
      && Factor(target.digits, legs.reference.rate, legs.source.rate) == 300_000_000_000_000_001
      && Factor(source.currency.digits, legs.source.rate, legs.reference.rate) == 300
  {
    assert Pow10(0) == 1 && Pow10(2) == 100 by { assert Pow10(1) == 10; }
  }

  lemma LosingByLegs()
    ensures var (source, target, legs, _) := LosingInput();
      ConvertWithRates(source, target, legs.source.rate, legs.reference.rate)
        == Ok(Money(50_000_000_000_000_000, target))
  {
    var (source, target, legs, _) := LosingInput();
    LosingFactors();
    ConvertsByRatio(source, target, legs.source.rate, legs.reference.rate);
    HalfEvenOf(50 * 300_000_000_000_000_001, 300, 50_000_000_000_000_000);
  }

  lemma LosingByQuote()
    ensures var (source, target, _, quote) := LosingInput();
      ConvertWithRates(source, target, R.ONE, quote) == Ok(Money(0, target))
  {
    var (source, target, _, quote) := LosingInput();
    assert Pow10(0) == 1 && Pow10(2) == 100 by { assert Pow10(1) == 10; }
    assert Factor(target.digits, quote, R.ONE) == 1 && Factor(source.currency.digits, R.ONE, quote) == 100;
    ConvertsByRatio(source, target, R.ONE, quote);
    HalfEvenOf(50, 100, 0);
  }

  function LosingInput(): (Money, Currency, Legs, R.Rate) {
    var from, to := Currency("AAA", 2), Currency("BBB", 0);
    var x, y := R.Rate("3", 3, 0), R.Rate("300000000000000001", 300_000_000_000_000_001, 0);
    (Money(50, from), to, Legs("set", Observation(from, 1, x), Observation(to, 1, y)), R.Rate("1", 1, 0))
  }

  /** Both paths as one rounded ratio over the same `u` and `v`. */
  lemma LegRatios(source: Money, target: Currency, x: R.Rate, y: R.Rate, quote: R.Rate)
    requires x.coefficient > 0
    ensures var n, d := Q.CrossNumer(y, x), Q.CrossNumer(x, y);
      var u, v := Times(source.minorUnits, Pow10(target.digits)), Pow10(source.currency.digits);
      && source.minorUnits * Factor(target.digits, y, x) == Times(u, n) && Factor(source.currency.digits, x, y) == v * d
      && v * d > 0 && v * Pow10(quote.scale) > 0
      && ConvertWithRates(source, target, x, y) == Checked(HalfEven(Times(u, n), v * d), target)
      && ConvertWithRates(source, target, R.ONE, quote)
         == Checked(HalfEven(Times(u, quote.coefficient), v * Pow10(quote.scale)), target)
  {
    ConvertsByRatio(source, target, x, y);
    ConvertsByRatio(source, target, R.ONE, quote);
    FactorsOfLegs(source.minorUnits, Pow10(target.digits), y.coefficient, Pow10(x.scale));
    FactorsOfLegs(source.minorUnits, Pow10(target.digits), quote.coefficient, Pow10(0));
    assert Times(quote.coefficient, Pow10(0)) == quote.coefficient;
    FactorsOfLegs(1, Pow10(source.currency.digits), x.coefficient, Pow10(y.scale));
  }

  function Checked(minorUnits: nat, target: Currency): Result<Money> {
    if minorUnits <= R.I64_MAX then Ok(Money(minorUnits, target)) else Err(Overflow)
  }

  lemma AtMost(x: nat, d: nat)
    requires d > 0 && x <= D.TEN17 * d
    ensures HalfEven(x, d) <= D.TEN17
  {
    HalfEvenExact(D.TEN17, d);
    HalfEvenMonotone(x, D.TEN17 * d, d);
  }
}
