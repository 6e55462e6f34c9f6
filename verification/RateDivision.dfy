/** Long division of two rates, as the exchange-rate quote computes it. */
module RateDivision {
  import opened Arithmetic
  import opened DecimalText
  import opened Rates

  /** The least integer with 18 significant digits. */
  const TEN17: nat := 100_000_000_000_000_000

  predicate IsI128(x: int) {
    -I128_MAX - 1 <= x <= I128_MAX
  }

  // ----- Reference definition -----

  /** How many fraction digits `n / d` needs so that, with its integer digits, it shows 18 significant ones. */
  ghost function FractionDigits(n: nat, d: nat): nat
    requires n > 0 && d > 0
    decreases TEN17 * d - n
  {
    if n >= TEN17 * d then 0 else 1 + FractionDigits(10 * n, d)
  }

  ghost function RemainderAt(n: nat, d: nat, j: nat): nat
    requires d > 0
  {
    (n * Pow10(j)) % d
  }

  /** Every remainder met on the way can be multiplied by ten within an `i128`. */
  ghost predicate StepsFit(n: nat, d: nat)
    requires n > 0 && d > 0
  {
    forall j :: 0 <= j <= FractionDigits(n, d) ==> 10 * RemainderAt(n, d, j) <= I128_MAX
  }

  /** `n / d` rounded once, half to even, after `FractionDigits(n, d)` fraction digits, in units of the last one. */
  ghost function RoundedDigits(n: nat, d: nat): nat
    requires n > 0 && d > 0
  {
    HalfEven(n * Pow10(FractionDigits(n, d)), d)
  }

  /** The same decimal `n / 10^scale` with no trailing zero in its fraction. */
  function Normalise(n: nat, scale: nat): (r: (nat, nat))
    ensures r.1 <= scale && (r.1 == 0 || r.0 % 10 != 0) && (n > 0 ==> r.0 > 0)
  {
    if scale > 0 && n % 10 == 0 then Normalise(n / 10, scale - 1) else (n, scale)
  }

  lemma {:induction false} NormaliseValue(n: nat, scale: nat)
    ensures var (c, s) := Normalise(n, scale); c * Pow10(scale - s) == n
    decreases scale
  {
    if scale > 0 && n % 10 == 0 {
      var (c, s) := Normalise(n / 10, scale - 1);
      NormaliseValue(n / 10, scale - 1);
      assert c * Pow10(scale - s) == 10 * (c * Pow10(scale - 1 - s));
    }
  }

  function StripZeros(n: nat): (r: nat)
    ensures n > 0 ==> 0 < r <= n && r % 10 != 0
    ensures n > 0 && n % 10 == 0 ==> 10 * r <= n
    ensures n % 10 != 0 ==> r == n
  {
    if n > 0 && n % 10 == 0 then StripZeros(n / 10) else n
  }

  /** Coefficient and scale of the text that is re-parsed. With an empty fraction the zero trim
      reaches the integer digits. */
  ghost function QuotientDigits(n: nat, d: nat): (nat, nat)
    requires n > 0 && d > 0
  {
    if n >= TEN17 * d && n % d != 0 then (StripZeros(RoundedDigits(n, d)), 0)
    else Normalise(RoundedDigits(n, d), FractionDigits(n, d))
  }

  ghost function FromRatioSpec(numer: int, denom: int): Result<Rate> {
    if numer <= 0 || denom <= 0 || !StepsFit(numer, denom) then Err(CannotDivide)
    else
      var (c, s) := QuotientDigits(numer, denom);
      if c > I64_MAX then Err(CoefficientTooLarge) else Ok(Rate(Render(c, s), c, s))
  }

  // ----- Digit buffer -----

  predicate Digits(ds: seq<nat>) {
    forall i :: 0 <= i < |ds| ==> ds[i] < 10
  }

  /** The integer written by `whole` followed by the digits `ds`. */
  function Joined(whole: nat, ds: seq<nat>): nat {
    if ds == [] then whole else 10 * Joined(whole, ds[..|ds| - 1]) + ds[|ds| - 1]
  }

  function Text(ds: seq<nat>): (s: string)
    requires Digits(ds)
    ensures |s| == |ds| && AllDigits(s)
  {
    if ds == [] then "" else Text(ds[..|ds| - 1]) + [DigitChar(ds[|ds| - 1])]
  }

  lemma {:induction false} JoinedText(whole: nat, ds: seq<nat>)
    requires Digits(ds)
    ensures AllDigits(Dec(whole) + Text(ds)) && NumberOf(Dec(whole) + Text(ds)) == Joined(whole, ds)
    decreases |ds|
  {
    if ds == [] {
      assert Dec(whole) + Text(ds) == Dec(whole);
    } else {
      var p := ds[..|ds| - 1];
      JoinedText(whole, p);
      var t := Dec(whole) + Text(ds);
      assert t[..|t| - 1] == Dec(whole) + Text(p);
    }
  }

  predicate AllZeroDigits(ds: seq<nat>) {
    forall i :: 0 <= i < |ds| ==> ds[i] == 0
  }

  lemma AllZeroSplit(ds: seq<nat>)
    requires ds != []
    ensures AllZeroDigits(ds) <==> AllZeroDigits(ds[..|ds| - 1]) && ds[|ds| - 1] == 0
  {
    assert ds == ds[..|ds| - 1] + [ds[|ds| - 1]];
  }

  lemma {:induction false} JoinedZero(whole: nat, ds: seq<nat>)
    ensures Joined(whole, ds) == 0 <==> whole == 0 && AllZeroDigits(ds)
    decreases |ds|
  {
    if ds != [] {
      JoinedZero(whole, ds[..|ds| - 1]);
      AllZeroSplit(ds);
    }
  }

  lemma JoinedPush(whole: nat, ds: seq<nat>, digit: nat)
    ensures Joined(whole, ds + [digit]) == 10 * Joined(whole, ds) + digit
  {
    assert (ds + [digit])[..|ds|] == ds;
  }

  /** Bumping digit `i` and zeroing the nines after it adds one. */
  lemma {:induction false} CarryAt(whole: nat, a: seq<nat>, b: seq<nat>, i: nat)
    requires |a| == |b| && i < |a| && a[..i] == b[..i] && b[i] == a[i] + 1
    requires forall k :: i < k < |a| ==> a[k] == 9 && b[k] == 0
    ensures Joined(whole, b) == Joined(whole, a) + 1
    decreases |a|
  {
    var a', b' := a[..|a| - 1], b[..|b| - 1];
    if i + 1 < |a| {
      assert a'[..i] == a[..i] && b'[..i] == b[..i];
      CarryAt(whole, a', b', i);
    } else {
      assert a' == a[..i] && b' == b[..i];
    }
  }

  /** All nines roll over to all zeros and carry into the integer part. */
  lemma {:induction false} CarryOut(whole: nat, a: seq<nat>, b: seq<nat>)
    requires |a| == |b|
    requires forall k :: 0 <= k < |a| ==> a[k] == 9 && b[k] == 0
    ensures Joined(whole + 1, b) == Joined(whole, a) + 1
    decreases |a|
  {
    if a != [] {
      CarryOut(whole, a[..|a| - 1], b[..|b| - 1]);
    }
  }

  /** Adds one unit in the last place, carrying in place through the fraction and out into `whole`. */
  method RoundUpFraction(whole: nat, fraction: array<nat>) returns (rounded: nat)
    requires Digits(fraction[..]) && whole < I128_MAX
    modifies fraction
    ensures Digits(fraction[..])
    ensures rounded <= I128_MAX && Joined(rounded, fraction[..]) == Joined(whole, old(fraction[..])) + 1
  {
    ghost var was := fraction[..];
    var i := fraction.Length;
    while i > 0
      invariant 0 <= i <= fraction.Length
      invariant fraction[..i] == was[..i]
      invariant forall k :: i <= k < fraction.Length ==> was[k] == 9 && fraction[k] == 0
    {
      i := i - 1;
      assert fraction[i] == was[..i + 1][i] == was[i];
      if fraction[i] < 9 {
        fraction[i] := fraction[i] + 1;
        assert fraction[..i] == was[..i];
        CarryAt(whole, was, fraction[..], i);
        return whole;
      }
      fraction[i] := 0;
    }
    CarryOut(whole, was, fraction[..]);
    return whole + 1;
  }

  // ----- The digit loop -----

  /** How many significant digits `a` shows. */
  function Significant(a: nat): nat {
    if a == 0 then 0 else |Dec(a)|
  }

  lemma SignificantStep(a: nat, digit: nat)
    requires digit < 10
    ensures Significant(10 * a + digit) == Significant(a) + (if 10 * a + digit != 0 then 1 else 0)
  {
  }

  lemma Pow10Seventeen()
    ensures Pow10(17) == TEN17
  {
    assert Pow10(5) == 100_000 && Pow10(2) == 100;
    Pow10Add(5, 5);
    Pow10Add(10, 5);
    Pow10Add(15, 2);
  }

  lemma SignificantBelow(a: nat)
    ensures Significant(a) < RATE_SIGNIFICANT_DIGITS <==> a < TEN17
  {
    Pow10Seventeen();
    if a > 0 {
      if |Dec(a)| <= 17 { Pow10Monotone(|Dec(a)|, 17); } else { Pow10Monotone(17, |Dec(a)| - 1); }
    }
  }

  /** `n / d` to `j` fraction digits is `a`, with remainder `rem`. */
  ghost predicate At(n: nat, d: nat, j: nat, a: nat, rem: nat) {
    n * Pow10(j) == a * d + rem && rem < d
  }

  lemma RemainderOf(n: nat, d: nat, j: nat, a: nat, rem: nat)
    requires d > 0 && At(n, d, j, a, rem)
    ensures RemainderAt(n, d, j) == rem
  {
    DivUnique(n * Pow10(j), d, a, rem);
  }

  lemma DigitProduct(a: int, q: int, d: int)
    ensures (10 * a + q) * d == 10 * (a * d) + q * d
  {
  }

  lemma DigitStep(n: nat, d: nat, j: nat, a: nat, rem: nat)
    requires d > 0 && At(n, d, j, a, rem)
    ensures 0 <= (10 * rem) / d < 10
    ensures At(n, d, j + 1, 10 * a + (10 * rem) / d, (10 * rem) % d)
  {
    var q, r := (10 * rem) / d, (10 * rem) % d;
    NextDigit(rem, d);
    DivMod(10 * rem, d);
    MulTen(n, Pow10(j));
    DigitProduct(a, q, d);
  }

  lemma FractionDigitsStep(n: nat, d: nat, j: nat, a: nat, rem: nat)
    requires n > 0 && d > 0 && At(n, d, j, a, rem)
    ensures n * Pow10(j) > 0 && n * Pow10(j + 1) > 0
    ensures a < TEN17 ==> FractionDigits(n * Pow10(j), d) == 1 + FractionDigits(n * Pow10(j + 1), d)
    ensures a >= TEN17 ==> FractionDigits(n * Pow10(j), d) == 0
  {
    MulStrict(0, n, Pow10(j));
    assert n * Pow10(j + 1) == 10 * (n * Pow10(j));
    if a < TEN17 {
      MulMonotone(a + 1, TEN17, d);
      assert (a + 1) * d == a * d + d;
    } else {
      MulMonotone(TEN17, a, d);
    }
  }

  /** `ds` are the first fraction digits of `n / d`, `a` the digits so far as one integer, and `rem` what is left. */
  ghost predicate Dividing(n: nat, d: nat, ds: seq<nat>, a: nat, rem: nat) {
    && n > 0 && d > 0 && Digits(ds) && a == Joined(n / d, ds)
    && At(n, d, |ds|, a, rem)
    && n * Pow10(|ds|) > 0
    && |ds| + FractionDigits(n * Pow10(|ds|), d) == FractionDigits(n, d)
    && forall j :: 0 <= j < |ds| ==> 10 * RemainderAt(n, d, j) <= I128_MAX
  }

  lemma DividingStarts(n: nat, d: nat)
    requires n > 0 && d > 0
    ensures n / d >= 0 && n % d >= 0 && Dividing(n, d, [], n / d, n % d)
  {
    DivMod(n, d);
    assert n * Pow10(0) == n;
  }

  lemma NextDigit(rem: nat, d: nat)
    requires rem < d
    ensures 0 <= (10 * rem) / d < 10 && 0 <= (10 * rem) % d < d
    ensures (10 * rem) / d == 0 ==> (10 * rem) % d == 10 * rem
  {
    DivMod(10 * rem, d);
    var q := (10 * rem) / d;
    if q >= 10 { MulMonotone(10, q, d); }
  }

  lemma DividingNext(n: nat, d: nat, ds: seq<nat>, a: nat, rem: nat)
    requires Dividing(n, d, ds, a, rem) && a < TEN17
    ensures RemainderAt(n, d, |ds|) == rem && |ds| < FractionDigits(n, d)
    ensures n * Pow10(|ds| + 1) > 0 && |ds| + 1 + FractionDigits(n * Pow10(|ds| + 1), d) == FractionDigits(n, d)
  {
    RemainderOf(n, d, |ds|, a, rem);
    FractionDigitsStep(n, d, |ds|, a, rem);
  }

  lemma DividingDigit(n: nat, d: nat, ds: seq<nat>, a: nat, rem: nat, digit: nat, rest: nat)
    requires Dividing(n, d, ds, a, rem) && a < TEN17 && 10 * rem <= I128_MAX
    requires digit < 10 && At(n, d, |ds| + 1, 10 * a + digit, rest)
    ensures Dividing(n, d, ds + [digit], 10 * a + digit, rest)
  {
    DividingNext(n, d, ds, a, rem);
    assert 10 * a + digit == Joined(n / d, ds + [digit]) by { JoinedPush(n / d, ds, digit); }
    forall j | 0 <= j < |ds| + 1 ensures 10 * RemainderAt(n, d, j) <= I128_MAX {
      assert j < |ds| || j == |ds|;
    }
  }

  lemma DividingEnds(n: nat, d: nat, ds: seq<nat>, a: nat, rem: nat)
    requires Dividing(n, d, ds, a, rem) && a >= TEN17
    ensures |ds| == FractionDigits(n, d)
  {
    FractionDigitsStep(n, d, |ds|, a, rem);
  }

  predicate ShowsDigit(whole: nat, ds: seq<nat>) {
    whole != 0 || !AllZeroDigits(ds)
  }

  /** Counting a digit as significant once anything is non-zero keeps the count of significant digits. */
  lemma SignificantNext(whole: nat, ds: seq<nat>, digit: nat)
    requires digit < 10
    ensures var a := Joined(whole, ds);
      Significant(10 * a + digit) == Significant(a) + (if ShowsDigit(whole, ds + [digit]) then 1 else 0)
    ensures !ShowsDigit(whole, ds + [digit]) ==> digit == 0
  {
    JoinedPush(whole, ds, digit);
    JoinedZero(whole, ds + [digit]);
    SignificantStep(Joined(whole, ds), digit);
    assert (ds + [digit])[|ds|] == digit;
  }

  /** The fraction digits of `numer / denom`, until the remainder vanishes or 18 significant digits show. */
  method GenerateFraction(numer: nat, denom: nat) returns (ok: bool, fraction: seq<nat>, remainder: nat)
    requires 0 < numer && 0 < denom && IsI128(numer) && IsI128(denom)
    ensures Dividing(numer, denom, fraction, Joined(numer / denom, fraction), remainder)
    ensures !ok ==> |fraction| < FractionDigits(numer, denom) && 10 * RemainderAt(numer, denom, |fraction|) > I128_MAX
    ensures ok ==> remainder == 0 || |fraction| == FractionDigits(numer, denom)
    ensures fraction == [] ==> remainder == numer % denom
  {
    DividingStarts(numer, denom);
    var whole := numer / denom;
    remainder := numer % denom;
    fraction := [];
    var significant := if whole == 0 then 0 else |Dec(whole)|;
    ghost var a: nat := whole;
    while remainder != 0 && significant < RATE_SIGNIFICANT_DIGITS
      invariant Dividing(numer, denom, fraction, a, remainder) && significant == Significant(a)
      invariant fraction == [] ==> remainder == numer % denom
      decreases RATE_SIGNIFICANT_DIGITS - significant, denom - remainder
    {
      SignificantBelow(a);
      DividingNext(numer, denom, fraction, a, remainder);
      NextDigit(remainder, denom);
      if 10 * remainder > I128_MAX {
        return false, fraction, remainder;
      }
      var digit: nat := (10 * remainder) / denom;
      SignificantNext(whole, fraction, digit);
      DigitStep(numer, denom, |fraction|, a, remainder);
      DividingDigit(numer, denom, fraction, a, remainder, digit, (10 * remainder) % denom);
      remainder := (10 * remainder) % denom;
      fraction := fraction + [digit];
      a := 10 * a + digit;
      if ShowsDigit(whole, fraction) {
        significant := significant + 1;
      }
    }
    SignificantBelow(a);
    if remainder != 0 { DividingEnds(numer, denom, fraction, a, remainder); }
    ok := true;
  }

  // ----- Rounding the last digit -----

  function RoundsUp(next: nat, rest: nat, lastIsOdd: bool): bool {
    next > 5 || (next == 5 && (rest != 0 || lastIsOdd))
  }

  /** Looking at one more digit and whether anything follows it is half-even rounding. */
  lemma RoundsHalfEven(n: nat, d: nat, a: nat, rem: nat)
    requires d > 0 && n == a * d + rem && rem < d
    ensures (10 * rem) / d >= 0 && (10 * rem) % d >= 0
    ensures HalfEven(n, d) == a + (if RoundsUp((10 * rem) / d, (10 * rem) % d, a % 2 == 1) then 1 else 0)
  {
    DivUnique(n, d, a, rem);
    DivMod(10 * rem, d);
    var next, rest := (10 * rem) / d, (10 * rem) % d;
    var p := next * d;
    assert 10 * rem == p + rest;
    if next > 5 { MulMonotone(6, next, d); }
    else if next < 5 { MulMonotone(next, 4, d); }
  }

  lemma JoinedParity(whole: nat, ds: seq<nat>)
    ensures Joined(whole, ds) % 2 == (if ds == [] then whole else ds[|ds| - 1]) % 2
  {
    if ds != [] { ParityOfSum(Joined(whole, ds[..|ds| - 1]), ds[|ds| - 1]); }
  }

  // ----- Rendering -----

  function TrimEnd(s: string, c: char): string {
    if s != "" && s[|s| - 1] == c then TrimEnd(s[..|s| - 1], c) else s
  }

  function TrimZerosAndPoint(s: string): string {
    TrimEnd(TrimEnd(s, '0'), '.')
  }

  lemma RenderEnds(n: nat, scale: nat)
    ensures var t := Render(n, scale); t != "" && IsDigit(t[|t| - 1])
    ensures n % 10 != 0 ==> var t := Render(n, scale); t[|t| - 1] != '0'
  {
    if scale > 0 {
      LastDigitOfMod(n, Pow10(scale - 1));
    }
  }

  /** The zero trim turns `a / 10^scale` into its normal form, and the point goes when no fraction is left. */
  lemma {:induction false} TrimOfRender(a: nat, scale: nat)
    requires scale > 0
    ensures var (c, s) := Normalise(a, scale); TrimZerosAndPoint(Render(a, scale)) == Render(c, s)
    decreases scale
  {
    RenderEnds(a, scale);
    if a % 10 == 0 {
      if scale > 1 {
        RenderDropsZero(a, scale);
        var t := Render(a / 10, scale - 1);
        assert (t + "0")[..|t|] == t;
        TrimOfRender(a / 10, scale - 1);
      } else {
        TrimOfTenths(a);
      }
    }
  }

  lemma TrimOfTenths(a: nat)
    requires a % 10 == 0
    ensures TrimZerosAndPoint(Render(a, 1)) == Render(a / 10, 0)
  {
    assert Pow10(1) == 10 * Pow10(0) == 10;
    var t := Dec(a / 10);
    assert Pad(0, 1) == Pad(0, 0) + "0" == "0";
    assert Render(a, 1) == (t + ".") + "0";
    assert ((t + ".") + "0")[..|t| + 1] == t + ".";
    assert TrimEnd(t + ".", '0') == t + ".";
    assert (t + ".")[..|t|] == t;
    assert TrimEnd(t, '.') == t;
  }

  /** Without a fraction the trim eats the zeros of the integer itself. */
  lemma {:induction false} TrimOfInteger(a: nat)
    requires a > 0
    ensures TrimZerosAndPoint(Dec(a)) == Dec(StripZeros(a))
  {
    RenderEnds(a, 0);
    if a % 10 == 0 {
      var t := Dec(a / 10);
      assert Dec(a) == t + "0" && (t + "0")[..|t|] == t;
      TrimOfInteger(a / 10);
    }
  }

  lemma RenderNotZero(c: nat, s: nat)
    requires c > 0
    ensures Render(c, s) != "" && Render(c, s) != "0"
  {
    if s == 0 { assert NumberOf("0") == 0 by { assert NumberOf("0"[..0]) == 0; } }
  }

  lemma TrimNothing(t: string)
    requires t != "" && !IsWhitespace(t[0]) && !IsWhitespace(t[|t| - 1])
    ensures Trim(t) == t
  {
  }

  /** Re-parsing a rendered quotient keeps coefficient, scale and text, if the coefficient fits. */
  lemma ParseRateOfRender(c: nat, s: nat)
    requires c > 0 && s <= U32_MAX
    ensures ParseRate(Render(c, s)) == if c > I64_MAX then Err(CoefficientTooLarge) else Ok(Rate(Render(c, s), c, s))
  {
    var t := Render(c, s);
    PlainTextParses(t, c, s);
    RenderEnds(c, s);
    assert IsDigit(t[0]);
    TrimNothing(t);
  }

  /** Spaces, tabs and line ends around a rate do not matter, and the kept text is without them. */
  lemma ParseIgnoresPadding(before: string, c: nat, s: nat, after: string)
    requires forall i :: 0 <= i < |before| ==> before[i] in " \t\r\n"
    requires forall i :: 0 <= i < |after| ==> after[i] in " \t\r\n"
    requires 0 < c <= I64_MAX && s <= U32_MAX
    ensures ParseRate(before + Render(c, s) + after) == Ok(Rate(Render(c, s), c, s))
  {
    var t := Render(c, s);
    assert t != "" && !IsWhitespace(t[0]) && !IsWhitespace(t[|t| - 1]) by {
      RenderEnds(c, s);
      assert IsDigit(t[0]);
    }
    assert AllWhitespace(before) && AllWhitespace(after);
    TrimPadded(before, t, after);
    TrimNothing(t);
    ParseRateOfRender(c, s);
  }
}
