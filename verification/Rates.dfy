/** Exchange rates: decimal parsing, and division of two rates to 18 significant digits. */
module Rates {
  import opened Arithmetic
  import opened DecimalText

  const I64_MAX := 0x7FFF_FFFF_FFFF_FFFF
  const U32_MAX := 0xFFFF_FFFF
  const I128_MAX := 0x7FFF_FFFF_FFFF_FFFF_FFFF_FFFF_FFFF_FFFF
  const RATE_SIGNIFICANT_DIGITS := 18

  datatype RateError = NotPositiveDecimal | CoefficientTooLarge | ScaleTooLarge | CannotDivide
  datatype Result<+T> = Ok(value: T) | Err(error: RateError)

  /** A positive decimal: the text it came from, and `coefficient / 10^scale`. */
  datatype Rate = Rate(text: string, coefficient: nat, scale: nat)

  const ONE := Rate("1", 1, 0)

  // ----- Parsing -----

  function IndexOf(s: string, c: char): (i: nat)
    ensures i <= |s|
    ensures forall k :: 0 <= k < i ==> s[k] != c
    ensures i < |s| ==> s[i] == c
  {
    if s == "" || s[0] == c then 0 else 1 + IndexOf(s[1..], c)
  }

  /** The text before the first point and the text after it, or all of it and nothing. */
  function SplitAtPoint(digits: string): (string, string) {
    var dot := IndexOf(digits, '.');
    if dot < |digits| then (digits[..dot], digits[dot + 1..]) else (digits, "")
  }

  function ParseParts(whole: string, fraction: string): Result<(nat, nat)> {
    if (whole == "" && fraction == "") || !AllDigits(whole) || !AllDigits(fraction) then Err(NotPositiveDecimal)
    else if |whole| > 1 && whole[0] == '0' then Err(NotPositiveDecimal)
    else
      var combined := whole + fraction;
      if AllZeros(combined) then Err(NotPositiveDecimal)
      else if NumberOf(combined) > I64_MAX then Err(CoefficientTooLarge)
      else if NumberOf(combined) <= 0 then Err(NotPositiveDecimal)
      else if |fraction| > U32_MAX then Err(ScaleTooLarge)
      else Ok((NumberOf(combined), |fraction|))
  }

  function StripPlus(raw: string): string {
    if raw != "" && raw[0] == '+' then raw[1..] else raw
  }

  function ParsePositiveDecimal(raw: string): Result<(nat, nat)> {
    var digits := StripPlus(raw);
    if digits == "" || digits[0] == '-' || digits == "." then Err(NotPositiveDecimal)
    else
      var (whole, fraction) := SplitAtPoint(digits);
      ParseParts(whole, fraction)
  }

  predicate IsWhitespace(c: char) {
    || '\t' <= c <= '\r' || c == ' ' || c == '\U{85}' || c == '\U{A0}' || c == '\U{1680}'
    || '\U{2000}' <= c <= '\U{200A}' || c == '\U{2028}' || c == '\U{2029}' || c == '\U{202F}'
    || c == '\U{205F}' || c == '\U{3000}'
  }

  function Trim(s: string): string
    decreases |s|
  {
    if s == "" then ""
    else if IsWhitespace(s[0]) then Trim(s[1..])
    else if IsWhitespace(s[|s| - 1]) then Trim(s[..|s| - 1])
    else s
  }

  function ParseRate(original: string): Result<Rate> {
    var trimmed := Trim(original);
    match ParsePositiveDecimal(trimmed)
    case Ok((coefficient, scale)) => Ok(Rate(trimmed, coefficient, scale))
    case Err(error) => Err(error)
  }

  /** The ways to write `c / 10^s` that the parser accepts, apart from a leading plus sign. */
  predicate IsPlainTextOf(t: string, c: nat, s: nat) {
    || t == Render(c, s)
    || (s == 0 && t == Render(c, s) + ".")
    || (s > 0 && c < Pow10(s) && "0" + t == Render(c, s))
  }

  predicate IsTextOf(t: string, c: nat, s: nat) {
    IsPlainTextOf(t, c, s) || (t != "" && t[0] == '+' && IsPlainTextOf(t[1..], c, s))
  }

  lemma SplitOfParts(whole: string, fraction: string)
    requires AllDigits(whole)
    ensures SplitAtPoint(whole + "." + fraction) == (whole, fraction)
    ensures SplitAtPoint(whole) == (whole, "")
  {
    var t := whole + "." + fraction;
    assert t[|whole|] == '.';
    assert forall k :: 0 <= k < |whole| ==> t[k] == whole[k];
    assert IndexOf(t, '.') == |whole|;
    assert t[..|whole|] == whole && t[|whole| + 1..] == fraction;
  }

  /** The parts denote `c / 10^s`, and the parser's checks pass. */
  predicate AreParts(whole: string, fraction: string, c: nat, s: nat) {
    && AllDigits(whole) && AllDigits(fraction) && (|whole| > 1 ==> whole[0] != '0')
    && |fraction| == s && (whole != "" || fraction != "")
    && NumberOf(whole + fraction) == c
  }

  predicate Fits(c: nat, s: nat) {
    0 < c <= I64_MAX && s <= U32_MAX
  }

  /** What is left to check once the text is known to denote `c / 10^s`. */
  function Checked(c: nat, s: nat): Result<(nat, nat)> {
    if c == 0 then Err(NotPositiveDecimal)
    else if c > I64_MAX then Err(CoefficientTooLarge)
    else if s > U32_MAX then Err(ScaleTooLarge)
    else Ok((c, s))
  }

  lemma ParsePartsIff(whole: string, fraction: string, c: nat, s: nat)
    ensures ParseParts(whole, fraction) == Ok((c, s)) <==> Fits(c, s) && AreParts(whole, fraction, c, s)
    ensures AreParts(whole, fraction, c, s) ==> ParseParts(whole, fraction) == Checked(c, s)
  {
    if AllDigits(whole) && AllDigits(fraction) {
      NumberOfPositive(whole + fraction);
    }
  }

  lemma TextOfWhole(whole: string)
    requires whole != "" && AllDigits(whole) && (|whole| > 1 ==> whole[0] != '0')
    ensures Render(NumberOf(whole), 0) == whole
  {
    DecOfNumberOf(whole);
  }

  lemma TextOfFraction(whole: string, fraction: string)
    requires fraction != "" && AllDigits(whole) && AllDigits(fraction) && (|whole| > 1 ==> whole[0] != '0')
    ensures Render(NumberOf(whole + fraction), |fraction|) == (if whole == "" then "0" else whole) + "." + fraction
    ensures whole == "" ==> NumberOf(whole + fraction) < Pow10(|fraction|)
  {
    RenderOfAppended(whole, fraction);
    NumberOfBound(fraction);
    if whole != "" {
      DecOfNumberOf(whole);
    } else {
      assert whole + fraction == fraction;
    }
  }

  lemma PlainTextOfParts(t: string, whole: string, fraction: string, c: nat, s: nat)
    requires AreParts(whole, fraction, c, s)
    requires t == whole + "." + fraction || (fraction == "" && t == whole)
    ensures IsPlainTextOf(t, c, s)
  {
    if fraction == "" {
      assert whole + fraction == whole;
      TextOfWhole(whole);
      assert whole + "." + fraction == whole + ".";
    } else {
      TextOfFraction(whole, fraction);
      if whole == "" {
        assert "0" + (whole + "." + fraction) == "0" + "." + fraction;
      }
    }
  }

  lemma PartsOfPlainText(t: string, c: nat, s: nat) returns (whole: string, fraction: string)
    requires IsPlainTextOf(t, c, s)
    ensures AreParts(whole, fraction, c, s)
    ensures t == whole + "." + fraction || (fraction == "" && t == whole)
  {
    var p := Pow10(s);
    DivMod(c, p);
    NumberOfPad(c % p, s);
    if s == 0 {
      whole, fraction := Dec(c), "";
      assert whole + fraction == whole && whole + "." + fraction == whole + ".";
    } else {
      whole, fraction := Dec(c / p), Pad(c % p, s);
      NumberOfAppend(whole, fraction);
      if t != Render(c, s) {
        DivUnique(c, p, 0, c);
        assert t == ("0" + t)[1..] == "" + "." + fraction;
        assert "" + fraction == fraction;
        whole := "";
      }
    }
  }

  lemma PlainTextParse(t: string, c: nat, s: nat)
    requires t == "" || t[0] != '+'
    ensures ParsePositiveDecimal(t) == Ok((c, s)) <==> Fits(c, s) && IsPlainTextOf(t, c, s)
  {
    var (whole, fraction) := SplitAtPoint(t);
    ParsePartsIff(whole, fraction, c, s);
    if ParsePositiveDecimal(t) == Ok((c, s)) {
      PlainTextOfParts(t, whole, fraction, c, s);
    }
    if IsPlainTextOf(t, c, s) {
      PlainTextParses(t, c, s);
    }
  }

  lemma PlainTextParses(t: string, c: nat, s: nat)
    requires IsPlainTextOf(t, c, s)
    ensures t != "" && t[0] != '+' && ParsePositiveDecimal(t) == Checked(c, s)
  {
    var w, f := PartsOfPlainText(t, c, s);
    PartsParse(t, w, f, c, s);
  }

  lemma PartsParse(t: string, w: string, f: string, c: nat, s: nat)
    requires AreParts(w, f, c, s)
    requires t == w + "." + f || (f == "" && t == w)
    ensures t != "" && t[0] != '+' && ParsePositiveDecimal(t) == Checked(c, s)
  {
    SplitOfParts(w, f);
    PlainTextStart(t, w, f);
    ParsePartsIff(w, f, c, s);
  }

  lemma PlainTextStart(t: string, w: string, f: string)
    requires AllDigits(w) && AllDigits(f) && (w != "" || f != "")
    requires t == w + "." + f || (f == "" && t == w)
    ensures t != "" && t[0] != '+' && t[0] != '-' && t != "."
  {
    if w == "" { assert t[0] == '.' && |t| > 1; } else { assert t[0] == w[0]; }
  }

  /** The parser accepts exactly the texts of positive decimals that fit, and reads the value each one denotes. */
  lemma ParseIffText(t: string, c: nat, s: nat)
    ensures ParsePositiveDecimal(t) == Ok((c, s)) <==> Fits(c, s) && IsTextOf(t, c, s)
  {
    if t != "" && t[0] == '+' {
      var rest := t[1..];
      if IsPlainTextOf(t, c, s) { PlainTextParses(t, c, s); }
      if rest != "" && rest[0] == '+' {
        var (whole, _) := SplitAtPoint(rest);
        assert whole[0] == '+';
        if IsPlainTextOf(rest, c, s) { PlainTextParses(rest, c, s); }
      } else {
        PlainTextParse(rest, c, s);
      }
    } else {
      PlainTextParse(t, c, s);
    }
  }

  /** Printing minor units and parsing the text gives back the units and the digit count. */
  lemma ParseOfRender(m: nat, digits: nat)
    requires 1 <= m <= I64_MAX && digits <= U32_MAX
    ensures ParsePositiveDecimal(Render(m, digits)) == Ok((m, digits))
  {
    ParseIffText(Render(m, digits), m, digits);
  }

  predicate AllWhitespace(s: string) {
    forall i :: 0 <= i < |s| ==> IsWhitespace(s[i])
  }

  lemma {:induction false} TrimPadded(before: string, t: string, after: string)
    requires AllWhitespace(before) && AllWhitespace(after)
    requires t != "" && !IsWhitespace(t[0]) && !IsWhitespace(t[|t| - 1])
    ensures Trim(before + t + after) == t
    decreases |before| + |after|
  {
    var s := before + t + after;
    if before != "" {
      assert s[0] == before[0] && s[1..] == before[1..] + t + after;
      TrimPadded(before[1..], t, after);
    } else if after != "" {
      assert s[0] == t[0] && s[|s| - 1] == after[|after| - 1];
      assert s[..|s| - 1] == before + t + after[..|after| - 1];
      TrimPadded(before, t, after[..|after| - 1]);
    } else {
      assert s == t;
    }
  }
}
