/** Decimal digit strings: printing naturals, reading them back, and fixed-point rendering. */
module DecimalText {
  import opened Arithmetic

  predicate IsDigit(c: char) {
    '0' <= c <= '9'
  }

  predicate AllDigits(s: string) {
    forall i :: 0 <= i < |s| ==> IsDigit(s[i])
  }

  function DigitChar(d: nat): (c: char)
    requires d < 10
    ensures IsDigit(c)
  {
    '0' + d as char
  }

  /** The natural number a digit string denotes. */
  function NumberOf(s: string): nat
    requires AllDigits(s)
  {
    if s == "" then 0 else 10 * NumberOf(s[..|s| - 1]) + (s[|s| - 1] as int - '0' as int)
  }

  /** Shortest decimal text of `n`, as `to_string` prints it. */
  function Dec(n: nat): (s: string)
    ensures s != "" && AllDigits(s) && NumberOf(s) == n
    ensures |s| > 1 ==> s[0] != '0'
    ensures n > 0 ==> Pow10(|s| - 1) <= n < Pow10(|s|)
  {
    if n < 10 then
      assert NumberOf([DigitChar(n)][..0]) == 0;
      assert Pow10(1) == 10 * Pow10(0);
      [DigitChar(n)]
    else
      var s := Dec(n / 10) + [DigitChar(n % 10)];
      assert s[..|s| - 1] == Dec(n / 10);
      s
  }

  /** The last `w` decimal digits of `n`, with leading zeros. */
  function Pad(n: nat, w: nat): (s: string)
    ensures |s| == w && AllDigits(s)
  {
    if w == 0 then "" else Pad(n / 10, w - 1) + [DigitChar(n % 10)]
  }

  lemma {:induction false} NumberOfBound(s: string)
    requires AllDigits(s)
    ensures NumberOf(s) < Pow10(|s|)
    decreases |s|
  {
    if s != "" {
      NumberOfBound(s[..|s| - 1]);
    }
  }

  lemma {:induction false} NumberOfAppend(a: string, b: string)
    requires AllDigits(a) && AllDigits(b)
    ensures AllDigits(a + b) && NumberOf(a + b) == NumberOf(a) * Pow10(|b|) + NumberOf(b)
    decreases |b|
  {
    if b == "" {
      assert a + b == a;
    } else {
      var b' := b[..|b| - 1];
      NumberOfAppend(a, b');
      assert (a + b)[..|a + b| - 1] == a + b';
      assert NumberOf(a) * (10 * Pow10(|b'|)) == 10 * (NumberOf(a) * Pow10(|b'|));
    }
  }

  lemma {:induction false} NumberOfPad(n: nat, w: nat)
    requires n < Pow10(w)
    ensures NumberOf(Pad(n, w)) == n
    decreases w
  {
    if w > 0 {
      NumberOfPad(n / 10, w - 1);
      assert Pad(n, w)[..w - 1] == Pad(n / 10, w - 1);
    }
  }

  lemma {:induction false} PadOfNumberOf(s: string)
    requires AllDigits(s)
    ensures Pad(NumberOf(s), |s|) == s
    decreases |s|
  {
    if s != "" {
      PadOfNumberOf(s[..|s| - 1]);
      assert s == s[..|s| - 1] + [s[|s| - 1]];
    }
  }

  predicate AllZeros(s: string) {
    forall i :: 0 <= i < |s| ==> s[i] == '0'
  }

  lemma {:induction false} NumberOfPositive(s: string)
    requires AllDigits(s)
    ensures NumberOf(s) == 0 <==> AllZeros(s)
    decreases |s|
  {
    if s != "" {
      var p := s[..|s| - 1];
      NumberOfPositive(p);
      assert forall i :: 0 <= i < |p| ==> p[i] == s[i];
      assert s == p + [s[|s| - 1]];
    }
  }

  lemma DecTenfold(m: nat, v: nat)
    requires m > 0 && v < 10
    ensures Dec(10 * m + v) == Dec(m) + [DigitChar(v)]
  {
  }

  /** A digit string without a redundant leading zero is the text of its number. */
  lemma {:induction false} DecOfNumberOf(s: string)
    requires s != "" && AllDigits(s) && (|s| > 1 ==> s[0] != '0')
    ensures Dec(NumberOf(s)) == s
    decreases |s|
  {
    var p, v := s[..|s| - 1], s[|s| - 1] as int - '0' as int;
    assert s == p + [s[|s| - 1]] && DigitChar(v) == s[|s| - 1];
    if p != "" {
      assert p[0] == s[0];
      DecOfNumberOf(p);
      NumberOfPositive(p);
      DecTenfold(NumberOf(p), v);
    }
  }

  /** `n / 10^scale` in fixed-point notation, with exactly `scale` fraction digits. */
  function Render(n: nat, scale: nat): string {
    DivMod(n, Pow10(scale));
    if scale == 0 then Dec(n)
    else Dec(n / Pow10(scale)) + "." + Pad(n % Pow10(scale), scale)
  }

  /** Dropping one trailing zero from a number drops the last character of its text. */
  lemma RenderDropsZero(n: nat, scale: nat)
    requires scale > 1 && n % 10 == 0
    ensures Render(n, scale) == Render(n / 10, scale - 1) + "0"
  {
    LastDigitOfMod(n, Pow10(scale - 1));
    PadDropsZero(n % Pow10(scale), scale);
  }

  lemma PadDropsZero(r: nat, w: nat)
    requires w > 0 && r % 10 == 0
    ensures Pad(r, w) == Pad(r / 10, w - 1) + "0"
  {
  }

  lemma RenderOfAppended(whole: string, fraction: string)
    requires AllDigits(whole) && AllDigits(fraction) && fraction != ""
    ensures Render(NumberOf(whole + fraction), |fraction|) == Dec(NumberOf(whole)) + "." + fraction
  {
    NumberOfAppend(whole, fraction);
    NumberOfBound(fraction);
    PadOfNumberOf(fraction);
    DivUnique(NumberOf(whole + fraction), Pow10(|fraction|), NumberOf(whole), NumberOf(fraction));
  }
}
