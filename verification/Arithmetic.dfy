/** Powers of ten and half-even rounding of a rational, stated without naming any program. */
module Arithmetic {

  function Pow10(n: nat): (p: nat)
    ensures p >= 1
  {
    if n == 0 then 1 else 10 * Pow10(n - 1)
  }

  lemma {:induction false} Pow10Add(a: nat, b: nat)
    ensures Pow10(a + b) == Pow10(a) * Pow10(b)
    decreases b
  {
    if b > 0 {
      Pow10Add(a, b - 1);
      assert Pow10(a) * (10 * Pow10(b - 1)) == 10 * (Pow10(a) * Pow10(b - 1));
    } else {
      assert Pow10(b) == 1;
    }
  }

  lemma {:induction false} Pow10Monotone(a: nat, b: nat)
    requires a <= b
    ensures Pow10(a) <= Pow10(b)
    decreases b
  {
    if a < b {
      Pow10Monotone(a, b - 1);
    }
  }

  lemma MulMonotone(a: int, b: int, c: int)
    requires a <= b && 0 <= c
    ensures a * c <= b * c
  {
    assert b * c - a * c == (b - a) * c;
  }

  lemma MulStrict(a: int, b: int, c: int)
    requires a < b && 0 < c
    ensures a * c < b * c
  {
    assert b * c - a * c == (b - a) * c;
  }

  lemma MulCancel(a: int, b: int, c: int)
    requires a * c <= b * c && 0 < c
    ensures a <= b
  {
    if b < a {
      MulStrict(b, a, c);
    }
  }

  lemma DivMod(n: nat, d: nat)
    requires d > 0
    ensures n / d >= 0 && 0 <= n % d < d && n == (n / d) * d + n % d
  {
  }

  lemma MulTen(a: int, p: int)
    ensures a * (10 * p) == 10 * (a * p)
  {
  }

  lemma MulAssoc(a: int, b: int, c: int)
    ensures (a * b) * c == a * (b * c)
  {
  }

  /** (ab)(cd) = (ac)(bd). */
  lemma SwapInner(a: int, b: int, c: int, d: int)
    ensures (a * b) * (c * d) == (a * c) * (b * d)
  {
    MulAssoc(a, b, c * d);
    MulAssoc(b, c, d);
    MulAssoc(c, b, d);
    MulAssoc(a, c, b * d);
  }

  /** Division by `d` is determined by its defining equation. */
  lemma DivUnique(n: int, d: int, q: int, r: int)
    requires d > 0 && n == q * d + r && 0 <= r < d
    ensures n / d == q && n % d == r
  {
    var q', r' := n / d, n % d;
    assert n == q' * d + r';
    assert (q' + 1) * d == q' * d + d && (q + 1) * d == q * d + d;
    if q' < q {
      MulMonotone(q' + 1, q, d);
    } else if q < q' {
      MulMonotone(q + 1, q', d);
    }
  }

  /** The last digit survives reduction by a multiple of ten, and dropping it commutes with the reduction. */
  lemma LastDigitOfMod(n: nat, p: nat)
    requires p > 0
    ensures (n % (10 * p)) % 10 == n % 10
    ensures n / (10 * p) == (n / 10) / p && (n % (10 * p)) / 10 == (n / 10) % p
  {
    var q, r := n / (10 * p), n % (10 * p);
    DivMod(n, 10 * p);
    MulTen(q, p);
    var m := q * p;
    LastDigitOfSum(m, r);
    DivUnique(n / 10, p, q, r / 10);
  }

  lemma ParityOfSum(m: nat, r: nat)
    ensures (10 * m + r) % 2 == r % 2
  {
    assert 10 * m + r == 2 * (5 * m) + r;
  }

  lemma LastDigitOfSum(m: nat, r: nat)
    ensures (10 * m + r) % 10 == r % 10 && (10 * m + r) / 10 == m + r / 10
  {
  }

  /** `q` is an integer nearest to `n / d`, and the even one when two are equally near. */
  ghost predicate IsNearestEven(n: int, d: int, q: int)
    requires d > 0
  {
    && -d <= 2 * (n - q * d) <= d
    && (2 * (n - q * d) == d || 2 * (n - q * d) == -d ==> q % 2 == 0)
  }

  /** The integer nearest to `n / d`, ties to even. */
  function HalfEven(n: nat, d: nat): (q: nat)
    requires d > 0
    ensures IsNearestEven(n, d, q)
  {
    var q, r := n / d, n % d;
    assert n - q * d == r;
    assert n - (q + 1) * d == r - d by { assert (q + 1) * d == q * d + d; }
    assert q >= 0;
    if 2 * r < d || (2 * r == d && q % 2 == 0) then q else q + 1
  }

  lemma NearestEvenUnique(n: int, d: int, p: int, q: int)
    requires d > 0 && IsNearestEven(n, d, p) && IsNearestEven(n, d, q)
    ensures p == q
  {
    if p != q {
      var lo, hi := if p < q then p else q, if p < q then q else p;
      assert (lo + 1) * d == lo * d + d;
      MulMonotone(lo + 1, hi, d);
      if lo + 1 < hi {
        MulStrict(lo + 1, hi, d);
        assert false;
      }
    }
  }

  lemma HalfEvenOf(n: nat, d: nat, q: int)
    requires d > 0 && IsNearestEven(n, d, q)
    ensures HalfEven(n, d) == q
  {
    NearestEvenUnique(n, d, HalfEven(n, d), q);
  }

  lemma HalfEvenExact(k: nat, d: nat)
    requires d > 0
    ensures k * d >= 0 && HalfEven(k * d, d) == k
  {
    assert k * d >= 0 by { MulMonotone(0, k, d); }
    HalfEvenOf(k * d, d, k);
  }

  /** Scaling by a positive factor keeps both bounds, and equality with each of them. */
  lemma ScaleBounds(e: int, d: int, k: int)
    requires k > 0 && -d <= e <= d
    ensures -(d * k) <= e * k <= d * k
    ensures (e * k == d * k) == (e == d) && (e * k == -(d * k)) == (e == -d)
  {
    assert d * k - e * k == (d - e) * k && e * k + d * k == (e + d) * k;
    MulMonotone(0, d - e, k);
    MulMonotone(0, e + d, k);
    if e < d { MulStrict(0, d - e, k); }
    if -d < e { MulStrict(0, e + d, k); }
  }

  /** The rounding error scales with the ratio. */
  lemma ScaleError(n: int, d: int, k: int, q: int)
    ensures 2 * (n * k - q * (d * k)) == (2 * (n - q * d)) * k
  {
    MulAssoc(q, d, k);
    ScaleDifference(n, q * d, k);
  }

  lemma ScaleDifference(a: int, b: int, k: int)
    ensures 2 * (a * k - b * k) == (2 * (a - b)) * k
  {
  }

  lemma HalfEvenScale(n: nat, d: nat, k: nat)
    requires d > 0 && k > 0
    ensures n * k >= 0 && d * k > 0 && HalfEven(n * k, d * k) == HalfEven(n, d)
  {
    var q := HalfEven(n, d);
    MulMonotone(0, n, k);
    MulStrict(0, d, k);
    var e := 2 * (n - q * d);
    ScaleBounds(e, d, k);
    ScaleError(n, d, k, q);
    HalfEvenOf(n * k, d * k, q);
  }

  /** Equal rationals round alike. */
  lemma HalfEvenOfEqualRatios(n: nat, d: nat, n': nat, d': nat)
    requires d > 0 && d' > 0 && n * d' == n' * d
    ensures HalfEven(n, d) == HalfEven(n', d')
  {
    HalfEvenScale(n, d, d');
    HalfEvenScale(n', d', d);
    assert d * d' == d' * d;
  }

  lemma HalfEvenMonotone(n: nat, m: nat, d: nat)
    requires d > 0 && n <= m
    ensures HalfEven(n, d) <= HalfEven(m, d)
  {
    var p, q := HalfEven(n, d), HalfEven(m, d);
    if q < p {
      // Only n == m with both roundings equally near is left, and then they are equal.
      assert (q + 1) * d == q * d + d;
      MulMonotone(q + 1, p, d);
    }
  }
}
