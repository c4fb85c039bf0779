/** Sums, extremes and absolute deviations of a list of prime factors, over
    exact reals (the source computes them in floating point). */
module Stats {
  import opened Arith

  /** The sum of the list, accumulated front to back as the source's loops do. */
  function Sum(s: seq<int>): int {
    if s == [] then 0 else Sum(s[..|s| - 1]) + s[|s| - 1]
  }

  /** The text form of an antislope: the literal `"0"`, or `str()` of a
      `Decimal` quotient (its digits are not modelled). */
  datatype AntislopeText = ZeroText | DecimalText(quotient: real)

  /** The antislope of a record: `value / deviation` when the deviation is
      positive, otherwise 0 with the text `"0"`. The text is `"0"` exactly
      when the deviation is not positive, and a non-negative value has a
      non-negative antislope. */
  function Antislope(value: int, deviation: real): (r: (real, AntislopeText))
    ensures r.1 == ZeroText <==> !(deviation > 0.0)
    ensures value >= 0 ==> r.0 >= 0.0
    ensures deviation > 0.0 ==> r.0 == value as real / deviation && r.1 == DecimalText(r.0)
    ensures !(deviation > 0.0) ==> r.0 == 0.0
  {
    if deviation > 0.0 then
      var slope := value as real / deviation;
      if value >= 0 then QuotientNonNegative(value as real, deviation); (slope, DecimalText(slope))
      else (slope, DecimalText(slope))
    else (0.0, ZeroText)
  }

  function Abs(x: real): real {
    if x < 0.0 then -x else x
  }

  lemma QuotientNonNegative(a: real, b: real)
    requires a >= 0.0 && b > 0.0
    ensures a / b >= 0.0
  {
    assert (a / b) * b == a;
  }

  /** A non-negative amount shared out over `n > 0` is non-negative, and
      zero exactly when the amount is. */
  lemma ZeroQuotient(amount: real, n: real)
    requires amount >= 0.0 && n > 0.0
    ensures amount / n >= 0.0
    ensures amount / n == 0.0 <==> amount == 0.0
  {
    QuotientNonNegative(amount, n);
    assert (amount / n) * n == amount;
  }

  /** The sum of `|f - centre|` over the list. */
  function AbsDevSum(s: seq<int>, centre: real): real {
    if s == [] then 0.0 else AbsDevSum(s[..|s| - 1], centre) + Abs(s[|s| - 1] as real - centre)
  }

  function MinOf(s: seq<int>): (m: int)
    requires |s| > 0
  {
    if |s| == 1 then s[0]
    else
      var m := MinOf(s[..|s| - 1]);
      if s[|s| - 1] < m then s[|s| - 1] else m
  }

  function MaxOf(s: seq<int>): (m: int)
    requires |s| > 0
  {
    if |s| == 1 then s[0]
    else
      var m := MaxOf(s[..|s| - 1]);
      if s[|s| - 1] > m then s[|s| - 1] else m
  }

  /** `MinOf` and `MaxOf` are the least and greatest elements. */
  lemma {:induction false} ExtremesCorrect(s: seq<int>)
    requires |s| > 0
    ensures MinOf(s) in s && MaxOf(s) in s
    ensures forall i :: 0 <= i < |s| ==> MinOf(s) <= s[i] <= MaxOf(s)
  {
    if |s| > 1 {
      var init := s[..|s| - 1];
      ExtremesCorrect(init);
      assert forall i :: 0 <= i < |s| - 1 ==> s[i] == init[i];
    }
  }

  /** The sum lies between `n * min` and `n * max`. */
  lemma {:induction false} SumBetweenExtremes(s: seq<int>)
    requires |s| > 0
    ensures |s| * MinOf(s) <= Sum(s) <= |s| * MaxOf(s)
  {
    if |s| > 1 {
      var init := s[..|s| - 1];
      var k := |s| - 1;
      var x := s[|s| - 1];
      SumBetweenExtremes(init);
      var lo, hi := MinOf(init), MaxOf(init);
      var mn, mx := MinOf(s), MaxOf(s);
      assert Sum(s) == Sum(init) + x;
      assert mn <= lo && mn <= x && hi <= mx && x <= mx;
      ScaledBoundsStep(k, lo, hi, mn, mx, Sum(init), x);
    }
  }

  /** The arithmetic of one more element: bounds `k * lo <= t <= k * hi`
      widen to `(k + 1) * mn <= t + x <= (k + 1) * mx`. */
  lemma ScaledBoundsStep(k: nat, lo: int, hi: int, mn: int, mx: int, t: int, x: int)
    requires k * lo <= t <= k * hi
    requires mn <= lo && mn <= x && hi <= mx && x <= mx
    ensures (k + 1) * mn <= t + x <= (k + 1) * mx
  {
    MulNonNegative(k, lo - mn);
    MulNonNegative(k, mx - hi);
    assert k * (lo - mn) == k * lo - k * mn;
    assert k * (mx - hi) == k * mx - k * hi;
    assert (k + 1) * mn == k * mn + mn;
    assert (k + 1) * mx == k * mx + mx;
  }

  /** Absolute deviations add up to a non-negative amount, and to zero exactly
      when every element equals the centre. */
  lemma {:induction false} AbsDevSumZero(s: seq<int>, centre: real)
    ensures AbsDevSum(s, centre) >= 0.0
    ensures AbsDevSum(s, centre) == 0.0 <==> forall i :: 0 <= i < |s| ==> s[i] as real == centre
  {
    if s != [] {
      var init := s[..|s| - 1];
      AbsDevSumZero(init, centre);
      assert forall i :: 0 <= i < |s| - 1 ==> s[i] == init[i];
    }
  }
}
