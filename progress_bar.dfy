/** The progress bar (frontend/src/components/ProgressBar.tsx): the share of
    regions filled, as a whole percentage rounded half up. */
module ProgressBar {
  import opened Types

  /** The percentage shown, or None when nothing is rendered (no picture).
      Exact rational rounding: floor(100 f / t + 1/2) = (200 f + t) div (2 t). */
  function Percentage(current: Option<Picture>, filledCount: nat): (r: Option<int>)
    ensures r.None? <==> current.None?
    ensures current.Some? && |current.value.regions| == 0 ==> r == Some(0)
    ensures current.Some? && |current.value.regions| > 0 ==>
              var t := |current.value.regions|;
              2 * t * r.value <= 200 * filledCount + t < 2 * t * (r.value + 1)
  {
    if current.None? then None
    else
      var t := |current.value.regions|;
      if t > 0 then
        var q := (200 * filledCount + t) / (2 * t);
        DivBounds(200 * filledCount + t, 2 * t);
        Some(q)
      else Some(0)
  }

  /** Euclidean division brackets its dividend. */
  lemma DivBounds(a: int, b: int)
    requires b > 0
    ensures b * (a / b) <= a < b * (a / b + 1)
  {
    assert a == b * (a / b) + a % b;
  }

  /** Every region filled shows 100. */
  lemma FullPercentage(current: Option<Picture>)
    requires current.Some? && |current.value.regions| > 0
    ensures Percentage(current, |current.value.regions|) == Some(100)
  {
    var t := |current.value.regions|;
    var p := Percentage(current, t).value;
    assert 2 * t * p <= 201 * t < 2 * t * (p + 1);
    RoundingBounds(t, p, 100);
  }

  /** If 2t·p ≤ 2t·m + t < 2t·(p + 1) with t > 0 then p is m. */
  lemma RoundingBounds(t: int, p: int, m: int)
    requires t > 0 && 2 * t * p <= 2 * t * m + t < 2 * t * (p + 1)
    ensures p == m
  {
    assert 2 * t * p < 2 * t * (m + 1);
    ScaledLess(2 * t, p, m + 1);
    assert 2 * t * m < 2 * t * (p + 1);
    ScaledLess(2 * t, m, p + 1);
  }

  /** The percentage never falls as more regions are filled. */
  lemma PercentageMonotone(current: Option<Picture>, f1: nat, f2: nat)
    requires current.Some? && f1 <= f2
    ensures Percentage(current, f1).value <= Percentage(current, f2).value
  {
    var t := |current.value.regions|;
    if t > 0 {
      var p1 := Percentage(current, f1).value;
      var p2 := Percentage(current, f2).value;
      assert 2 * t * p1 <= 200 * f1 + t <= 200 * f2 + t < 2 * t * (p2 + 1);
      ScaledLess(2 * t, p1, p2 + 1);
    }
  }

  /** Dividing out a positive factor. */
  lemma ScaledLess(k: int, a: int, b: int)
    requires k > 0 && k * a < k * b
    ensures a < b
  {
    assert k * (b - a) > 0;
  }

  /** While the filled count does not exceed the region count the bar lies in [0, 100]. */
  lemma PercentageRange(current: Option<Picture>, filledCount: nat)
    requires current.Some? && filledCount <= |current.value.regions|
    ensures 0 <= Percentage(current, filledCount).value <= 100
  {
    var t := |current.value.regions|;
    if t > 0 {
      PercentageMonotone(current, 0, filledCount);
      PercentageMonotone(current, filledCount, t);
      FullPercentage(current);
      var p0 := Percentage(current, 0).value;
      assert 2 * t * p0 <= t < 2 * t * (p0 + 1);
      ScaledLess(2 * t, -1, p0);
    }
  }
}
