/** Label grids of the backend segmentation (backend/image_processor.py): a
    row-major sequence of non-negative component labels, `width` per row,
    and the pixel counts taken over it. */
module LabelGrid {

  /** `np.sum(labels == v)`: how many pixels carry v. */
  function Count(s: seq<nat>, v: nat): (n: nat)
    ensures n <= |s|
    ensures n == 0 <==> v !in s
  {
    if |s| == 0 then 0
    else
      var init := s[..|s| - 1];
      assert forall x :: x in s <==> x in init || x == s[|s| - 1];
      Count(init, v) + (if s[|s| - 1] == v then 1 else 0)
  }

  /** Count(s, lo) + ... + Count(s, hi - 1). */
  function CountRange(s: seq<nat>, lo: nat, hi: nat): nat
    decreases hi - lo
  {
    if lo >= hi then 0 else Count(s, lo) + CountRange(s, lo + 1, hi)
  }

  /** Appending one pixel adds one to the range that holds its label. */
  lemma {:induction false} CountRangeSnoc(s: seq<nat>, x: nat, lo: nat, hi: nat)
    ensures CountRange(s + [x], lo, hi) == CountRange(s, lo, hi) + (if lo <= x < hi then 1 else 0)
    decreases hi - lo
  {
    if lo < hi {
      assert (s + [x])[..|s + [x]| - 1] == s;
      CountRangeSnoc(s, x, lo + 1, hi);
    }
  }

  /** With every label below k, the counts of labels 1 .. k - 1 add up to the
      number of non-zero pixels. */
  lemma {:induction false} CountRangeTotal(s: seq<nat>, k: nat)
    requires forall p :: 0 <= p < |s| ==> s[p] < k
    ensures CountRange(s, 1, k) + Count(s, 0) == |s|
  {
    if |s| > 0 {
      var init := s[..|s| - 1];
      var x := s[|s| - 1];
      assert s == init + [x];
      CountRangeTotal(init, k);
      CountRangeSnoc(init, x, 1, k);
    } else {
      CountRangeEmpty(s, 1, k);
    }
  }

  lemma {:induction false} CountRangeEmpty(s: seq<nat>, lo: nat, hi: nat)
    requires |s| == 0
    ensures CountRange(s, lo, hi) == 0
    decreases hi - lo
  {
    if lo < hi {
      CountRangeEmpty(s, lo + 1, hi);
    }
  }

  /** A range of counts splits at any midpoint. */
  lemma {:induction false} CountRangeSplit(s: seq<nat>, lo: nat, mid: nat, hi: nat)
    requires lo <= mid <= hi
    ensures CountRange(s, lo, hi) == CountRange(s, lo, mid) + CountRange(s, mid, hi)
    decreases mid - lo
  {
    if lo < mid {
      CountRangeSplit(s, lo + 1, mid, hi);
    }
  }

  /** Pixels p and q are at most 3 apart on both axes (inside a 7 x 7 window). */
  predicate Near(width: nat, p: int, q: int)
  {
    && width > 0
    && -3 <= p % width - q % width <= 3
    && -3 <= p / width - q / width <= 3
  }
}
