/** Region relabelling in `_segment_regions` (backend/image_processor.py,
    lines 99-120): the surviving positive labels are renumbered densely
    1..k in ascending order (0 stays 0), the mask image keeps each new id
    modulo 256, and each id's pixel count is reported. */
module Renumbering {
  import opened Types
  import opened LabelGrid

  /** A region as the segmentation reports it: its id and its pixel count. */
  datatype RegionCount = RegionCount(id: nat, pixelCount: nat)

  /** Ascending without duplicates: each element above the one before it. */
  predicate StrictlyIncreasing(u: seq<nat>)
  {
    forall i :: 0 < i < |u| ==> u[i - 1] < u[i]
  }

  /** In an ascending sequence every element is above all earlier ones. */
  lemma {:induction false} IncreasingBetween(u: seq<nat>, i: int, j: int)
    requires StrictlyIncreasing(u) && 0 <= i < j < |u|
    ensures u[i] < u[j]
    decreases j - i
  {
    if i + 1 < j {
      IncreasingBetween(u, i, j - 1);
    }
  }

  /** Insert v into an ascending duplicate-free sequence. */
  function InsertSorted(u: seq<nat>, v: nat): (r: seq<nat>)
    requires StrictlyIncreasing(u)
    ensures StrictlyIncreasing(r)
    ensures forall x :: x in r <==> x in u || x == v
  {
    if |u| == 0 then [v]
    else if v == u[0] then u
    else if v < u[0] then
      forall y | y in u ensures v < y {
        HeadIsLeast(u, y);
      }
      PrependLess(v, u);
      [v] + u
    else
      TailAbove(u);
      var rest := InsertSorted(u[1..], v);
      PrependLess(u[0], rest);
      assert u == [u[0]] + u[1..];
      [u[0]] + rest
  }

  /** The head of an ascending sequence is its least element. */
  lemma HeadIsLeast(u: seq<nat>, x: nat)
    requires StrictlyIncreasing(u) && x in u
    ensures u[0] <= x
  {
    var j :| 0 <= j < |u| && u[j] == x;
    if j > 0 {
      IncreasingBetween(u, 0, j);
    }
  }

  /** The tail of an ascending sequence is ascending and above the head. */
  lemma TailAbove(u: seq<nat>)
    requires StrictlyIncreasing(u) && |u| > 0
    ensures StrictlyIncreasing(u[1..])
    ensures forall x :: x in u[1..] ==> u[0] < x
  {
    forall i | 0 < i < |u[1..]| ensures u[1..][i - 1] < u[1..][i] {
      assert u[1..][i - 1] == u[i] && u[1..][i] == u[i + 1];
    }
    forall x | x in u[1..] ensures u[0] < x {
      var j :| 0 <= j < |u[1..]| && u[1..][j] == x;
      assert u[j + 1] == x;
      IncreasingBetween(u, 0, j + 1);
    }
  }

  /** An element below all others may go in front. */
  lemma PrependLess(x: nat, s: seq<nat>)
    requires StrictlyIncreasing(s) && forall y :: y in s ==> x < y
    ensures StrictlyIncreasing([x] + s)
  {
    var r := [x] + s;
    forall i | 0 < i < |r| ensures r[i - 1] < r[i] {
      assert r[i] == s[i - 1] && s[i - 1] in s;
      if i > 1 {
        assert r[i - 1] == s[i - 2];
      }
    }
  }

  /** `np.unique(labels)` restricted to positive labels: each positive label
      once, ascending. */
  function UniquePositive(labels: seq<nat>): (u: seq<nat>)
    ensures StrictlyIncreasing(u)
    ensures forall x :: x in u <==> x in labels && x > 0
  {
    if |labels| == 0 then []
    else
      var init := labels[..|labels| - 1];
      var last := labels[|labels| - 1];
      assert forall x :: x in labels <==> x in init || x == last;
      var u := UniquePositive(init);
      if last > 0 then InsertSorted(u, last) else u
  }

  /** The position of v in u. */
  function IndexOf(u: seq<nat>, v: nat): (i: nat)
    requires v in u
    ensures i < |u| && u[i] == v
  {
    if u[0] == v then 0 else IndexOf(u[1..], v) + 1
  }

  /** In a duplicate-free sequence each element is found at its own position. */
  lemma {:induction false} IndexOfAt(u: seq<nat>, i: int)
    requires StrictlyIncreasing(u) && 0 <= i < |u|
    ensures IndexOf(u, u[i]) == i
  {
    if i > 0 {
      IncreasingBetween(u, 0, i);
      assert u[1..][i - 1] == u[i];
      TailAbove(u);
      IndexOfAt(u[1..], i - 1);
    }
  }

  /** `label_map`: 0 to 0, and the i-th smallest positive label to i + 1. */
  function NewId(u: seq<nat>, v: nat): (n: nat)
    requires v == 0 || v in u
    ensures n == 0 <==> v == 0
    ensures n <= |u|
  {
    if v == 0 then 0 else IndexOf(u, v) + 1
  }

  /** The renumbering keeps the order of positive labels and tells them apart. */
  lemma NewIdOrder(u: seq<nat>, a: nat, b: nat)
    requires StrictlyIncreasing(u) && a in u && b in u
    ensures a < b <==> NewId(u, a) < NewId(u, b)
    ensures a == b <==> NewId(u, a) == NewId(u, b)
  {
    var i := IndexOf(u, a);
    var j := IndexOf(u, b);
    if i < j {
      IncreasingBetween(u, i, j);
    } else if j < i {
      IncreasingBetween(u, j, i);
    }
  }

  /** `new_labels`: every pixel renumbered through the label map. */
  function RelabelledOf(labels: seq<nat>): (r: seq<nat>)
    ensures |r| == |labels|
  {
    var u := UniquePositive(labels);
    seq(|labels|, p requires 0 <= p < |labels| => NewId(u, labels[p]))
  }

  /** After renumbering the positive ids are exactly 1..k, k being the number
      of distinct positive labels, and exactly the 0 pixels stay 0. */
  lemma RelabelDense(labels: seq<nat>)
    ensures var r := RelabelledOf(labels);
            var k := |UniquePositive(labels)|;
            && (forall p :: 0 <= p < |labels| ==> (r[p] == 0 <==> labels[p] == 0) && r[p] <= k)
            && (forall i :: 1 <= i <= k ==> i in r)
  {
    var u := UniquePositive(labels);
    var r := RelabelledOf(labels);
    forall i | 1 <= i <= |u| ensures i in r {
      assert u[i - 1] in labels;
      var p :| 0 <= p < |labels| && labels[p] == u[i - 1];
      IndexOfAt(u, i - 1);
      assert r[p] == i;
    }
  }

  /** Two positive pixels compare after renumbering as they did before. */
  lemma RelabelPreservesOrder(labels: seq<nat>, p: int, q: int)
    requires 0 <= p < |labels| && 0 <= q < |labels| && labels[p] > 0 && labels[q] > 0
    ensures var r := RelabelledOf(labels);
            && (labels[p] < labels[q] <==> r[p] < r[q])
            && (labels[p] == labels[q] <==> r[p] == r[q])
  {
    NewIdOrder(UniquePositive(labels), labels[p], labels[q]);
  }

  /** `mask_img`: each new id modulo 256, as an 8-bit image. */
  function MaskOf(newLabels: seq<nat>): (m: seq<Byte>)
    ensures |m| == |newLabels|
  {
    seq(|newLabels|, p requires 0 <= p < |newLabels| => newLabels[p] % 256)
  }

  /** The 8-bit mask tells two ids apart exactly when they differ modulo 256:
      ids below 256 are kept, 257 shares a byte with 1, and 256 looks like background. */
  lemma MaskAliases(newLabels: seq<nat>, p: nat, q: nat)
    requires p < |newLabels| && q < |newLabels|
    ensures MaskOf(newLabels)[p] == MaskOf(newLabels)[q] <==> newLabels[p] % 256 == newLabels[q] % 256
    ensures MaskOf(newLabels)[p] == 0 <==> newLabels[p] % 256 == 0
    ensures newLabels[p] < 256 ==> MaskOf(newLabels)[p] == newLabels[p]
    ensures MaskOf([1, 257, 256]) == [1, 1, 0]
  {
  }

  /** `regions`: ids 1..k in order, each with its pixel count. */
  function RegionsOf(newLabels: seq<nat>, k: nat): (regions: seq<RegionCount>)
    ensures |regions| == k
  {
    seq(k, i requires 0 <= i < k => RegionCount(i + 1, Count(newLabels, i + 1)))
  }

  function TotalPixels(regions: seq<RegionCount>): nat
  {
    if |regions| == 0 then 0 else TotalPixels(regions[..|regions| - 1]) + regions[|regions| - 1].pixelCount
  }

  lemma {:induction false} TotalPixelsOfRegions(newLabels: seq<nat>, k: nat)
    ensures TotalPixels(RegionsOf(newLabels, k)) == CountRange(newLabels, 1, k + 1)
  {
    if k > 0 {
      assert RegionsOf(newLabels, k)[..k - 1] == RegionsOf(newLabels, k - 1);
      TotalPixelsOfRegions(newLabels, k - 1);
      CountRangeSplit(newLabels, 1, k, k + 1);
    }
  }

  /** Sequences with zeros in the same places have the same number of zeros. */
  lemma {:induction false} SameZeros(a: seq<nat>, b: seq<nat>)
    requires |a| == |b| && forall p :: 0 <= p < |a| ==> (a[p] == 0 <==> b[p] == 0)
    ensures Count(a, 0) == Count(b, 0)
  {
    if |a| > 0 {
      SameZeros(a[..|a| - 1], b[..|b| - 1]);
    }
  }

  /** The reported pixel counts add up to the number of non-zero input pixels. */
  lemma RegionCountsTotal(labels: seq<nat>)
    ensures var r := RelabelledOf(labels);
            TotalPixels(RegionsOf(r, |UniquePositive(labels)|)) == |labels| - Count(labels, 0)
  {
    var r := RelabelledOf(labels);
    var k := |UniquePositive(labels)|;
    RelabelDense(labels);
    TotalPixelsOfRegions(r, k);
    CountRangeTotal(r, k + 1);
    SameZeros(r, labels);
  }

  /** Lines 99-110: each pixel's label replaced by its new id, in a fresh array. */
  method RenumberPixels(labels: seq<nat>, uniqueLabels: seq<nat>) returns (newLabels: array<nat>)
    requires uniqueLabels == UniquePositive(labels)
    ensures newLabels[..] == RelabelledOf(labels)
  {
    ghost var relabelled := RelabelledOf(labels);
    newLabels := new nat[|labels|](_ => 0);
    var p := 0;
    while p < |labels|
      invariant 0 <= p <= |labels|
      invariant forall q :: 0 <= q < p ==> newLabels[q] == relabelled[q]
    {
      newLabels[p] := NewId(uniqueLabels, labels[p]);
      p := p + 1;
    }
    assert newLabels[..] == relabelled;
  }

  /** Lines 112-118: one entry per new id 1, ..., k with its pixel count. */
  method CountRegions(newLabels: seq<nat>, k: nat) returns (regions: seq<RegionCount>)
    ensures regions == RegionsOf(newLabels, k)
  {
    regions := [];
    var newId := 1;
    while newId <= k
      invariant 1 <= newId <= k + 1
      invariant regions == RegionsOf(newLabels, newId - 1)
    {
      regions := regions + [RegionCount(newId, Count(newLabels, newId))];
      newId := newId + 1;
    }
  }

  /** The regions counted on the renumbered grid are numbered 1, 2, ..., none
      of them empty, and add up to the non-background pixels; the grid keeps
      the background and has no id above their number. */
  lemma RenumberedRegions(labels: seq<nat>, grid: seq<nat>, regions: seq<RegionCount>)
    requires grid == RelabelledOf(labels)
    requires regions == RegionsOf(grid, |UniquePositive(labels)|)
    ensures forall p :: 0 <= p < |labels| ==> (grid[p] == 0 <==> labels[p] == 0) && grid[p] <= |regions|
    ensures TotalPixels(regions) == |labels| - Count(labels, 0)
    ensures forall i :: 0 <= i < |regions| ==> regions[i].id == i + 1 && regions[i].pixelCount > 0
  {
    RelabelDense(labels);
    RegionCountsTotal(labels);
    RegionsNonEmpty(grid, regions, |UniquePositive(labels)|);
  }

  /** The regions of a grid that uses every id 1, ..., k are numbered 1, 2, ... and none is empty. */
  lemma RegionsNonEmpty(grid: seq<nat>, regions: seq<RegionCount>, k: nat)
    requires regions == RegionsOf(grid, k)
    requires forall i :: 1 <= i <= k ==> i in grid
    ensures forall i :: 0 <= i < |regions| ==> regions[i].id == i + 1 && regions[i].pixelCount > 0
  {
    forall i | 0 <= i < |regions| ensures regions[i].id == i + 1 && regions[i].pixelCount > 0 {
      assert regions[i] == RegionCount(i + 1, Count(grid, i + 1));
      assert i + 1 in grid;
    }
  }

  /** Lines 99-118: renumber the pixels, build the mask, list the regions. */
  method Relabel(labels: seq<nat>) returns (newLabels: array<nat>, mask: seq<Byte>, regions: seq<RegionCount>)
    ensures newLabels[..] == RelabelledOf(labels)
    ensures mask == MaskOf(newLabels[..])
    ensures regions == RegionsOf(newLabels[..], |UniquePositive(labels)|)
    ensures forall p :: 0 <= p < |labels| ==> (newLabels[p] == 0 <==> labels[p] == 0) && newLabels[p] <= |regions|
    ensures TotalPixels(regions) == |labels| - Count(labels, 0)
    ensures forall i :: 0 <= i < |regions| ==> regions[i].id == i + 1 && regions[i].pixelCount > 0
  {
    var uniqueLabels := UniquePositive(labels);
    newLabels := RenumberPixels(labels, uniqueLabels);
    mask := MaskOf(newLabels[..]);
    regions := CountRegions(newLabels[..], |uniqueLabels|);
    RenumberedRegions(labels, newLabels[..], regions);
  }

  /** Non-empty regions listed by `RegionsOf` are numbered 1, 2, ... and carry their counts. */
  lemma RegionsCounted(grid: seq<nat>, regions: seq<RegionCount>)
    requires regions == RegionsOf(grid, |regions|)
    requires forall i :: 0 <= i < |regions| ==> regions[i].pixelCount > 0
    ensures forall i :: 0 <= i < |regions| ==>
              regions[i].id == i + 1 && regions[i].pixelCount == Count(grid, i + 1) > 0
  {
    forall i | 0 <= i < |regions|
      ensures regions[i].id == i + 1 && regions[i].pixelCount == Count(grid, i + 1)
    {
      assert regions[i] == RegionCount(i + 1, Count(grid, i + 1));
    }
  }

  /** Merging kept the background of `labels` and renumbering that of the
      merged grid `m`, so the renumbered grid has the background of `labels`,
      and the non-background total of `m` is the one of `labels`. */
  lemma BackgroundKept(labels: seq<nat>, m: seq<nat>, grid: seq<nat>, k: nat, total: nat)
    requires |grid| == |m| == |labels|
    requires forall p :: 0 <= p < |m| ==> (m[p] == 0 <==> labels[p] == 0)
    requires forall p :: 0 <= p < |m| ==> (grid[p] == 0 <==> m[p] == 0) && grid[p] <= k
    requires total == |m| - Count(m, 0)
    ensures forall p :: 0 <= p < |labels| ==> (grid[p] == 0 <==> labels[p] == 0) && grid[p] <= k
    ensures total == |labels| - Count(labels, 0)
  {
    SameZeros(m, labels);
  }
}
