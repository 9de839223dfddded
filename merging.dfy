/** Small-region merging, `_merge_small_regions` (backend/image_processor.py):
    every region smaller than a threshold, smallest first, is relabelled to
    its largest positive neighbour within a 7 x 7 window. Region sizes are
    kept in `sizes`, indexed by label (a label missing from the source's
    dictionary has size 0, which is what every lookup there defaults to). */
module Merging {
  import opened LabelGrid

  /** `region_sizes.get(n, 0)`. */
  function SizeOf(sizes: seq<nat>, n: nat): nat
  {
    if n < |sizes| then sizes[n] else 0
  }

  function Sum(s: seq<nat>): nat
  {
    if |s| == 0 then 0 else Sum(s[..|s| - 1]) + s[|s| - 1]
  }

  /** Overwriting one entry changes the sum by the difference. */
  lemma {:induction false} SumUpdate(s: seq<nat>, i: int, v: nat)
    requires 0 <= i < |s|
    ensures Sum(s[i := v]) == Sum(s) - s[i] + v
  {
    var last := |s| - 1;
    if i == last {
      assert s[i := v][..last] == s[..last];
    } else {
      assert s[i := v][..last] == s[..last][i := v];
      SumUpdate(s[..last], i, v);
    }
  }

  /** Lines 127-131: the size of every label 1 .. numLabels - 1 (0 for label 0). */
  function InitialSizesOf(labels: seq<nat>, numLabels: nat): (sizes: seq<nat>)
    ensures |sizes| == numLabels
  {
    seq(numLabels, i requires 0 <= i < numLabels => if i == 0 then 0 else Count(labels, i))
  }

  lemma {:induction false} InitialSizesSum(labels: seq<nat>, k: nat)
    ensures Sum(InitialSizesOf(labels, k)) == CountRange(labels, 1, k)
  {
    if k > 0 {
      assert InitialSizesOf(labels, k)[..k - 1] == InitialSizesOf(labels, k - 1);
      InitialSizesSum(labels, k - 1);
      if k > 1 {
        CountRangeSplit(labels, 1, k - 1, k);
      }
    }
  }

  /** The recorded sizes add up to the number of non-zero pixels. */
  lemma InitialSizesTotal(labels: seq<nat>, numLabels: nat)
    requires forall p :: 0 <= p < |labels| ==> labels[p] < numLabels
    ensures Sum(InitialSizesOf(labels, numLabels)) == |labels| - Count(labels, 0)
  {
    InitialSizesSum(labels, numLabels);
    CountRangeTotal(labels, numLabels);
  }

  method InitialSizes(labels: seq<nat>, numLabels: nat) returns (sizes: array<nat>)
    ensures fresh(sizes)
    ensures sizes[..] == InitialSizesOf(labels, numLabels)
  {
    sizes := new nat[numLabels](_ => 0);
    var i := 1;
    while i < numLabels
      invariant 1 <= i || numLabels == 0
      invariant forall j :: 0 <= j < numLabels ==> sizes[j] == if 0 < j < i then Count(labels, j) else 0
    {
      var size := Count(labels, i);
      if size > 0 {
        sizes[i] := size;
      }
      i := i + 1;
    }
  }

  /** Lines 134-135 before sorting: the (label, size) pairs with 0 < size <
      minSize among labels below n, in ascending label order. */
  function SmallCandidates(sizes: seq<nat>, minSize: nat, n: nat): seq<(nat, nat)>
    requires n <= |sizes|
  {
    if n == 0 then []
    else
      var c := SmallCandidates(sizes, minSize, n - 1);
      if 0 < n - 1 && 0 < sizes[n - 1] < minSize then c + [(n - 1, sizes[n - 1])] else c
  }

  /** The candidates are exactly the small regions below n. */
  lemma {:induction false} SmallCandidatesMembers(sizes: seq<nat>, minSize: nat, n: nat)
    requires n <= |sizes|
    ensures forall e :: e in SmallCandidates(sizes, minSize, n) <==> 0 < e.0 < n && e.1 == sizes[e.0] && 0 < e.1 < minSize
  {
    if n > 0 {
      SmallCandidatesMembers(sizes, minSize, n - 1);
      var c := SmallCandidates(sizes, minSize, n - 1);
      var i := n - 1;
      if 0 < i && 0 < sizes[i] < minSize {
        assert forall e :: e in c + [(i, sizes[i])] <==> e in c || e == (i, sizes[i]);
      }
    }
  }

  predicate AscendingLabels(c: seq<(nat, nat)>)
  {
    forall a, b :: 0 <= a < b < |c| ==> c[a].0 < c[b].0
  }

  /** The candidates come in ascending label order. */
  lemma {:induction false} SmallCandidatesAscending(sizes: seq<nat>, minSize: nat, n: nat)
    requires n <= |sizes|
    ensures AscendingLabels(SmallCandidates(sizes, minSize, n))
  {
    if n > 0 {
      SmallCandidatesAscending(sizes, minSize, n - 1);
      SmallCandidatesMembers(sizes, minSize, n - 1);
      var c := SmallCandidates(sizes, minSize, n - 1);
      var i := n - 1;
      if 0 < i && 0 < sizes[i] < minSize {
        var r := c + [(i, sizes[i])];
        assert SmallCandidates(sizes, minSize, n) == r;
        forall a, b | 0 <= a < b < |r| ensures r[a].0 < r[b].0 {
          assert r[a] == c[a] && c[a] in c;
          if b < |c| {
            assert r[b] == c[b];
          } else {
            assert r[b] == (i, sizes[i]);
            assert 0 < c[a].0 < i;
          }
        }
      } else {
        assert SmallCandidates(sizes, minSize, n) == c;
      }
    }
  }

  /** a comes first: smaller size, or equal size and smaller label. */
  predicate Before(a: (nat, nat), b: (nat, nat))
  {
    a.1 < b.1 || (a.1 == b.1 && a.0 < b.0)
  }

  /** Ascending by size, and by label among equal sizes. */
  predicate SizeOrdered(s: seq<(nat, nat)>)
  {
    forall a, b :: 0 <= a < b < |s| ==> Before(s[a], s[b])
  }

  lemma SnocOrdered(s: seq<(nat, nat)>, x: (nat, nat))
    requires SizeOrdered(s) && forall e :: e in s ==> Before(e, x)
    ensures SizeOrdered(s + [x])
  {
    var r := s + [x];
    forall a, b | 0 <= a < b < |r| ensures Before(r[a], r[b]) {
      if b == |s| {
        assert r[a] in s;
      }
    }
  }

  /** One step of a stable insertion sort by size: x goes after every entry
      no larger than it. */
  function InsertBySize(s: seq<(nat, nat)>, x: (nat, nat)): seq<(nat, nat)>
  {
    if |s| == 0 then [x]
    else if s[|s| - 1].1 <= x.1 then s + [x]
    else InsertBySize(s[..|s| - 1], x) + [s[|s| - 1]]
  }

  /** Inserting adds exactly the one entry. */
  lemma {:induction false} InsertBySizePerm(s: seq<(nat, nat)>, x: (nat, nat))
    ensures multiset(InsertBySize(s, x)) == multiset(s) + multiset{x}
  {
    if |s| > 0 && x.1 < s[|s| - 1].1 {
      var init := s[..|s| - 1];
      var last := s[|s| - 1];
      assert s == init + [last];
      InsertBySizePerm(init, x);
      assert multiset(s) == multiset(init) + multiset{last};
    }
  }

  /** Inserting an entry whose label exceeds all others keeps the order. */
  lemma {:induction false} InsertBySizeOrdered(s: seq<(nat, nat)>, x: (nat, nat))
    requires SizeOrdered(s) && forall e :: e in s ==> e.0 < x.0
    ensures SizeOrdered(InsertBySize(s, x))
  {
    if |s| > 0 {
      var init := s[..|s| - 1];
      var last := s[|s| - 1];
      if last.1 <= x.1 {
        AppendAfterAll(s, x);
      } else {
        assert forall a, b :: 0 <= a < b < |init| ==> init[a] == s[a] && init[b] == s[b];
        assert forall e :: e in init ==> e in s;
        InsertBySizeOrdered(init, x);
        InsertBySizePerm(init, x);
        InsertBeforeLast(s, InsertBySize(init, x), x);
      }
    }
  }

  /** An entry no smaller than the last one, with a larger label than all, may follow them. */
  lemma AppendAfterAll(s: seq<(nat, nat)>, x: (nat, nat))
    requires |s| > 0 && SizeOrdered(s) && s[|s| - 1].1 <= x.1 && forall e :: e in s ==> e.0 < x.0
    ensures SizeOrdered(s + [x])
  {
    forall e | e in s ensures Before(e, x) {
      var a :| 0 <= a < |s| && s[a] == e;
      if a < |s| - 1 {
        assert Before(s[a], s[|s| - 1]);
      }
    }
    SnocOrdered(s, x);
  }

  /** The last entry of an ordered sequence may follow a rearrangement of the
      others plus an entry of smaller size. */
  lemma InsertBeforeLast(s: seq<(nat, nat)>, front: seq<(nat, nat)>, x: (nat, nat))
    requires |s| > 0 && SizeOrdered(s) && x.1 < s[|s| - 1].1
    requires SizeOrdered(front) && multiset(front) == multiset(s[..|s| - 1]) + multiset{x}
    ensures SizeOrdered(front + [s[|s| - 1]])
  {
    var last := s[|s| - 1];
    forall e | e in front ensures Before(e, last) {
      assert e in multiset(front);
      if e != x {
        var a :| 0 <= a < |s| - 1 && s[..|s| - 1][a] == e;
        assert Before(s[a], last);
      }
    }
    SnocOrdered(front, last);
  }

  /** `sorted(..., key=size)`, as repeated insertion. */
  function SortBySize(c: seq<(nat, nat)>): seq<(nat, nat)>
  {
    if |c| == 0 then [] else InsertBySize(SortBySize(c[..|c| - 1]), c[|c| - 1])
  }

  /** Python's sort is stable, so on input in ascending label order the
      result is ordered by size and then by label, and is a permutation. */
  lemma {:induction false} SortBySizeSpec(c: seq<(nat, nat)>)
    requires AscendingLabels(c)
    ensures SizeOrdered(SortBySize(c))
    ensures multiset(SortBySize(c)) == multiset(c)
  {
    if |c| > 0 {
      var init := c[..|c| - 1];
      var last := c[|c| - 1];
      assert forall a, b :: 0 <= a < b < |init| ==> init[a] == c[a] && init[b] == c[b];
      SortBySizeSpec(init);
      var sorted := SortBySize(init);
      assert c == init + [last];
      LabelsBelowLast(c, sorted);
      InsertBySizeOrdered(sorted, last);
      InsertBySizePerm(sorted, last);
    }
  }

  /** Every entry of a rearrangement of all but the last has a smaller label than the last. */
  lemma LabelsBelowLast(c: seq<(nat, nat)>, sorted: seq<(nat, nat)>)
    requires |c| > 0 && AscendingLabels(c)
    requires multiset(sorted) == multiset(c[..|c| - 1])
    ensures forall e :: e in sorted ==> e.0 < c[|c| - 1].0
  {
    forall e | e in sorted ensures e.0 < c[|c| - 1].0 {
      assert e in multiset(sorted);
      var a :| 0 <= a < |c| - 1 && c[..|c| - 1][a] == e;
    }
  }

  /** `small_regions`: fixed once, from the initial sizes. */
  function SmallRegions(sizes: seq<nat>, minSize: nat): (small: seq<(nat, nat)>)
    ensures SizeOrdered(small)
    ensures forall e :: e in small <==> 0 < e.0 < |sizes| && e.1 == sizes[e.0] && 0 < e.1 < minSize
  {
    var c := SmallCandidates(sizes, minSize, |sizes|);
    SmallCandidatesMembers(sizes, minSize, |sizes|);
    SmallCandidatesAscending(sizes, minSize, |sizes|);
    SortBySizeSpec(c);
    var small := SortBySize(c);
    assert forall e :: e in small <==> e in multiset(small);
    assert forall e :: e in c <==> e in multiset(c);
    small
  }

  /** The labels the 7 x 7 dilation of region `id` reaches outside it,
      without background: `labels[neighbor_mask]` filtered to > 0 and != id. */
  function NeighbourIds(labels: seq<nat>, width: nat, id: nat): (ids: set<nat>)
    ensures forall n :: n in ids ==> n > 0 && n != id && n in labels
  {
    set q | 0 <= q < |labels| && labels[q] > 0 && labels[q] != id
            && (exists p :: 0 <= p < |labels| && labels[p] == id && Near(width, p, q))
          :: labels[q]
  }

  /** The first maximum of `np.argmax` over the neighbour ids in ascending
      order: largest recorded size, smallest id among equals. */
  predicate IsBest(ids: set<nat>, sizes: seq<nat>, n: nat)
  {
    && n in ids
    && forall m :: m in ids ==> SizeOf(sizes, m) < SizeOf(sizes, n) || (SizeOf(sizes, m) == SizeOf(sizes, n) && n <= m)
  }

  /** The best neighbour is determined uniquely. */
  lemma BestUnique(ids: set<nat>, sizes: seq<nat>, a: nat, b: nat)
    requires IsBest(ids, sizes, a) && IsBest(ids, sizes, b)
    ensures a == b
  {
  }

  /** Lines 156-157: scan the neighbour ids upwards, keeping the first largest. */
  method BestNeighbour(ids: set<nat>, sizes: seq<nat>, bound: nat) returns (best: nat)
    requires ids != {} && forall n :: n in ids ==> n < bound
    ensures IsBest(ids, sizes, best)
  {
    var found := false;
    best := 0;
    var n := 0;
    while n < bound
      invariant 0 <= n <= bound
      invariant found <==> exists m :: m in ids && m < n
      invariant found ==> IsBest((set m | m in ids && m < n), sizes, best)
    {
      if n in ids && (!found || SizeOf(sizes, n) > SizeOf(sizes, best)) {
        best := n;
        found := true;
      }
      n := n + 1;
    }
    assert (set m | m in ids && m < bound) == ids;
  }

  /** `labels[labels == from] = to`. */
  function Replaced(labels: seq<nat>, from: nat, to: nat): (r: seq<nat>)
    ensures |r| == |labels|
  {
    seq(|labels|, p requires 0 <= p < |labels| => if labels[p] == from then to else labels[p])
  }

  /** Lines 140-162 for one entry of the small list, as a relation between
      the label grid and sizes before and after: a region already merged away
      (recorded size 0) or without a positive neighbour is skipped; otherwise
      it is relabelled to its best neighbour and its size moves there. */
  ghost predicate MergeStep(labels: seq<nat>, sizes: seq<nat>, width: nat, smallId: nat,
                            labels': seq<nat>, sizes': seq<nat>)
    requires smallId < |sizes|
  {
    var ids := NeighbourIds(labels, width, smallId);
    if sizes[smallId] == 0 || ids == {} then labels' == labels && sizes' == sizes
    else exists best: nat :: best < |sizes| && IsBest(ids, sizes, best)
           && MergedInto(labels, sizes, smallId, best, labels', sizes')
  }

  /** Region `smallId` relabelled to `best`, its recorded size moved there. */
  predicate MergedInto(labels: seq<nat>, sizes: seq<nat>, smallId: nat, best: nat, labels': seq<nat>, sizes': seq<nat>)
    requires smallId < |sizes| && best < |sizes|
  {
    && labels' == Replaced(labels, smallId, best)
    && sizes' == sizes[best := sizes[best] + sizes[smallId]][smallId := 0]
  }

  /** One merge step keeps every label below the size table's length, keeps
      the total of the recorded sizes, and changes a pixel only from the small
      id to a positive, different id. */
  lemma MergeStepFacts(labels: seq<nat>, sizes: seq<nat>, width: nat, smallId: nat,
                       labels': seq<nat>, sizes': seq<nat>)
    requires 0 < smallId < |sizes| && forall p :: 0 <= p < |labels| ==> labels[p] < |sizes|
    requires MergeStep(labels, sizes, width, smallId, labels', sizes')
    ensures |labels'| == |labels| && |sizes'| == |sizes|
    ensures forall p :: 0 <= p < |labels'| ==> labels'[p] < |sizes'|
    ensures Sum(sizes') == Sum(sizes)
    ensures forall p :: 0 <= p < |labels| ==>
              labels'[p] == labels[p] || (labels[p] == smallId && labels'[p] != 0 && labels'[p] != smallId)
  {
    var ids := NeighbourIds(labels, width, smallId);
    if sizes[smallId] != 0 && ids != {} {
      var best: nat :| best < |sizes| && IsBest(ids, sizes, best) && MergedInto(labels, sizes, smallId, best, labels', sizes');
      ReplacedFacts(labels, smallId, best, |sizes|);
      MovedSum(sizes, smallId, best);
    }
  }

  /** Relabelling `from` to a positive, different `to` below `bound` keeps the
      labels below `bound` and changes only `from` pixels. */
  lemma ReplacedFacts(labels: seq<nat>, from: nat, to: nat, bound: nat)
    requires 0 < to < bound && to != from && forall p :: 0 <= p < |labels| ==> labels[p] < bound
    ensures var r := Replaced(labels, from, to);
            && (forall p :: 0 <= p < |r| ==> r[p] < bound)
            && (forall p :: 0 <= p < |labels| ==> r[p] == labels[p] || (labels[p] == from && r[p] != 0 && r[p] != from))
  {
  }

  /** Moving one recorded size onto another keeps the total. */
  lemma MovedSum(sizes: seq<nat>, from: nat, to: nat)
    requires from < |sizes| && to < |sizes| && from != to
    ensures Sum(sizes[to := sizes[to] + sizes[from]][from := 0]) == Sum(sizes)
  {
    SumUpdate(sizes, to, sizes[to] + sizes[from]);
    SumUpdate(sizes[to := sizes[to] + sizes[from]], from, 0);
  }

  /** Lines 140-162 for one entry of the small list, in place. */
  method MergeRegion(labels: array<nat>, sizes: array<nat>, width: nat, smallId: nat)
    requires labels != sizes && 0 < smallId < sizes.Length
    requires forall p :: 0 <= p < labels.Length ==> labels[p] < sizes.Length
    modifies labels, sizes
    ensures MergeStep(old(labels[..]), old(sizes[..]), width, smallId, labels[..], sizes[..])
  {
    if sizes[smallId] == 0 {
      return;
    }
    var ids := NeighbourIds(labels[..], width, smallId);
    if ids == {} {
      return;
    }
    ghost var oldLabels := labels[..];
    ghost var oldSizes := sizes[..];
    var best := BestNeighbour(ids, sizes[..], sizes.Length);
    ReplaceLabel(labels, smallId, best);
    MoveSize(sizes, smallId, best);
    assert best < |oldSizes| && IsBest(ids, oldSizes, best)
           && MergedInto(oldLabels, oldSizes, smallId, best, labels[..], sizes[..]);
  }

  /** `labels[labels == from] = to`, in place. */
  method ReplaceLabel(labels: array<nat>, from: nat, to: nat)
    modifies labels
    ensures labels[..] == Replaced(old(labels[..]), from, to)
  {
    var p := 0;
    while p < labels.Length
      invariant 0 <= p <= labels.Length
      invariant forall q :: 0 <= q < p ==> labels[q] == if old(labels[q]) == from then to else old(labels[q])
      invariant forall q :: p <= q < labels.Length ==> labels[q] == old(labels[q])
    {
      if labels[p] == from {
        labels[p] := to;
      }
      p := p + 1;
    }
  }

  /** Lines 161-162: the small region's recorded size moves to its neighbour. */
  method MoveSize(sizes: array<nat>, from: nat, to: nat)
    requires from < sizes.Length && to < sizes.Length && from != to
    modifies sizes
    ensures sizes[..] == old(sizes[..])[to := old(sizes[to]) + old(sizes[from])][from := 0]
  {
    var merged := sizes[to] + sizes[from];
    sizes[to] := merged;
    sizes[from] := 0;
  }

  /** What a merge may do to one pixel: background stays background, and any
      other change replaces the small id by a positive, different id that the
      small region's 7 x 7 window reaches. */
  lemma MergeChangesOnlySmallRegion(labels: seq<nat>, width: nat, smallId: nat, best: nat, p: int)
    requires 0 < smallId && best in NeighbourIds(labels, width, smallId)
    requires 0 <= p < |labels|
    ensures var r := Replaced(labels, smallId, best);
            && (labels[p] == 0 ==> r[p] == 0)
            && (r[p] != labels[p] ==> labels[p] == smallId && r[p] > 0 && r[p] != smallId
                                      && exists q, s :: 0 <= q < |labels| && 0 <= s < |labels| && labels[q] == r[p]
                                                        && labels[s] == smallId && Near(width, s, q))
  {
    var r := Replaced(labels, smallId, best);
    if r[p] != labels[p] {
      var ids := NeighbourIds(labels, width, smallId);
      assert best in ids;
      var q :| 0 <= q < |labels| && labels[q] > 0 && labels[q] != smallId
               && (exists s :: 0 <= s < |labels| && labels[s] == smallId && Near(width, s, q))
               && labels[q] == best;
    }
  }

  /** What merging has done so far to the original grid: same length, labels
      below numLabels, background unchanged both ways, and every changed pixel
      started in a region whose initial size was below minSize. */
  ghost predicate MergedSoFar(labels: seq<nat>, merged: seq<nat>, initial: seq<nat>, minSize: nat)
  {
    && |merged| == |labels|
    && (forall p :: 0 <= p < |labels| ==> labels[p] < |initial| && merged[p] < |initial|)
    && (forall p :: 0 <= p < |labels| ==> (merged[p] == 0 <==> labels[p] == 0))
    && (forall p :: 0 <= p < |labels| && merged[p] != labels[p] ==> 0 < initial[labels[p]] < minSize)
  }

  /** Merging a region whose initial size is below minSize keeps MergedSoFar. */
  lemma MergeStepKeeps(labels: seq<nat>, initial: seq<nat>, minSize: nat, width: nat, smallId: nat,
                       before: seq<nat>, sizes: seq<nat>, after: seq<nat>, sizes': seq<nat>)
    requires MergedSoFar(labels, before, initial, minSize) && |sizes| == |initial|
    requires 0 < smallId < |sizes| && 0 < initial[smallId] < minSize
    requires MergeStep(before, sizes, width, smallId, after, sizes')
    ensures MergedSoFar(labels, after, initial, minSize) && |sizes'| == |sizes|
  {
    MergeStepFacts(before, sizes, width, smallId, after, sizes');
    forall p | 0 <= p < |labels| && after[p] != labels[p]
      ensures 0 < initial[labels[p]] < minSize
    {
      if before[p] == labels[p] {
        assert labels[p] == smallId;
      }
    }
  }

  /** Against the initial sizes, a changed pixel started in a region of fewer
      than minSize pixels. */
  lemma MergedSoFarCounts(labels: seq<nat>, merged: seq<nat>, numLabels: nat, minSize: nat)
    requires MergedSoFar(labels, merged, InitialSizesOf(labels, numLabels), minSize)
    ensures forall p :: 0 <= p < |labels| ==> merged[p] < numLabels
    ensures forall p :: 0 <= p < |labels| && merged[p] != labels[p] ==> 0 < Count(labels, labels[p]) < minSize
  {
    var initial := InitialSizesOf(labels, numLabels);
    forall p | 0 <= p < |labels| && merged[p] != labels[p]
      ensures 0 < Count(labels, labels[p]) < minSize
    {
      assert initial[labels[p]] == Count(labels, labels[p]);
    }
  }

  /** Lines 139-162 as a whole: the merge steps for the entries of `small`,
      in order, starting from the grid `labels` and the sizes `sizes`. */
  ghost predicate MergesAll(labels: seq<nat>, sizes: seq<nat>, width: nat, small: seq<(nat, nat)>,
                            labels': seq<nat>, sizes': seq<nat>)
    decreases |small|
  {
    if |small| == 0 then labels' == labels && sizes' == sizes
    else
      var smallId := small[|small| - 1].0;
      exists midLabels: seq<nat>, midSizes: seq<nat> ::
        && MergesAll(labels, sizes, width, small[..|small| - 1], midLabels, midSizes)
        && smallId < |midSizes|
        && MergeStep(midLabels, midSizes, width, smallId, labels', sizes')
  }

  /** The grid `_merge_small_regions` returns: the merge steps over the small
      list taken from the initial sizes. */
  ghost predicate Merged(labels: seq<nat>, width: nat, numLabels: nat, minSize: nat, merged: seq<nat>)
  {
    var initial := InitialSizesOf(labels, numLabels);
    exists sizes': seq<nat> :: MergesAll(labels, initial, width, SmallRegions(initial, minSize), merged, sizes')
  }

  /** A merge step has exactly one outcome. */
  lemma MergeStepUnique(labels: seq<nat>, sizes: seq<nat>, width: nat, smallId: nat,
                        a: seq<nat>, b: seq<nat>, a': seq<nat>, b': seq<nat>)
    requires smallId < |sizes|
    requires MergeStep(labels, sizes, width, smallId, a, b) && MergeStep(labels, sizes, width, smallId, a', b')
    ensures a == a' && b == b'
  {
    var ids := NeighbourIds(labels, width, smallId);
    if sizes[smallId] != 0 && ids != {} {
      var best: nat :| best < |sizes| && IsBest(ids, sizes, best) && MergedInto(labels, sizes, smallId, best, a, b);
      var best': nat :| best' < |sizes| && IsBest(ids, sizes, best') && MergedInto(labels, sizes, smallId, best', a', b');
      BestUnique(ids, sizes, best, best');
    }
  }

  /** The merge steps over a list have exactly one outcome. */
  lemma {:induction false} MergesAllUnique(labels: seq<nat>, sizes: seq<nat>, width: nat, small: seq<(nat, nat)>,
                                           a: seq<nat>, b: seq<nat>, a': seq<nat>, b': seq<nat>)
    requires MergesAll(labels, sizes, width, small, a, b) && MergesAll(labels, sizes, width, small, a', b')
    ensures a == a' && b == b'
    decreases |small|
  {
    if |small| > 0 {
      var smallId := small[|small| - 1].0;
      var init := small[..|small| - 1];
      var midLabels, midSizes :| MergesAll(labels, sizes, width, init, midLabels, midSizes)
                                 && smallId < |midSizes| && MergeStep(midLabels, midSizes, width, smallId, a, b);
      var midLabels', midSizes' :| MergesAll(labels, sizes, width, init, midLabels', midSizes')
                                   && smallId < |midSizes'| && MergeStep(midLabels', midSizes', width, smallId, a', b');
      MergesAllUnique(labels, sizes, width, init, midLabels, midSizes, midLabels', midSizes');
      MergeStepUnique(midLabels, midSizes, width, smallId, a, b, a', b');
    }
  }

  /** One more merge step extends the pass by one entry of the list. */
  lemma MergesAllSnoc(labels: seq<nat>, sizes: seq<nat>, width: nat, small: seq<(nat, nat)>, i: int,
                      before: seq<nat>, sizesBefore: seq<nat>, after: seq<nat>, sizesAfter: seq<nat>)
    requires 0 <= i < |small| && small[i].0 < |sizesBefore|
    requires MergesAll(labels, sizes, width, small[..i], before, sizesBefore)
    requires MergeStep(before, sizesBefore, width, small[i].0, after, sizesAfter)
    ensures MergesAll(labels, sizes, width, small[..i + 1], after, sizesAfter)
  {
    assert small[..i + 1][..i] == small[..i] && small[..i + 1][i] == small[i];
  }

  /** The merged grid is determined by the input grid and the threshold. */
  lemma MergedUnique(labels: seq<nat>, width: nat, numLabels: nat, minSize: nat, m: seq<nat>, m': seq<nat>)
    requires Merged(labels, width, numLabels, minSize, m) && Merged(labels, width, numLabels, minSize, m')
    ensures m == m'
  {
    var initial := InitialSizesOf(labels, numLabels);
    var small := SmallRegions(initial, minSize);
    var s :| MergesAll(labels, initial, width, small, m, s);
    var s' :| MergesAll(labels, initial, width, small, m', s');
    MergesAllUnique(labels, initial, width, small, m, s, m', s');
  }

  /** Over the whole pass the recorded sizes keep their total and their
      length, and every label stays below the length. */
  lemma {:induction false} MergesAllSum(labels: seq<nat>, sizes: seq<nat>, width: nat, small: seq<(nat, nat)>,
                                        labels': seq<nat>, sizes': seq<nat>)
    requires forall p :: 0 <= p < |labels| ==> labels[p] < |sizes|
    requires forall e :: e in small ==> 0 < e.0
    requires MergesAll(labels, sizes, width, small, labels', sizes')
    ensures |labels'| == |labels| && |sizes'| == |sizes| && Sum(sizes') == Sum(sizes)
    ensures forall p :: 0 <= p < |labels'| ==> labels'[p] < |sizes'|
    decreases |small|
  {
    if |small| > 0 {
      var smallId := small[|small| - 1].0;
      var init := small[..|small| - 1];
      var midLabels, midSizes :| MergesAll(labels, sizes, width, init, midLabels, midSizes)
                                 && smallId < |midSizes| && MergeStep(midLabels, midSizes, width, smallId, labels', sizes');
      assert forall e :: e in init ==> e in small;
      assert small[|small| - 1] in small;
      MergesAllSum(labels, sizes, width, init, midLabels, midSizes);
      MergeStepFacts(midLabels, midSizes, width, smallId, labels', sizes');
    }
  }

  /** The merged grid has as many non-background pixels as the input, all
      with labels below numLabels. */
  lemma MergedTotal(labels: seq<nat>, width: nat, numLabels: nat, minSize: nat, m: seq<nat>)
    requires forall p :: 0 <= p < |labels| ==> labels[p] < numLabels
    requires Merged(labels, width, numLabels, minSize, m)
    ensures |m| == |labels| && forall p :: 0 <= p < |m| ==> m[p] < numLabels
    ensures Sum(InitialSizesOf(labels, numLabels)) == |labels| - Count(labels, 0)
  {
    var initial := InitialSizesOf(labels, numLabels);
    var small := SmallRegions(initial, minSize);
    var s :| MergesAll(labels, initial, width, small, m, s);
    MergesAllSum(labels, initial, width, small, m, s);
    InitialSizesTotal(labels, numLabels);
  }

  /** Lines 122-164 with the threshold `minSize`. */
  method MergeSmallRegions(labels: seq<nat>, width: nat, numLabels: nat, minSize: nat) returns (merged: array<nat>)
    requires forall p :: 0 <= p < |labels| ==> labels[p] < numLabels
    ensures Merged(labels, width, numLabels, minSize, merged[..])
    ensures merged.Length == |labels|
    ensures forall p :: 0 <= p < |labels| ==> merged[p] < numLabels
    ensures forall p :: 0 <= p < |labels| ==> (merged[p] == 0 <==> labels[p] == 0)
    ensures forall p :: 0 <= p < |labels| && merged[p] != labels[p] ==> 0 < Count(labels, labels[p]) < minSize
  {
    merged := new nat[|labels|](p requires 0 <= p < |labels| => labels[p]);
    var sizes := InitialSizes(labels, numLabels);
    var small := SmallRegions(sizes[..], minSize);
    ghost var initial := sizes[..];
    assert merged[..] == labels;
    assert small[..0] == [];
    var i := 0;
    while i < |small|
      invariant 0 <= i <= |small| && sizes.Length == numLabels && merged != sizes
      invariant MergedSoFar(labels, merged[..], initial, minSize)
      invariant MergesAll(labels, initial, width, small[..i], merged[..], sizes[..])
    {
      var smallId := small[i].0;
      assert small[i] in small;
      ghost var before := merged[..];
      ghost var sizesBefore := sizes[..];
      MergeRegion(merged, sizes, width, smallId);
      MergeStepKeeps(labels, initial, minSize, width, smallId, before, sizesBefore, merged[..], sizes[..]);
      MergesAllSnoc(labels, initial, width, small, i, before, sizesBefore, merged[..], sizes[..]);
      i := i + 1;
    }
    assert small[..i] == small;
    MergedSoFarCounts(labels, merged[..], numLabels, minSize);
  }
}
