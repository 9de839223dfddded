/** `_segment_regions` (backend/image_processor.py, lines 92-120) after
    connected-component labelling: the small regions are merged into
    their neighbours, then the result is renumbered. */
module Segmentation {
  import opened Types
  import opened LabelGrid
  import opened Renumbering
  import Merging

  /** The default `min_region_size` of `_segment_regions`. */
  const MinRegionSize: nat := 100

  /** The grid `_segment_regions` numbers its regions on: the merged
      component grid, renumbered. */
  ghost predicate Segmented(labels: seq<nat>, width: nat, numLabels: nat, grid: seq<nat>)
  {
    exists merged: seq<nat> :: Merging.Merged(labels, width, numLabels, MinRegionSize, merged) && grid == RelabelledOf(merged)
  }

  /** The segmentation of a component grid is determined by it. */
  lemma SegmentedUnique(labels: seq<nat>, width: nat, numLabels: nat, grid: seq<nat>, grid': seq<nat>)
    requires Segmented(labels, width, numLabels, grid) && Segmented(labels, width, numLabels, grid')
    ensures grid == grid'
  {
    var m :| Merging.Merged(labels, width, numLabels, MinRegionSize, m) && grid == RelabelledOf(m);
    var m' :| Merging.Merged(labels, width, numLabels, MinRegionSize, m') && grid' == RelabelledOf(m');
    Merging.MergedUnique(labels, width, numLabels, MinRegionSize, m, m');
  }

  /** A renumbered grid with the same background as `labels` (by way of the
      merged grid `m`) keeps that background and the non-background total
      `total`, and its listed regions carry their counts. */
  lemma RenumberedFacts(labels: seq<nat>, m: seq<nat>, grid: seq<nat>, regions: seq<RegionCount>, total: nat)
    requires |grid| == |m| == |labels|
    requires forall p :: 0 <= p < |m| ==> (m[p] == 0 <==> labels[p] == 0)
    requires forall p :: 0 <= p < |m| ==> (grid[p] == 0 <==> m[p] == 0) && grid[p] <= |regions|
    requires regions == RegionsOf(grid, |regions|)
    requires total == |m| - Count(m, 0)
    requires forall i :: 0 <= i < |regions| ==> regions[i].pixelCount > 0
    ensures forall p :: 0 <= p < |labels| ==> (grid[p] == 0 <==> labels[p] == 0) && grid[p] <= |regions|
    ensures total == |labels| - Count(labels, 0)
    ensures forall i :: 0 <= i < |regions| ==>
              regions[i].id == i + 1 && regions[i].pixelCount == Count(grid, i + 1) > 0
  {
    RegionsCounted(grid, regions);
    BackgroundKept(labels, m, grid, |regions|, total);
  }

  /** Lines 92-120 after connected-component labelling: merge the small
      regions, then renumber. The grid is the renumbered merge result, the
      mask its ids modulo 256, and the regions list its ids 1, 2, ..., k in
      order with their pixel counts: every one non-empty, no pixel above k,
      and together exactly the non-background pixels of the component grid. */
  method SegmentRegions(labels: seq<nat>, width: nat, numLabels: nat)
      returns (grid: seq<nat>, mask: seq<Byte>, regions: seq<RegionCount>)
    requires forall p :: 0 <= p < |labels| ==> labels[p] < numLabels
    ensures Segmented(labels, width, numLabels, grid)
    ensures |grid| == |labels| && mask == MaskOf(grid)
    ensures regions == RegionsOf(grid, |regions|)
    ensures forall p :: 0 <= p < |labels| ==> (grid[p] == 0 <==> labels[p] == 0) && grid[p] <= |regions|
    ensures TotalPixels(regions) == |labels| - Count(labels, 0)
    ensures forall i :: 0 <= i < |regions| ==>
              regions[i].id == i + 1 && regions[i].pixelCount == Count(grid, i + 1) > 0
  {
    var merged := Merging.MergeSmallRegions(labels, width, numLabels, MinRegionSize);
    var m := merged[..];
    var newLabels;
    newLabels, mask, regions := Relabel(m);
    grid := newLabels[..];
    RenumberedFacts(labels, m, grid, regions, TotalPixels(regions));
  }
}
