/** The palette panel (frontend/src/components/Palette.tsx): how many regions
    of each colour are still unfilled, which colours are complete, and which
    palette entries are still shown. */
module Palette {
  import opened Types
  import Store

  /** The number of regions of colour c. */
  function ColourCount(regions: seq<RegionInfo>, c: int): (n: nat)
    ensures n <= |regions|
  {
    if |regions| == 0 then 0
    else (if regions[0].colorIndex == c then 1 else 0) + ColourCount(regions[1..], c)
  }

  /** `regions.filter(r => r.colorIndex === c && !filled.has(r.id)).length`. */
  function UnfilledCount(regions: seq<RegionInfo>, filled: set<int>, c: int): (n: nat)
    ensures n <= ColourCount(regions, c)
    ensures n == 0 <==> forall j :: 0 <= j < |regions| && regions[j].colorIndex == c ==> regions[j].id in filled
  {
    if |regions| == 0 then 0
    else
      var rest := UnfilledCount(regions[1..], filled, c);
      assert forall j :: 1 <= j < |regions| ==> regions[j] == regions[1..][j - 1];
      (if regions[0].colorIndex == c && regions[0].id !in filled then 1 else 0) + rest
  }

  /** getRegionCountForColor: the unfilled regions of colour c, 0 without a picture. */
  function Remaining(current: Option<Picture>, filled: set<int>, c: int): (n: nat)
    ensures current.None? ==> n == 0
    ensures current.Some? ==> n <= ColourCount(current.value.regions, c)
    ensures current.Some? ==>
              (n == 0 <==> forall j :: 0 <= j < |current.value.regions| && current.value.regions[j].colorIndex == c
                                       ==> current.value.regions[j].id in filled)
  {
    if current.None? then 0 else UnfilledCount(current.value.regions, filled, c)
  }

  /** A colour no region uses is complete whatever is filled. */
  lemma UnusedColourComplete(current: Option<Picture>, filled: set<int>, c: int)
    requires current.Some? ==> forall j :: 0 <= j < |current.value.regions| ==> current.value.regions[j].colorIndex != c
    ensures Remaining(current, filled, c) == 0
  {
  }

  /** Filling region j (ids unique, not yet filled) lowers the count of its
      colour by exactly one and leaves every other colour's count alone. */
  lemma {:induction false} FillOneRegion(regions: seq<RegionInfo>, filled: set<int>, j: int, c: int)
    requires UniqueIds(regions) && 0 <= j < |regions| && regions[j].id !in filled
    ensures UnfilledCount(regions, filled + {regions[j].id}, c)
         == UnfilledCount(regions, filled, c) - (if regions[j].colorIndex == c then 1 else 0)
  {
    var id := regions[j].id;
    if j == 0 {
      FillOther(regions[1..], filled, id, c);
    } else {
      assert regions[0].id != id;
      assert regions[1..][j - 1] == regions[j];
      FillOneRegion(regions[1..], filled, j - 1, c);
    }
  }

  /** Adding an id no region carries changes no count. */
  lemma {:induction false} FillOther(regions: seq<RegionInfo>, filled: set<int>, id: int, c: int)
    requires id !in RegionIds(regions)
    ensures UnfilledCount(regions, filled + {id}, c) == UnfilledCount(regions, filled, c)
  {
    if |regions| > 0 {
      assert regions[0].id != id;
      assert RegionIds(regions[1..]) <= RegionIds(regions) by {
        forall x | x in RegionIds(regions[1..]) ensures x in RegionIds(regions) {
          var k :| 0 <= k < |regions[1..]| && regions[1..][k].id == x;
          assert regions[k + 1].id == x;
        }
      }
      FillOther(regions[1..], filled, id, c);
    }
  }

  /** An accepted fill of a new id lowers the selected colour's remaining
      count by one and no other colour's. */
  lemma AcceptedFillCounts(current: Option<Picture>, selected: Option<int>, filled: set<int>, regionId: int, c: int)
    requires Store.FillAccepted(current, selected, regionId) && UniqueIds(current.value.regions)
    requires regionId !in filled
    ensures Remaining(current, Store.AfterFill(filled, current, selected, regionId), c)
         == Remaining(current, filled, c) - (if c == selected.value then 1 else 0)
  {
    var regions := current.value.regions;
    var j :| 0 <= j < |regions| && regions[j].id == regionId;
    FindRegionUnique(regions, j);
    FillOneRegion(regions, filled, j, c);
  }

  /** The completed-colour set the effect computes: the indices of palette
      entries with nothing remaining. */
  function CompletedOf(current: Option<Picture>, filled: set<int>, palette: seq<PaletteColor>): (s: set<int>)
    ensures forall i :: i in s <==> exists k :: 0 <= k < |palette| && palette[k].index == i && Remaining(current, filled, i) == 0
  {
    var s := set k | 0 <= k < |palette| && Remaining(current, filled, palette[k].index) == 0 :: palette[k].index;
    assert forall i :: i in s ==> exists k :: 0 <= k < |palette| && palette[k].index == i && Remaining(current, filled, i) == 0;
    s
  }

  /** `palette.filter(c => !completed.has(c.index))`. */
  function IncompleteColors(palette: seq<PaletteColor>, completed: set<int>): (out: seq<PaletteColor>)
    ensures |out| <= |palette|
    ensures forall c :: c in out <==> c in palette && c.index !in completed
  {
    if |palette| == 0 then []
    else
      var rest := IncompleteColors(palette[1..], completed);
      assert forall c :: c in palette <==> c == palette[0] || c in palette[1..];
      if palette[0].index in completed then rest else [palette[0]] + rest
  }

  /** The filter keeps the palette's order: it distributes over concatenation. */
  lemma {:induction false} IncompleteColorsKeepsOrder(a: seq<PaletteColor>, b: seq<PaletteColor>, completed: set<int>)
    ensures IncompleteColors(a + b, completed) == IncompleteColors(a, completed) + IncompleteColors(b, completed)
  {
    if |a| > 0 {
      var ab := a + b;
      assert ab[0] == a[0] && ab[1..] == a[1..] + b;
      IncompleteColorsKeepsOrder(a[1..], b, completed);
      var restA := IncompleteColors(a[1..], completed);
      var restB := IncompleteColors(b, completed);
      if a[0].index in completed {
        assert IncompleteColors(ab, completed) == restA + restB;
        assert IncompleteColors(a, completed) == restA;
      } else {
        assert IncompleteColors(ab, completed) == [a[0]] + (restA + restB);
        assert IncompleteColors(a, completed) == [a[0]] + restA;
      }
    } else {
      assert a + b == b;
    }
  }

  /** The "all colours complete" message shows exactly when every palette
      colour of the open picture has all its regions filled. */
  lemma AllColoursDone(pic: Picture, filled: set<int>)
    ensures var shown := IncompleteColors(pic.palette, CompletedOf(Some(pic), filled, pic.palette));
            |shown| == 0 <==> forall k :: 0 <= k < |pic.palette| ==> Remaining(Some(pic), filled, pic.palette[k].index) == 0
  {
    var completed := CompletedOf(Some(pic), filled, pic.palette);
    var shown := IncompleteColors(pic.palette, completed);
    if |shown| == 0 {
      forall k | 0 <= k < |pic.palette| ensures Remaining(Some(pic), filled, pic.palette[k].index) == 0 {
        assert pic.palette[k] in pic.palette;
        assert pic.palette[k] !in shown;
      }
    } else {
      assert shown[0] in shown;
      var k :| 0 <= k < |pic.palette| && pic.palette[k] == shown[0];
      assert pic.palette[k].index !in completed;
    }
  }

  /** The panel's state: the completed-colour set kept by the component. */
  class PaletteView {
    var completedColors: set<int>

    constructor ()
      ensures completedColors == {}
    {
      completedColors := {};
    }

    /** The effect run when the open picture or the filled set changes:
        without a picture it keeps the old set; otherwise it rebuilds the set
        one palette entry at a time. */
    method Refresh(current: Option<Picture>, filled: set<int>)
      modifies this
      ensures current.None? ==> completedColors == old(completedColors)
      ensures current.Some? ==> completedColors == CompletedOf(current, filled, current.value.palette)
    {
      if current.None? {
        return;
      }
      var palette := current.value.palette;
      var newCompleted: set<int> := {};
      var k := 0;
      while k < |palette|
        invariant 0 <= k <= |palette|
        invariant newCompleted == CompletedOf(current, filled, palette[..k])
      {
        assert palette[..k + 1] == palette[..k] + [palette[k]];
        if Remaining(current, filled, palette[k].index) == 0 {
          newCompleted := newCompleted + {palette[k].index};
        }
        k := k + 1;
      }
      assert palette[..k] == palette;
      completedColors := newCompleted;
    }

    /** The palette entries the panel shows, in palette order. */
    function Shown(current: Option<Picture>): (out: seq<PaletteColor>)
      reads this
      requires current.Some?
      ensures forall c :: c in out <==> c in current.value.palette && c.index !in completedColors
    {
      IncompleteColors(current.value.palette, completedColors)
    }
  }
}
