/** The completion overlay (frontend/src/components/CompletionCelebration.tsx):
    the whole-picture completion predicate and the `show` flag that it raises
    and that only the "back to the list" button lowers. */
module Celebration {
  import opened Types
  import Store
  import Palette
  import ProgressBar

  /** `currentPicture?.regions.length ?? 0`. */
  function TotalRegions(current: Option<Picture>): (n: nat)
    ensures current.None? ==> n == 0
  {
    if current.None? then 0 else |current.value.regions|
  }

  predicate IsComplete(current: Option<Picture>, filled: set<int>)
  {
    TotalRegions(current) > 0 && |filled| == TotalRegions(current)
  }

  /** Without an open picture nothing is complete. */
  lemma NoPictureNeverComplete(filled: set<int>)
    ensures !IsComplete(None, filled)
  {
  }

  /** A complete picture shows a full progress bar. */
  lemma CompleteShowsFullBar(current: Option<Picture>, filled: set<int>)
    requires IsComplete(current, filled)
    ensures ProgressBar.Percentage(current, |filled|) == Some(100)
  {
    ProgressBar.FullPercentage(current);
  }

  /** With unique ids, a picture has as many distinct ids as regions. */
  lemma {:induction false} RegionIdsCount(regions: seq<RegionInfo>)
    requires UniqueIds(regions)
    ensures |RegionIds(regions)| == |regions|
  {
    if |regions| > 0 {
      var rest := regions[1..];
      assert RegionIds(regions) == {regions[0].id} + RegionIds(rest) by {
        forall x | x in RegionIds(regions) ensures x in {regions[0].id} + RegionIds(rest) {
          var j :| 0 <= j < |regions| && regions[j].id == x;
          if j > 0 { assert rest[j - 1].id == x; }
        }
        forall x | x in RegionIds(rest) ensures x in RegionIds(regions) {
          var j :| 0 <= j < |rest| && rest[j].id == x;
          assert regions[j + 1].id == x;
        }
      }
      assert regions[0].id !in RegionIds(rest);
      RegionIdsCount(rest);
    }
  }

  /** When the filled set holds only region ids of a picture with unique ids,
      the picture is complete exactly when every region is filled, and then
      every colour has nothing remaining. */
  lemma CompleteIffAllFilled(pic: Picture, filled: set<int>)
    requires UniqueIds(pic.regions) && filled <= RegionIds(pic.regions)
    ensures IsComplete(Some(pic), filled) <==> |pic.regions| > 0 && filled == RegionIds(pic.regions)
    ensures IsComplete(Some(pic), filled) ==> forall c :: Palette.Remaining(Some(pic), filled, c) == 0
  {
    RegionIdsCount(pic.regions);
    if filled < RegionIds(pic.regions) {
      ProperSubsetSmaller(filled, RegionIds(pic.regions));
    }
    if IsComplete(Some(pic), filled) {
      forall c ensures Palette.Remaining(Some(pic), filled, c) == 0 {
        assert forall j :: 0 <= j < |pic.regions| ==> pic.regions[j].id in filled;
      }
    }
  }

  lemma ProperSubsetSmaller(a: set<int>, b: set<int>)
    requires a < b
    ensures |a| < |b|
  {
    var rest := b - a;
    assert b == a + rest;
    assert a * rest == {};
    assert rest != {};
  }

  /** The overlay's state. `seen` is the completion value the effect last ran
      with (None before the first render): the effect runs only when it changes. */
  class CelebrationView {
    var show: bool
    var seen: Option<bool>

    constructor ()
      ensures !show && seen.None?
    {
      show := false;
      seen := None;
    }

    /** A render: when the completion value differs from the last one the
        effect saw, the effect runs, raising `show` if the picture is complete.
        Nothing here lowers `show`. */
    method Render(store: Store.GameStore)
      modifies this
      ensures var complete := IsComplete(store.currentPicture, store.filledRegions);
              && seen == Some(complete)
              && show == (old(show) || (complete && old(seen) != Some(complete)))
    {
      var complete := IsComplete(store.currentPicture, store.filledRegions);
      if seen != Some(complete) {
        seen := Some(complete);
        if complete {
          show := true;
        }
      }
    }

    /** handleComplete: hide the overlay, close the picture and clear the
        filled set; the selected colour stays. */
    method HandleComplete(store: Store.GameStore)
      modifies this`show, store`currentPicture, store`filledRegions
      ensures !show && store.currentPicture.None? && store.filledRegions == {}
      ensures !IsComplete(store.currentPicture, store.filledRegions) && !Visible(store)
    {
      show := false;
      store.currentPicture := None;
      store.filledRegions := {};
    }

    /** The overlay is drawn only while `show` holds and a picture is open. */
    predicate Visible(store: Store.GameStore)
      reads this, store
    {
      show && store.currentPicture.Some?
    }
  }
}
