/** The game store (frontend/src/store.ts): the picture list, the open
    picture, the selected colour and the filled-region set, with the fill
    protocol. The picture store behind it (persistence) is outside the model:
    what it returns arrives as parameters, and every saveProgress call it
    receives is recorded in `saved`. */
module Store {
  import opened Types

  /** One call of the picture store's saveProgress: the picture id and the filled ids. */
  datatype SaveRecord = SaveRecord(pictureId: string, filled: set<int>)

  /** `pictures.find(p => p.id === id)`: the first picture with that id. */
  function FindPicture(pictures: seq<Picture>, id: string): (r: Option<Picture>)
    ensures r.Some? <==> exists j :: 0 <= j < |pictures| && pictures[j].id == id
    ensures r.Some? ==> exists j :: 0 <= j < |pictures| && pictures[j] == r.value && r.value.id == id
                                 && forall i :: 0 <= i < j ==> pictures[i].id != id
  {
    if |pictures| == 0 then None
    else if pictures[0].id == id then Some(pictures[0])
    else
      var r := FindPicture(pictures[1..], id);
      if r.Some? then
        var j :| 0 <= j < |pictures[1..]| && pictures[1..][j] == r.value && r.value.id == id
                 && forall i :: 0 <= i < j ==> pictures[1..][i].id != id;
        assert pictures[j + 1] == r.value;
        r
      else
        assert forall j :: 1 <= j < |pictures| ==> pictures[j] == pictures[1..][j - 1];
        r
  }

  /** The guard of fillRegion: a picture is open, a colour is selected, and
      the first region with that id has the selected colour. */
  predicate FillAccepted(current: Option<Picture>, selected: Option<int>, regionId: int)
  {
    && current.Some?
    && selected.Some?
    && var region := FindRegion(current.value.regions, regionId);
       region.Some? && region.value.colorIndex == selected.value
  }

  /** The filled set after a fillRegion call. */
  function AfterFill(filled: set<int>, current: Option<Picture>, selected: Option<int>, regionId: int): (r: set<int>)
    ensures filled <= r && r - filled <= {regionId}
    ensures regionId in r <==> regionId in filled || FillAccepted(current, selected, regionId)
    ensures r != filled ==> current.Some? && regionId in RegionIds(current.value.regions)
  {
    if FillAccepted(current, selected, regionId) then filled + {regionId} else filled
  }

  /** Filling the same id twice is the same as filling it once. */
  lemma FillIdempotent(filled: set<int>, current: Option<Picture>, selected: Option<int>, regionId: int)
    ensures var once := AfterFill(filled, current, selected, regionId);
            AfterFill(once, current, selected, regionId) == once
  {
  }

  /** Fills of two ids under the same picture and colour commute. */
  lemma FillCommutes(filled: set<int>, current: Option<Picture>, selected: Option<int>, a: int, b: int)
    ensures AfterFill(AfterFill(filled, current, selected, a), current, selected, b)
         == AfterFill(AfterFill(filled, current, selected, b), current, selected, a)
  {
  }

  /** Every id a fill adds belongs to a region of the selected colour, so a
      filled set made of region ids stays one. */
  lemma FillKeepsRegionIds(filled: set<int>, current: Option<Picture>, selected: Option<int>, regionId: int)
    requires current.Some? && filled <= RegionIds(current.value.regions)
    ensures AfterFill(filled, current, selected, regionId) <= RegionIds(current.value.regions)
  {
  }

  class GameStore {
    var pictures: seq<Picture>
    var currentPicture: Option<Picture>
    var selectedColorIndex: Option<int>
    var filledRegions: set<int>
    /** The saveProgress calls received by the picture store, oldest first. */
    var saved: seq<SaveRecord>

    constructor ()
      ensures pictures == [] && currentPicture.None? && selectedColorIndex.None?
      ensures filledRegions == {} && saved == []
    {
      pictures := [];
      currentPicture := None;
      selectedColorIndex := None;
      filledRegions := {};
      saved := [];
    }

    /** fetchPictures: `library` is what the picture store currently holds. */
    method FetchPictures(library: seq<Picture>)
      modifies this`pictures
      ensures pictures == library
    {
      pictures := library;
    }

    /** selectPicture: look the id up in the picture store's list `library`; if
        found, open it with the stored progress `progress` as the filled set.
        The selected colour is kept. */
    method SelectPicture(id: string, library: seq<Picture>, progress: seq<int>)
      modifies this`currentPicture, this`filledRegions
      ensures var found := FindPicture(library, id);
              && (found.Some? ==> currentPicture == found && filledRegions == set i | i in progress)
              && (found.None? ==> currentPicture == old(currentPicture) && filledRegions == old(filledRegions))
    {
      var picture := FindPicture(library, id);
      if picture.Some? {
        currentPicture := picture;
        filledRegions := set i | i in progress;
      }
    }

    /** deletePicture: after the picture store removed the picture (leaving
        `libraryAfter`), close it if it was open, then refetch the list. */
    method DeletePicture(id: string, libraryAfter: seq<Picture>)
      modifies this`currentPicture, this`filledRegions, this`pictures
      ensures pictures == libraryAfter
      ensures old(currentPicture).Some? && old(currentPicture).value.id == id ==>
                currentPicture.None? && filledRegions == {}
      ensures !(old(currentPicture).Some? && old(currentPicture).value.id == id) ==>
                currentPicture == old(currentPicture) && filledRegions == old(filledRegions)
    {
      if currentPicture.Some? && currentPicture.value.id == id {
        currentPicture := None;
        filledRegions := {};
      }
      FetchPictures(libraryAfter);
    }

    /** selectColor: any index is accepted, even one not in the palette. */
    method SelectColor(index: int)
      modifies this`selectedColorIndex
      ensures selectedColorIndex == Some(index)
    {
      selectedColorIndex := Some(index);
    }

    /** saveProgress: hand the open picture's id and filled set to the picture store. */
    method SaveProgress()
      modifies this`saved
      ensures currentPicture.Some? ==> saved == old(saved) + [SaveRecord(currentPicture.value.id, filledRegions)]
      ensures currentPicture.None? ==> saved == old(saved)
    {
      if currentPicture.None? {
        return;
      }
      saved := saved + [SaveRecord(currentPicture.value.id, filledRegions)];
    }

    /** fillRegion: when accepted, add the id to the filled set and save once;
        otherwise change nothing and save nothing. */
    method FillRegion(regionId: int)
      modifies this`filledRegions, this`saved
      ensures filledRegions == AfterFill(old(filledRegions), currentPicture, selectedColorIndex, regionId)
      ensures FillAccepted(currentPicture, selectedColorIndex, regionId) ==>
                saved == old(saved) + [SaveRecord(currentPicture.value.id, filledRegions)]
      ensures !FillAccepted(currentPicture, selectedColorIndex, regionId) ==>
                filledRegions == old(filledRegions) && saved == old(saved)
    {
      if currentPicture.None? || selectedColorIndex.None? {
        return;
      }
      var region := FindRegion(currentPicture.value.regions, regionId);
      if region.None? || region.value.colorIndex != selectedColorIndex.value {
        return;
      }
      filledRegions := filledRegions + {regionId};
      SaveProgress();
    }
  }
}
