/** Shared data model of the colouring game: the picture bundle (regions and
    palette) and the small helpers every component uses to look regions up. */
module Types {

  datatype Option<+T> = None | Some(value: T)

  /** One channel of an RGBA pixel buffer (Uint8ClampedArray / uint8). */
  type Byte = b: int | 0 <= b < 256

  /** A region of the segmented picture: positive id, assigned palette entry, size. */
  datatype RegionInfo = RegionInfo(id: int, colorIndex: int, pixelCount: nat)

  /** A palette entry: its index, its "#rrggbb" string and its channels. */
  datatype PaletteColor = PaletteColor(index: int, hex: string, rgb: seq<int>)

  /** The picture bundle. The three image URLs are opaque to the model. */
  datatype Picture = Picture(id: string, palette: seq<PaletteColor>, regions: seq<RegionInfo>)

  /** The set of ids the regions carry. */
  function RegionIds(regions: seq<RegionInfo>): (ids: set<int>)
    ensures forall j :: 0 <= j < |regions| ==> regions[j].id in ids
    ensures forall id :: id in ids ==> exists j :: 0 <= j < |regions| && regions[j].id == id
  {
    set j | 0 <= j < |regions| :: regions[j].id
  }

  /** No two regions share an id (what the relabelling produces). */
  predicate UniqueIds(regions: seq<RegionInfo>)
  {
    forall i, j :: 0 <= i < j < |regions| ==> regions[i].id != regions[j].id
  }

  /** `regions.find(r => r.id === id)`: the FIRST region with that id. */
  function FindRegion(regions: seq<RegionInfo>, id: int): (r: Option<RegionInfo>)
    ensures r.Some? <==> id in RegionIds(regions)
    ensures r.Some? ==> r.value.id == id && r.value in regions
    ensures r.Some? ==> exists j :: 0 <= j < |regions| && regions[j] == r.value
                                 && forall i :: 0 <= i < j ==> regions[i].id != id
  {
    if |regions| == 0 then None
    else if regions[0].id == id then Some(regions[0])
    else
      var r := FindRegion(regions[1..], id);
      assert RegionIds(regions) == {regions[0].id} + RegionIds(regions[1..]) by {
        forall x | x in RegionIds(regions) ensures x in {regions[0].id} + RegionIds(regions[1..]) {
          var j :| 0 <= j < |regions| && regions[j].id == x;
          if j > 0 { assert regions[1..][j - 1].id == x; }
        }
      }
      if r.Some? then
        var j :| 0 <= j < |regions[1..]| && regions[1..][j] == r.value
                 && forall i :: 0 <= i < j ==> regions[1..][i].id != id;
        assert regions[j + 1] == r.value;
        r
      else r
  }

  /** With unique ids, the region found for an id is the one at its position. */
  lemma {:induction false} FindRegionUnique(regions: seq<RegionInfo>, j: int)
    requires UniqueIds(regions)
    requires 0 <= j < |regions|
    ensures FindRegion(regions, regions[j].id) == Some(regions[j])
  {
    if j > 0 {
      assert regions[0].id != regions[j].id;
      FindRegionUnique(regions[1..], j - 1);
    }
  }
}
