/** The canvas compositor (frontend/src/components/Canvas.tsx): the base layer
    that reveals filled regions, and the highlight overlay for the armed colour.
    Buffers are flat RGBA byte sequences, row-major, four bytes per pixel; the
    region id of a pixel is the red byte of the mask. */
module Compositor {
  import opened Types

  /** A flat RGBA buffer of width * height pixels. */
  predicate IsRaster(buf: seq<Byte>, width: nat, height: nat)
  {
    |buf| == 4 * (width * height)
  }

  predicate InBounds(x: int, y: int, width: nat, height: nat)
  {
    0 <= x < width && 0 <= y < height
  }

  lemma PixelIndexInRange(x: int, y: int, width: nat, height: nat)
    requires InBounds(x, y, width, height)
    ensures 0 <= y * width + x < width * height
  {
    assert y * width + x < y * width + width == (y + 1) * width;
    assert (y + 1) * width <= height * width;
  }

  /** Byte c of pixel p sits at 4 p + c. */
  lemma ByteOfPixel(p: int, c: int)
    requires 0 <= c < 4
    ensures (4 * p + c) / 4 == p && (4 * p + c) % 4 == c
  {
  }

  /** Pixel p of a width * height raster sits at column p % width, row p / width. */
  lemma PixelCoords(p: int, width: nat, height: nat)
    requires 0 <= p < width * height
    ensures width > 0 && InBounds(p % width, p / width, width, height)
    ensures (p / width) * width + p % width == p
  {
  }

  /** The region id stored in the mask at column x, row y. */
  function MaskIdAt(mask: seq<Byte>, width: nat, height: nat, x: int, y: int): Byte
    requires IsRaster(mask, width, height) && InBounds(x, y, width, height)
  {
    PixelIndexInRange(x, y, width, height);
    mask[(y * width + x) * 4]
  }

  /** A region that the user still has to fill (id 0 is background, never a region). */
  predicate Unfilled(id: int, filled: set<int>)
  {
    id > 0 && id !in filled
  }

  predicate UnfilledAt(mask: seq<Byte>, width: nat, height: nat, filled: set<int>, x: int, y: int)
    requires IsRaster(mask, width, height)
  {
    InBounds(x, y, width, height) && Unfilled(MaskIdAt(mask, width, height, x, y), filled)
  }

  /** Some in-bounds 4-neighbour of (x, y) belongs to an unfilled region. */
  predicate HasUnfilledNeighbour(mask: seq<Byte>, width: nat, height: nat, filled: set<int>, x: int, y: int)
    requires IsRaster(mask, width, height)
  {
    || UnfilledAt(mask, width, height, filled, x - 1, y)
    || UnfilledAt(mask, width, height, filled, x + 1, y)
    || UnfilledAt(mask, width, height, filled, x, y - 1)
    || UnfilledAt(mask, width, height, filled, x, y + 1)
  }

  /** The neighbour offsets in the order the base-layer loop visits them. */
  const Offsets: seq<(int, int)> := [(-1, 0), (1, 0), (0, -1), (0, 1)]

  /** Whether pixel p shows line-art in the base layer: an unfilled region does,
      a filled region does not, and a background pixel does exactly when it
      borders an unfilled region. */
  predicate ShowsLineArt(mask: seq<Byte>, width: nat, height: nat, filled: set<int>, p: int)
    requires IsRaster(mask, width, height) && 0 <= p < width * height
  {
    var id := mask[4 * p];
    if id > 0 then id !in filled
    else
      PixelCoords(p, width, height);
      HasUnfilledNeighbour(mask, width, height, filled, p % width, p / width)
  }

  /** Byte k of the base layer: line-art where the pixel shows line-art,
      reference elsewhere. */
  function BaseByte(reference: seq<Byte>, lineart: seq<Byte>, mask: seq<Byte>,
                    width: nat, height: nat, filled: set<int>, k: int): Byte
    requires IsRaster(mask, width, height) && |reference| == |mask| && |lineart| == |mask|
    requires 0 <= k < |mask|
  {
    if ShowsLineArt(mask, width, height, filled, k / 4) then lineart[k] else reference[k]
  }

  /** The base layer: the reference image, with line-art wherever ShowsLineArt. */
  function BaseLayer(reference: seq<Byte>, lineart: seq<Byte>, mask: seq<Byte>,
                     width: nat, height: nat, filled: set<int>): (out: seq<Byte>)
    requires IsRaster(mask, width, height) && |reference| == |mask| && |lineart| == |mask|
    ensures |out| == |reference|
  {
    seq(|mask|, k requires 0 <= k < |mask| => BaseByte(reference, lineart, mask, width, height, filled, k))
  }

  /** The base-layer pass after its first i bytes. */
  function BaseUpTo(reference: seq<Byte>, lineart: seq<Byte>, mask: seq<Byte>,
                    width: nat, height: nat, filled: set<int>, i: int): (out: seq<Byte>)
    requires IsRaster(mask, width, height) && |reference| == |mask| && |lineart| == |mask|
    ensures |out| == |mask|
  {
    seq(|mask|, k requires 0 <= k < |mask| =>
      if k < i then BaseByte(reference, lineart, mask, width, height, filled, k) else reference[k])
  }

  /** One step of the base-layer pass: the pixel starting at byte i. */
  lemma BaseStep(reference: seq<Byte>, lineart: seq<Byte>, mask: seq<Byte>,
                 width: nat, height: nat, filled: set<int>, i: int)
    requires IsRaster(mask, width, height) && |reference| == |mask| && |lineart| == |mask|
    requires 0 <= i < |mask| && i % 4 == 0
    ensures i + 3 < |mask| && i / 4 < width * height
    ensures var before := BaseUpTo(reference, lineart, mask, width, height, filled, i);
            var after := BaseUpTo(reference, lineart, mask, width, height, filled, i + 4);
            if ShowsLineArt(mask, width, height, filled, i / 4)
            then after == before[i := lineart[i]][i + 1 := lineart[i + 1]]
                                [i + 2 := lineart[i + 2]][i + 3 := lineart[i + 3]]
            else after == before
  {
    assert (i + 1) / 4 == (i + 2) / 4 == (i + 3) / 4 == i / 4;
  }

  /** The neighbour search of the base layer: a loop over the four offsets
      that stops at the first in-bounds unfilled neighbour. */
  method FindUnfilledNeighbour(mask: seq<Byte>, width: nat, height: nat, filled: set<int>, x: int, y: int)
    returns (found: bool)
    requires IsRaster(mask, width, height)
    ensures found == HasUnfilledNeighbour(mask, width, height, filled, x, y)
  {
    found := false;
    var d := 0;
    while d < |Offsets|
      invariant 0 <= d <= |Offsets|
      invariant forall j :: 0 <= j < d ==>
        !UnfilledAt(mask, width, height, filled, x + Offsets[j].0, y + Offsets[j].1)
    {
      var (dx, dy) := Offsets[d];
      var nx, ny := x + dx, y + dy;
      if 0 <= nx < width && 0 <= ny < height {
        PixelIndexInRange(nx, ny, width, height);
        var neighbourId := mask[(ny * width + nx) * 4];
        assert neighbourId == MaskIdAt(mask, width, height, nx, ny);
        if neighbourId > 0 && neighbourId !in filled {
          assert Offsets[d] == (-1, 0) || Offsets[d] == (1, 0) || Offsets[d] == (0, -1) || Offsets[d] == (0, 1);
          found := true;
          break;
        }
      }
      d := d + 1;
    }
    if !found {
      assert Offsets[0] == (-1, 0) && Offsets[1] == (1, 0) && Offsets[2] == (0, -1) && Offsets[3] == (0, 1);
    }
  }

  /** The base-layer pass: copy the reference buffer, then overwrite with
      line-art every pixel whose region is unfilled, and every background pixel
      that borders an unfilled region. */
  method ComposeBase(reference: seq<Byte>, lineart: seq<Byte>, mask: seq<Byte>,
                     width: nat, height: nat, filled: set<int>) returns (data: array<Byte>)
    requires IsRaster(mask, width, height) && |reference| == |mask| && |lineart| == |mask|
    ensures data[..] == BaseLayer(reference, lineart, mask, width, height, filled)
  {
    data := new Byte[|reference|](k requires 0 <= k < |reference| => reference[k]);
    var i := 0;
    while i < |mask|
      invariant 0 <= i <= |mask| && i % 4 == 0
      invariant data[..] == BaseUpTo(reference, lineart, mask, width, height, filled, i)
    {
      BaseStep(reference, lineart, mask, width, height, filled, i);
      var regionId := mask[i];
      var p := i / 4;
      var showLineArt: bool;
      if regionId > 0 && regionId in filled {
        showLineArt := false;
      } else if regionId == 0 {
        PixelCoords(p, width, height);
        var x := p % width;
        var y := p / width;
        showLineArt := FindUnfilledNeighbour(mask, width, height, filled, x, y);
      } else {
        showLineArt := true;
      }
      assert showLineArt == ShowsLineArt(mask, width, height, filled, p);
      if showLineArt {
        data[i] := lineart[i];
        data[i + 1] := lineart[i + 1];
        data[i + 2] := lineart[i + 2];
        data[i + 3] := lineart[i + 3];
      }
      i := i + 4;
    }
    assert data[..] == BaseLayer(reference, lineart, mask, width, height, filled);
  }

  /** `regionColorMap`: Map.set over the regions in order, so a later region
      with the same id overrides an earlier one. */
  function ColorMapOf(regions: seq<RegionInfo>): (m: map<int, int>)
    ensures m.Keys == RegionIds(regions)
  {
    if |regions| == 0 then map[]
    else
      var init := regions[..|regions| - 1];
      var last := regions[|regions| - 1];
      var m := ColorMapOf(init)[last.id := last.colorIndex];
      assert RegionIds(regions) == RegionIds(init) + {last.id} by {
        forall x | x in RegionIds(regions) ensures x in RegionIds(init) + {last.id} {
          var j :| 0 <= j < |regions| && regions[j].id == x;
          if j < |regions| - 1 { assert init[j].id == x; }
        }
      }
      m
  }

  /** The last region carrying an id decides the colour stored for it. */
  lemma {:induction false} ColorMapLastWins(regions: seq<RegionInfo>, j: int)
    requires 0 <= j < |regions|
    requires forall i :: j < i < |regions| ==> regions[i].id != regions[j].id
    ensures ColorMapOf(regions)[regions[j].id] == regions[j].colorIndex
  {
    var init := regions[..|regions| - 1];
    if j < |regions| - 1 {
      assert init[j] == regions[j];
      assert forall i :: j < i < |init| ==> init[i] == regions[i];
      ColorMapLastWins(init, j);
    }
  }

  /** The loop that builds `regionColorMap`. */
  method BuildColorMap(regions: seq<RegionInfo>) returns (m: map<int, int>)
    ensures m == ColorMapOf(regions)
  {
    m := map[];
    var j := 0;
    while j < |regions|
      invariant 0 <= j <= |regions|
      invariant m == ColorMapOf(regions[..j])
    {
      assert regions[..j + 1][..j] == regions[..j];
      m := m[regions[j].id := regions[j].colorIndex];
      j := j + 1;
    }
    assert regions[..j] == regions;
  }

  /** With unique region ids, the colour the overlay looks up for a region is
      the colour the fill validation (`regions.find`) sees. */
  lemma ColorMapAgreesWithFind(regions: seq<RegionInfo>, id: int)
    requires UniqueIds(regions)
    requires id in RegionIds(regions)
    ensures FindRegion(regions, id).Some?
    ensures ColorMapOf(regions)[id] == FindRegion(regions, id).value.colorIndex
  {
    var j :| 0 <= j < |regions| && regions[j].id == id;
    FindRegionUnique(regions, j);
    ColorMapLastWins(regions, j);
  }

  /** Pixel p glows: its region is unfilled and mapped to the selected colour. */
  predicate Highlighted(mask: seq<Byte>, colors: map<int, int>, filled: set<int>, selected: int, p: int)
    requires 0 <= 4 * p < |mask|
  {
    var id := mask[4 * p];
    Unfilled(id, filled) && id in colors && colors[id] == selected
  }

  /** Byte k of the displayed buffer when colour `selected` is armed: the red,
      green and blue bytes of a highlighted pixel become `mix(lineart byte,
      reference byte)`, the blend for the current animation phase; every other
      byte is the base layer's. */
  function OverlayByte(base: seq<Byte>, reference: seq<Byte>, lineart: seq<Byte>, mask: seq<Byte>,
                       colors: map<int, int>, filled: set<int>, selected: int,
                       mix: (Byte, Byte) -> Byte, k: int): Byte
    requires |mask| % 4 == 0 && |base| == |mask| && |reference| == |mask| && |lineart| == |mask|
    requires 0 <= k < |mask|
  {
    if k % 4 < 3 && Highlighted(mask, colors, filled, selected, k / 4)
    then mix(lineart[k], reference[k]) else base[k]
  }

  /** The overlay pass after its first i bytes: highlighted below i, base from i on. */
  function OverlayUpTo(base: seq<Byte>, reference: seq<Byte>, lineart: seq<Byte>, mask: seq<Byte>,
                       colors: map<int, int>, filled: set<int>, selected: int,
                       mix: (Byte, Byte) -> Byte, i: int): (out: seq<Byte>)
    requires |mask| % 4 == 0 && |base| == |mask| && |reference| == |mask| && |lineart| == |mask|
    ensures |out| == |mask|
  {
    seq(|mask|, k requires 0 <= k < |mask| =>
      if k < i then OverlayByte(base, reference, lineart, mask, colors, filled, selected, mix, k) else base[k])
  }

  /** One step of the overlay pass: the pixel starting at byte i. */
  lemma OverlayStep(base: seq<Byte>, reference: seq<Byte>, lineart: seq<Byte>, mask: seq<Byte>,
                    colors: map<int, int>, filled: set<int>, selected: int,
                    mix: (Byte, Byte) -> Byte, i: int)
    requires |mask| % 4 == 0 && |base| == |mask| && |reference| == |mask| && |lineart| == |mask|
    requires 0 <= i < |mask| && i % 4 == 0
    ensures i + 3 < |mask|
    ensures var before := OverlayUpTo(base, reference, lineart, mask, colors, filled, selected, mix, i);
            var after := OverlayUpTo(base, reference, lineart, mask, colors, filled, selected, mix, i + 4);
            if Unfilled(mask[i], filled) && mask[i] in colors && colors[mask[i]] == selected
            then after == before[i := mix(lineart[i], reference[i])]
                                [i + 1 := mix(lineart[i + 1], reference[i + 1])]
                                [i + 2 := mix(lineart[i + 2], reference[i + 2])]
            else after == before
  {
    assert (i + 1) / 4 == (i + 2) / 4 == (i + 3) / 4 == i / 4;
    assert (i + 1) % 4 == 1 && (i + 2) % 4 == 2 && (i + 3) % 4 == 3;
    assert 4 * (i / 4) == i;
  }

  /** The displayed buffer: the base layer verbatim without a selected colour,
      otherwise the base layer with the highlight applied. */
  function Overlay(base: seq<Byte>, reference: seq<Byte>, lineart: seq<Byte>, mask: seq<Byte>,
                   regions: seq<RegionInfo>, filled: set<int>, selected: Option<int>,
                   mix: (Byte, Byte) -> Byte): (out: seq<Byte>)
    requires |mask| % 4 == 0 && |base| == |mask| && |reference| == |mask| && |lineart| == |mask|
    ensures |out| == |base|
  {
    if selected.None? then base
    else
      var colors := ColorMapOf(regions);
      seq(|mask|, k requires 0 <= k < |mask| =>
        OverlayByte(base, reference, lineart, mask, colors, filled, selected.value, mix, k))
  }

  /** The overlay pass over a copy of the base layer. */
  method ComposeOverlay(base: seq<Byte>, reference: seq<Byte>, lineart: seq<Byte>, mask: seq<Byte>,
                        regions: seq<RegionInfo>, filled: set<int>, selected: Option<int>,
                        mix: (Byte, Byte) -> Byte) returns (data: array<Byte>)
    requires |mask| % 4 == 0 && |base| == |mask| && |reference| == |mask| && |lineart| == |mask|
    ensures data[..] == Overlay(base, reference, lineart, mask, regions, filled, selected, mix)
  {
    data := new Byte[|base|](k requires 0 <= k < |base| => base[k]);
    if selected.None? {
      assert data[..] == base;
      return;
    }
    var colors := BuildColorMap(regions);
    var i := 0;
    while i < |mask|
      invariant 0 <= i <= |mask| && i % 4 == 0
      invariant data[..] == OverlayUpTo(base, reference, lineart, mask, colors, filled, selected.value, mix, i)
    {
      var regionId := mask[i];
      OverlayStep(base, reference, lineart, mask, colors, filled, selected.value, mix, i);
      if regionId > 0 && regionId !in filled {
        if regionId in colors && colors[regionId] == selected.value {
          data[i] := mix(lineart[i], reference[i]);
          data[i + 1] := mix(lineart[i + 1], reference[i + 1]);
          data[i + 2] := mix(lineart[i + 2], reference[i + 2]);
        }
      }
      i := i + 4;
    }
    assert data[..] == Overlay(base, reference, lineart, mask, regions, filled, selected, mix);
  }

  /** The overlay changes only the red, green and blue bytes of highlighted
      pixels; alpha bytes and every other pixel are the base layer's. */
  lemma OverlayTouchesOnlyHighlightedRgb(base: seq<Byte>, reference: seq<Byte>, lineart: seq<Byte>,
                                         mask: seq<Byte>, regions: seq<RegionInfo>, filled: set<int>,
                                         selected: Option<int>, mix: (Byte, Byte) -> Byte, k: int)
    requires |mask| % 4 == 0 && |base| == |mask| && |reference| == |mask| && |lineart| == |mask|
    requires 0 <= k < |mask|
    ensures var shown := Overlay(base, reference, lineart, mask, regions, filled, selected, mix);
            shown[k] != base[k] ==>
              selected.Some? && k % 4 < 3 && Highlighted(mask, ColorMapOf(regions), filled, selected.value, k / 4)
  {
  }

  /** A pixel of a filled region shows the reference image, whichever colour is armed. */
  lemma FilledPixelShowsReference(reference: seq<Byte>, lineart: seq<Byte>, mask: seq<Byte>,
                                  width: nat, height: nat, regions: seq<RegionInfo>, filled: set<int>,
                                  selected: Option<int>, mix: (Byte, Byte) -> Byte, p: int, c: int)
    requires IsRaster(mask, width, height) && |reference| == |mask| && |lineart| == |mask|
    requires 0 <= p < width * height && 0 <= c < 4
    requires mask[4 * p] > 0 && mask[4 * p] in filled
    ensures var base := BaseLayer(reference, lineart, mask, width, height, filled);
            Overlay(base, reference, lineart, mask, regions, filled, selected, mix)[4 * p + c] == reference[4 * p + c]
  {
    var k := 4 * p + c;
    ByteOfPixel(p, c);
    var base := BaseLayer(reference, lineart, mask, width, height, filled);
    assert base[k] == BaseByte(reference, lineart, mask, width, height, filled, k);
    assert !ShowsLineArt(mask, width, height, filled, p);
    if selected.Some? {
      var colors := ColorMapOf(regions);
      var out := Overlay(base, reference, lineart, mask, regions, filled, selected, mix);
      assert out[k] == OverlayByte(base, reference, lineart, mask, colors, filled, selected.value, mix, k);
      assert !Highlighted(mask, colors, filled, selected.value, p);
    }
  }

  /** A pixel of an unfilled region shows line-art, except that while its
      colour is armed its red, green and blue bytes show the blend. */
  lemma UnfilledPixelShowsLineArt(reference: seq<Byte>, lineart: seq<Byte>, mask: seq<Byte>,
                                  width: nat, height: nat, regions: seq<RegionInfo>, filled: set<int>,
                                  selected: Option<int>, mix: (Byte, Byte) -> Byte, p: int, c: int)
    requires IsRaster(mask, width, height) && |reference| == |mask| && |lineart| == |mask|
    requires 0 <= p < width * height && 0 <= c < 4
    requires Unfilled(mask[4 * p], filled)
    ensures var base := BaseLayer(reference, lineart, mask, width, height, filled);
            var colors := ColorMapOf(regions);
            var glows := selected.Some? && mask[4 * p] in colors && colors[mask[4 * p]] == selected.value;
            Overlay(base, reference, lineart, mask, regions, filled, selected, mix)[4 * p + c]
              == if glows && c < 3 then mix(lineart[4 * p + c], reference[4 * p + c]) else lineart[4 * p + c]
  {
    var k := 4 * p + c;
    ByteOfPixel(p, c);
    var base := BaseLayer(reference, lineart, mask, width, height, filled);
    assert base[k] == BaseByte(reference, lineart, mask, width, height, filled, k);
    assert ShowsLineArt(mask, width, height, filled, p);
    assert base[k] == lineart[k];
    if selected.Some? {
      var colors := ColorMapOf(regions);
      var out := Overlay(base, reference, lineart, mask, regions, filled, selected, mix);
      assert out[k] == OverlayByte(base, reference, lineart, mask, colors, filled, selected.value, mix, k);
      assert Highlighted(mask, colors, filled, selected.value, p)
             <==> mask[4 * p] in colors && colors[mask[4 * p]] == selected.value;
    }
  }

  /** A background pixel never glows: it shows line-art exactly when an
      in-bounds 4-neighbour belongs to an unfilled region, and the reference
      image otherwise (also when every neighbour is off-canvas, background or filled). */
  lemma BackgroundPixelRule(reference: seq<Byte>, lineart: seq<Byte>, mask: seq<Byte>,
                            width: nat, height: nat, regions: seq<RegionInfo>, filled: set<int>,
                            selected: Option<int>, mix: (Byte, Byte) -> Byte, p: int, c: int)
    requires IsRaster(mask, width, height) && |reference| == |mask| && |lineart| == |mask|
    requires 0 <= p < width * height && 0 <= c < 4
    requires mask[4 * p] == 0
    ensures width > 0
    ensures var base := BaseLayer(reference, lineart, mask, width, height, filled);
            Overlay(base, reference, lineart, mask, regions, filled, selected, mix)[4 * p + c]
              == if HasUnfilledNeighbour(mask, width, height, filled, p % width, p / width)
                 then lineart[4 * p + c] else reference[4 * p + c]
  {
    PixelCoords(p, width, height);
    var k := 4 * p + c;
    ByteOfPixel(p, c);
    var base := BaseLayer(reference, lineart, mask, width, height, filled);
    assert base[k] == BaseByte(reference, lineart, mask, width, height, filled, k);
    assert ShowsLineArt(mask, width, height, filled, p)
           == HasUnfilledNeighbour(mask, width, height, filled, p % width, p / width);
    if selected.Some? {
      var colors := ColorMapOf(regions);
      var out := Overlay(base, reference, lineart, mask, regions, filled, selected, mix);
      assert out[k] == OverlayByte(base, reference, lineart, mask, colors, filled, selected.value, mix, k);
      assert !Highlighted(mask, colors, filled, selected.value, p);
    }
  }

  /** Filling more regions only turns line-art pixels into reference pixels,
      never the other way round. */
  lemma FillingOnlyReveals(mask: seq<Byte>, width: nat, height: nat, filled: set<int>, more: set<int>, p: int)
    requires IsRaster(mask, width, height) && 0 <= p < width * height
    requires filled <= more
    ensures ShowsLineArt(mask, width, height, more, p) ==> ShowsLineArt(mask, width, height, filled, p)
  {
  }
}
