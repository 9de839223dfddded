/** Region colours and palette assembly of the backend
    (`_compute_region_colors` and `_generate_palette_from_regions` in
    backend/image_processor.py). The pixel mean and the KMeans clustering
    are foreign numerics: the mean is a caller-supplied function of a pixel
    set, and the clustering is a caller-supplied function of the colour list
    and the cluster count, trusted to return one label per colour, below the
    cluster count, and that many centres with channels in [0, 255]. */
module PaletteAssembly {
  import opened Types
  import opened LabelGrid
  import opened Renumbering
  import opened Segmentation

  /** The default `n_colors`. */
  const MaxColours: nat := 30

  /** The colour of a region without pixels. */
  const Grey: seq<int> := [128, 128, 128]

  /** A region with the average colour computed for it. */
  datatype ColouredRegion = ColouredRegion(region: RegionCount, avgColor: seq<int>)

  /** A cluster centre in RGB, channels scaled to [0, 255]. */
  datatype Centre = Centre(r: real, g: real, b: real)

  /** What the clustering hands back: one label per input colour, and the centres. */
  datatype Clustering = Clustering(labels: seq<nat>, centres: seq<Centre>)

  predicate ChannelInRange(x: real)
  {
    0.0 <= x <= 255.0
  }

  /** A clustering of n colours into k clusters, as KMeans produces it. */
  predicate ValidClustering(c: Clustering, n: nat, k: nat)
  {
    && |c.labels| == n && |c.centres| == k
    && (forall i :: 0 <= i < n ==> c.labels[i] < k)
    && (forall j :: 0 <= j < k ==> ChannelInRange(c.centres[j].r) && ChannelInRange(c.centres[j].g)
                                   && ChannelInRange(c.centres[j].b))
  }

  /** The guarantee the clustering function is trusted to give for every request it gets. */
  ghost predicate TrustedClustering(kmeans: (seq<seq<int>>, nat) -> Clustering)
  {
    forall colours: seq<seq<int>>, k: nat {:trigger kmeans(colours, k)} ::
      0 < k <= |colours| ==> ValidClustering(kmeans(colours, k), |colours|, k)
  }

  /** `min(n_colors, len(regions))`. */
  function ClusterCount(n: nat): (k: nat)
    ensures k <= MaxColours && k <= n
    ensures k == MaxColours || k == n
    ensures n > 0 ==> k > 0
  {
    if n < MaxColours then n else MaxColours
  }

  /** `int(x)` on a channel in [0, 255]: truncation, which is the floor here. */
  function Channel(x: real): (v: Byte)
    requires ChannelInRange(x)
    ensures v as real <= x < v as real + 1.0
  {
    x.Floor
  }

  // ---------------------------------------------------------------------------
  // `f'#{r:02x}{g:02x}{b:02x}'` and its inverse

  predicate IsLowerHexDigit(c: char)
  {
    '0' <= c <= '9' || 'a' <= c <= 'f'
  }

  /** The value of a lowercase hexadecimal digit. */
  function DigitValue(c: char): (d: Option<int>)
    ensures d.Some? <==> IsLowerHexDigit(c)
    ensures d.Some? ==> 0 <= d.value < 16
  {
    if '0' <= c <= '9' then Some(c as int - '0' as int)
    else if 'a' <= c <= 'f' then Some(c as int - 'a' as int + 10)
    else None
  }

  /** A digit value as its lowercase hexadecimal character. */
  function HexDigit(d: int): (c: char)
    requires 0 <= d < 16
    ensures IsLowerHexDigit(c)
    ensures DigitValue(c) == Some(d)
  {
    if d < 10 then ('0' as int + d) as char else ('a' as int + d - 10) as char
  }

  /** Every lowercase digit is the image of its own value. */
  lemma DigitCanonical(c: char)
    requires IsLowerHexDigit(c)
    ensures HexDigit(DigitValue(c).value) == c
  {
  }

  /** `{v:02x}`: two lowercase digits, high nibble first. */
  function Hex2(v: Byte): (s: string)
    ensures |s| == 2 && IsLowerHexDigit(s[0]) && IsLowerHexDigit(s[1])
  {
    [HexDigit(v / 16), HexDigit(v % 16)]
  }

  function ParseHex2(s: string): Option<Byte>
  {
    if |s| != 2 || DigitValue(s[0]).None? || DigitValue(s[1]).None? then None
    else Some(16 * DigitValue(s[0]).value + DigitValue(s[1]).value)
  }

  /** Formatting a byte and reading it back gives the byte. */
  lemma Hex2RoundTrip(v: Byte)
    ensures ParseHex2(Hex2(v)) == Some(v)
  {
    assert v == 16 * (v / 16) + v % 16;
  }

  /** Reading two digits and formatting the byte gives the digits back: the
      format is the only spelling of a byte. */
  lemma Hex2Canonical(s: string, v: Byte)
    requires ParseHex2(s) == Some(v)
    ensures Hex2(v) == s
  {
    var hi := DigitValue(s[0]).value;
    var lo := DigitValue(s[1]).value;
    assert v / 16 == hi && v % 16 == lo;
    DigitCanonical(s[0]);
    DigitCanonical(s[1]);
  }

  /** The palette entry's `hex` field. */
  function HexColour(r: Byte, g: Byte, b: Byte): (h: string)
    ensures |h| == 7 && h[0] == '#'
    ensures forall i :: 1 <= i < 7 ==> IsLowerHexDigit(h[i])
  {
    "#" + Hex2(r) + Hex2(g) + Hex2(b)
  }

  function ParseHexColour(h: string): Option<seq<int>>
  {
    if |h| != 7 || h[0] != '#' then None
    else
      var r := ParseHex2(h[1..3]);
      var g := ParseHex2(h[3..5]);
      var b := ParseHex2(h[5..7]);
      if r.None? || g.None? || b.None? then None else Some([r.value, g.value, b.value])
  }

  /** The hex string carries exactly the three channels. */
  lemma HexColourRoundTrip(r: Byte, g: Byte, b: Byte)
    ensures ParseHexColour(HexColour(r, g, b)) == Some([r, g, b])
  {
    var h := HexColour(r, g, b);
    assert h[1..3] == Hex2(r) && h[3..5] == Hex2(g) && h[5..7] == Hex2(b);
    Hex2RoundTrip(r);
    Hex2RoundTrip(g);
    Hex2RoundTrip(b);
  }

  /** Different colours never share a hex string. */
  lemma HexColourInjective(r: Byte, g: Byte, b: Byte, r': Byte, g': Byte, b': Byte)
    requires HexColour(r, g, b) == HexColour(r', g', b')
    ensures r == r' && g == g' && b == b'
  {
    HexColourRoundTrip(r, g, b);
    HexColourRoundTrip(r', g', b');
  }

  // ---------------------------------------------------------------------------
  // Palette assembly (lines 178-207)

  /** Lines 197-202: entry i of the palette from centre i. */
  function PaletteEntry(i: nat, c: Centre): (e: PaletteColor)
    requires ChannelInRange(c.r) && ChannelInRange(c.g) && ChannelInRange(c.b)
    ensures e.index == i && |e.rgb| == 3
    ensures ParseHexColour(e.hex) == Some(e.rgb)
    ensures forall j :: 0 <= j < 3 ==> 0 <= e.rgb[j] < 256
  {
    var r := Channel(c.r);
    var g := Channel(c.g);
    var b := Channel(c.b);
    HexColourRoundTrip(r, g, b);
    PaletteColor(i, HexColour(r, g, b), [r, g, b])
  }

  /** Line 183: the regions' average colours, in order. */
  function AvgColors(regions: seq<ColouredRegion>): (colours: seq<seq<int>>)
    ensures |colours| == |regions|
    ensures forall i :: 0 <= i < |regions| ==> colours[i] == regions[i].avgColor
  {
    seq(|regions|, i requires 0 <= i < |regions| => regions[i].avgColor)
  }

  /** Lines 178-207: cluster the average colours into min(30, n) clusters,
      list one palette entry per centre in order, and give region i the
      cluster label of its colour. */
  method GeneratePalette(regions: seq<ColouredRegion>, kmeans: (seq<seq<int>>, nat) -> Clustering)
      returns (palette: seq<PaletteColor>, withColours: seq<RegionInfo>)
    requires TrustedClustering(kmeans)
    ensures |withColours| == |regions|
    ensures |regions| == 0 ==> palette == [] && withColours == []
    ensures |regions| > 0 ==>
              var c := kmeans(AvgColors(regions),
                              ClusterCount(|regions|));
              && |palette| == ClusterCount(|regions|)
              && (forall j :: 0 <= j < |palette| ==> palette[j] == PaletteEntry(j, c.centres[j]))
              && (forall i :: 0 <= i < |regions| ==> withColours[i].colorIndex == c.labels[i])
    ensures forall i :: 0 <= i < |regions| ==>
              && withColours[i].id == regions[i].region.id
              && withColours[i].pixelCount == regions[i].region.pixelCount
              && 0 <= withColours[i].colorIndex < |palette|
              && palette[withColours[i].colorIndex].index == withColours[i].colorIndex
  {
    if |regions| == 0 {
      return [], [];
    }
    var colours := AvgColors(regions);
    var k := ClusterCount(|regions|);
    var clustering := kmeans(colours, k);
    assert ValidClustering(clustering, |regions|, k);
    palette := [];
    var j := 0;
    while j < |clustering.centres|
      invariant 0 <= j <= |clustering.centres| && |palette| == j
      invariant forall m :: 0 <= m < j ==> palette[m] == PaletteEntry(m, clustering.centres[m])
    {
      palette := palette + [PaletteEntry(j, clustering.centres[j])];
      j := j + 1;
    }
    withColours := [];
    var i := 0;
    while i < |regions|
      invariant 0 <= i <= |regions| && |withColours| == i
      invariant forall m :: 0 <= m < i ==>
                  withColours[m] == RegionInfo(regions[m].region.id, clustering.labels[m], regions[m].region.pixelCount)
    {
      withColours := withColours + [RegionInfo(regions[i].region.id, clustering.labels[i], regions[i].region.pixelCount)];
      i := i + 1;
    }
  }

  // ---------------------------------------------------------------------------
  // Region colours (lines 166-176)

  /** The pixels of a grid that carry value v. */
  function PixelsWith(grid: seq<int>, v: int): (px: set<nat>)
    ensures forall p: nat :: p in px <==> p < |grid| && grid[p] == v
  {
    set p: nat | p < |grid| && grid[p] == v
  }

  /** As many pixels carry v as Count says. */
  lemma {:induction false} PixelsWithCount(grid: seq<nat>, v: nat)
    ensures |PixelsWith(grid, v)| == Count(grid, v)
  {
    if |grid| > 0 {
      var init := grid[..|grid| - 1];
      PixelsWithCount(init, v);
      if grid[|grid| - 1] == v {
        assert PixelsWith(grid, v) == PixelsWith(init, v) + {|grid| - 1};
      } else {
        assert PixelsWith(grid, v) == PixelsWith(init, v);
      }
    }
  }

  /** Lines 169-175 as written: the region's pixels are taken from the 8-bit
      mask, so they are the pixels whose id is congruent to the region's id
      modulo 256. */
  function RegionColourAsWritten(mask: seq<Byte>, id: int, average: set<nat> -> seq<int>): seq<int>
  {
    var px := PixelsWith(mask, id);
    if px != {} then average(px) else Grey
  }

  /** The evidently intended rule: the region's pixels are the pixels of the
      renumbered grid that carry its id. */
  function RegionColour(grid: seq<nat>, id: int, average: set<nat> -> seq<int>): (colour: seq<int>)
    ensures PixelsWith(grid, id) != {} ==> colour == average(PixelsWith(grid, id))
    ensures PixelsWith(grid, id) == {} ==> colour == Grey
  {
    var px := PixelsWith(grid, id);
    if px != {} then average(px) else Grey
  }

  /** An id above 255 never matches an 8-bit mask byte: as written, such a
      region gets grey even though it has pixels, and the region 256 below it
      averages its pixels as well as its own. */
  lemma MaskMissesHighIds(grid: seq<nat>, id: nat, average: set<nat> -> seq<int>)
    requires 256 <= id && id in grid
    ensures PixelsWith(MaskOf(grid), id) == {}
    ensures RegionColourAsWritten(MaskOf(grid), id, average) == Grey
    ensures PixelsWith(grid, id) != {}
    ensures id - 256 > 0 ==> PixelsWith(grid, id) <= PixelsWith(MaskOf(grid), id - 256 * (id / 256))
  {
    var p :| 0 <= p < |grid| && grid[p] == id;
    assert p in PixelsWith(grid, id);
  }

  /** A concrete picture with 257 regions, one pixel each: region 257 has a
      pixel but is coloured grey as written, and region 1 takes the average of
      two pixels, its own and region 257's. */
  lemma MaskColourCounterexample(average: set<nat> -> seq<int>)
    ensures var grid := seq(257, p requires 0 <= p < 257 => p + 1);
            && RelabelledOf(grid) == grid
            && RegionColourAsWritten(MaskOf(grid), 257, average) == Grey
            && RegionColour(grid, 257, average) == average({256})
            && RegionColourAsWritten(MaskOf(grid), 1, average) == average({0, 256})
            && RegionColour(grid, 1, average) == average({0})
  {
    var grid := seq(257, p requires 0 <= p < 257 => p + 1);
    DenseIsFixed(grid);
    MaskMissesHighIds(grid, 257, average);
    assert grid[256] == 257;
    assert PixelsWith(grid, 257) == {256};
    assert PixelsWith(grid, 1) == {0};
    assert MaskOf(grid)[0] == 1 && MaskOf(grid)[256] == 1;
    assert PixelsWith(MaskOf(grid), 1) == {0, 256};
  }

  /** A grid numbered 1, 2, ..., n pixel by pixel is already renumbered. */
  lemma DenseIsFixed(grid: seq<nat>)
    requires forall p :: 0 <= p < |grid| ==> grid[p] == p + 1
    ensures RelabelledOf(grid) == grid
  {
    var u := UniquePositive(grid);
    assert u == grid by {
      SortedSameSet(u, grid);
    }
    forall p | 0 <= p < |grid| ensures RelabelledOf(grid)[p] == grid[p] {
      IndexOfAt(u, p);
    }
  }

  /** Two strictly increasing sequences with the same elements are equal. */
  lemma {:induction false} SortedSameSet(a: seq<nat>, b: seq<nat>)
    requires StrictlyIncreasing(a) && StrictlyIncreasing(b)
    requires forall x :: x in a <==> x in b
    ensures a == b
    decreases |a| + |b|
  {
    SameEmptiness(a, b);
    if |a| > 0 {
      assert a[0] in b && b[0] in a;
      HeadIsLeast(a, b[0]);
      HeadIsLeast(b, a[0]);
      forall x ensures x in a[1..] <==> x in b[1..] {
        if x in a[1..] {
          var m :| 0 <= m < |a[1..]| && a[1..][m] == x;
          IncreasingBetween(a, 0, m + 1);
          assert a[m + 1] in a;
          var n :| 0 <= n < |b| && b[n] == x;
          assert n != 0;
          assert b[1..][n - 1] == x;
        }
        if x in b[1..] {
          var m :| 0 <= m < |b[1..]| && b[1..][m] == x;
          IncreasingBetween(b, 0, m + 1);
          assert b[m + 1] in b;
          var n :| 0 <= n < |a| && a[n] == x;
          assert n != 0;
          assert a[1..][n - 1] == x;
        }
      }
      TailAbove(a);
      TailAbove(b);
      SortedSameSet(a[1..], b[1..]);
    }
  }

  lemma SameEmptiness(a: seq<nat>, b: seq<nat>)
    requires forall x :: x in a <==> x in b
    ensures |a| == 0 <==> |b| == 0
  {
    if |a| > 0 {
      assert a[0] in b;
    }
    if |b| > 0 {
      assert b[0] in a;
    }
  }

  /** While every id is below 256 the mask and the grid pick the same pixels,
      so the two rules agree. */
  lemma MaskExactBelow256(grid: seq<nat>, id: int, average: set<nat> -> seq<int>)
    requires forall p :: 0 <= p < |grid| ==> grid[p] < 256
    ensures PixelsWith(MaskOf(grid), id) == PixelsWith(grid, id)
    ensures RegionColourAsWritten(MaskOf(grid), id, average) == RegionColour(grid, id, average)
  {
  }

  /** Lines 166-176 with the corrected pixel selection: one average colour per
      region, in order. */
  method ComputeRegionColours(regions: seq<RegionCount>, grid: seq<nat>, average: set<nat> -> seq<int>)
      returns (coloured: seq<ColouredRegion>)
    ensures |coloured| == |regions|
    ensures forall i :: 0 <= i < |regions| ==>
              coloured[i] == ColouredRegion(regions[i], RegionColour(grid, regions[i].id, average))
  {
    coloured := [];
    var i := 0;
    while i < |regions|
      invariant 0 <= i <= |regions| && |coloured| == i
      invariant forall m :: 0 <= m < i ==>
                  coloured[m] == ColouredRegion(regions[m], RegionColour(grid, regions[m].id, average))
    {
      coloured := coloured + [ColouredRegion(regions[i], RegionColour(grid, regions[i].id, average))];
      i := i + 1;
    }
  }

  /** A region the segmentation lists has pixels of its own, as many as its
      pixel count says, so its colour is the average over exactly them and
      never the grey fallback. */
  lemma ListedRegionColour(grid: seq<nat>, r: RegionCount, average: set<nat> -> seq<int>)
    requires r.id >= 0 && r.pixelCount == Count(grid, r.id) > 0
    ensures |PixelsWith(grid, r.id)| == r.pixelCount
    ensures RegionColour(grid, r.id, average) == average(PixelsWith(grid, r.id))
  {
    PixelsWithCount(grid, r.id);
  }

  /** The pixel counts of a picture bundle's regions, added up. */
  function BundlePixels(regions: seq<RegionInfo>): nat
  {
    if |regions| == 0 then 0 else BundlePixels(regions[..|regions| - 1]) + regions[|regions| - 1].pixelCount
  }

  /** Regions carrying the segmentation's pixel counts add up to the same total. */
  lemma {:induction false} BundlePixelsOfCounts(regions: seq<RegionInfo>, counted: seq<RegionCount>)
    requires |regions| == |counted|
    requires forall i :: 0 <= i < |regions| ==> regions[i].pixelCount == counted[i].pixelCount
    ensures BundlePixels(regions) == TotalPixels(counted)
  {
    if |regions| > 0 {
      BundlePixelsOfCounts(regions[..|regions| - 1], counted[..|counted| - 1]);
    }
  }

  /** The region half of what `process` builds on the segmented grid `grid`:
      regions 1, ..., n with their pixel counts and average colours. */
  ghost predicate RegionsAssembled(grid: seq<nat>, average: set<nat> -> seq<int>,
                                   regions: seq<RegionInfo>, avgColors: seq<seq<int>>)
  {
    && |avgColors| == |regions|
    && forall i :: 0 <= i < |regions| ==>
         && regions[i].id == i + 1 && regions[i].pixelCount == Count(grid, i + 1)
         && avgColors[i] == RegionColour(grid, i + 1, average)
  }

  /** The palette half: the palette from clustering the region colours into
      min(30, n) clusters, and each region's cluster label as its colour index. */
  ghost predicate PaletteAssembled(kmeans: (seq<seq<int>>, nat) -> Clustering, palette: seq<PaletteColor>,
                                   regions: seq<RegionInfo>, avgColors: seq<seq<int>>)
  {
    var n := |regions|;
    && (n == 0 ==> palette == [])
    && (n > 0 ==>
          var c := kmeans(avgColors, ClusterCount(n));
          && ValidClustering(c, n, ClusterCount(n))
          && |palette| == ClusterCount(n)
          && (forall j :: 0 <= j < |palette| ==> palette[j] == PaletteEntry(j, c.centres[j]))
          && (forall i :: 0 <= i < n ==> regions[i].colorIndex == c.labels[i]))
  }

  /** What `process` builds on the segmented grid `grid`. */
  ghost predicate Assembled(grid: seq<nat>, average: set<nat> -> seq<int>, kmeans: (seq<seq<int>>, nat) -> Clustering,
                            palette: seq<PaletteColor>, regions: seq<RegionInfo>, avgColors: seq<seq<int>>)
  {
    RegionsAssembled(grid, average, regions, avgColors) && PaletteAssembled(kmeans, palette, regions, avgColors)
  }

  /** The counted regions and their colours, carried into the region list,
      give the region half of the bundle. */
  lemma RegionsOfStages(grid: seq<nat>, counted: seq<RegionCount>, coloured: seq<ColouredRegion>,
                        average: set<nat> -> seq<int>, regions: seq<RegionInfo>, avgColors: seq<seq<int>>)
    requires forall i :: 0 <= i < |counted| ==> counted[i].id == i + 1 && counted[i].pixelCount == Count(grid, i + 1) > 0
    requires |coloured| == |counted|
    requires forall i :: 0 <= i < |counted| ==>
               coloured[i] == ColouredRegion(counted[i], RegionColour(grid, counted[i].id, average))
    requires avgColors == AvgColors(coloured)
    requires |regions| == |coloured|
    requires forall i :: 0 <= i < |coloured| ==>
               regions[i].id == coloured[i].region.id && regions[i].pixelCount == coloured[i].region.pixelCount
    ensures RegionsAssembled(grid, average, regions, avgColors)
    ensures forall i :: 0 <= i < |regions| ==> regions[i].id == i + 1 && regions[i].pixelCount > 0
  {
  }

  /** The clustered palette of the region colours gives the palette half of the bundle. */
  lemma PaletteOfStages(coloured: seq<ColouredRegion>, kmeans: (seq<seq<int>>, nat) -> Clustering,
                        palette: seq<PaletteColor>, regions: seq<RegionInfo>, avgColors: seq<seq<int>>)
    requires TrustedClustering(kmeans)
    requires avgColors == AvgColors(coloured)
    requires |regions| == |coloured|
    requires |coloured| == 0 ==> palette == []
    requires |coloured| > 0 ==>
               var c := kmeans(AvgColors(coloured),
                               ClusterCount(|coloured|));
               && |palette| == ClusterCount(|coloured|)
               && (forall j :: 0 <= j < |palette| ==> palette[j] == PaletteEntry(j, c.centres[j]))
               && (forall i :: 0 <= i < |coloured| ==> regions[i].colorIndex == c.labels[i])
    ensures PaletteAssembled(kmeans, palette, regions, avgColors)
  {
    var n := |regions|;
    if n > 0 {
      assert ValidClustering(kmeans(avgColors, ClusterCount(n)), n, ClusterCount(n));
    }
  }

  /** The stages of `process` chained on the segmented grid `grid`: the facts
      each stage's contract gives add up to the bundle of that grid and to
      what `process` promises about each region. */
  lemma ProcessOfStages(labels: seq<nat>, grid: seq<nat>,
                        counted: seq<RegionCount>, coloured: seq<ColouredRegion>,
                        average: set<nat> -> seq<int>, kmeans: (seq<seq<int>>, nat) -> Clustering,
                        palette: seq<PaletteColor>, regions: seq<RegionInfo>, avgColors: seq<seq<int>>)
    requires TrustedClustering(kmeans)
    requires TotalPixels(counted) == |labels| - Count(labels, 0)
    requires forall i :: 0 <= i < |counted| ==>
               counted[i].id == i + 1 && counted[i].pixelCount == Count(grid, i + 1) > 0
    requires |coloured| == |counted|
    requires forall i :: 0 <= i < |counted| ==>
               coloured[i] == ColouredRegion(counted[i], RegionColour(grid, counted[i].id, average))
    requires |regions| == |coloured|
    requires |coloured| == 0 ==> palette == [] && regions == []
    requires |coloured| > 0 ==>
               var c := kmeans(AvgColors(coloured),
                               ClusterCount(|coloured|));
               && |palette| == ClusterCount(|coloured|)
               && (forall j :: 0 <= j < |palette| ==> palette[j] == PaletteEntry(j, c.centres[j]))
               && (forall i :: 0 <= i < |coloured| ==> regions[i].colorIndex == c.labels[i])
    requires forall i :: 0 <= i < |coloured| ==>
               && regions[i].id == coloured[i].region.id
               && regions[i].pixelCount == coloured[i].region.pixelCount
               && 0 <= regions[i].colorIndex < |palette|
               && palette[regions[i].colorIndex].index == regions[i].colorIndex
    requires avgColors == AvgColors(coloured)
    ensures Assembled(grid, average, kmeans, palette, regions, avgColors)
    ensures |palette| <= MaxColours
    ensures forall i :: 0 <= i < |regions| ==>
              && regions[i].id == i + 1
              && regions[i].pixelCount > 0
              && 0 <= regions[i].colorIndex < |palette|
              && palette[regions[i].colorIndex].index == regions[i].colorIndex
    ensures BundlePixels(regions) == |labels| - Count(labels, 0)
  {
    BundlePixelsOfCounts(regions, counted);
    RegionsOfStages(grid, counted, coloured, average, regions, avgColors);
    PaletteOfStages(coloured, kmeans, palette, regions, avgColors);
  }

  /** What `process` returns for the component grid `labels`: the bundle
      assembled on its segmentation. */
  ghost predicate Processed(labels: seq<nat>, width: nat, numLabels: nat,
                            average: set<nat> -> seq<int>, kmeans: (seq<seq<int>>, nat) -> Clustering,
                            palette: seq<PaletteColor>, regions: seq<RegionInfo>, avgColors: seq<seq<int>>)
  {
    exists grid :: Segmented(labels, width, numLabels, grid) && Assembled(grid, average, kmeans, palette, regions, avgColors)
  }

  /** The bundle assembled on the segmentation of `labels` is the one `process` returns. */
  lemma BundleOfSegmentation(labels: seq<nat>, width: nat, numLabels: nat, grid: seq<nat>,
                             average: set<nat> -> seq<int>, kmeans: (seq<seq<int>>, nat) -> Clustering,
                             palette: seq<PaletteColor>, regions: seq<RegionInfo>, avgColors: seq<seq<int>>)
    requires Segmented(labels, width, numLabels, grid)
    requires Assembled(grid, average, kmeans, palette, regions, avgColors)
    ensures Processed(labels, width, numLabels, average, kmeans, palette, regions, avgColors)
  {
  }

  /** Lines 28-46 without the image codecs: segment the component grid,
      colour each region, build the palette. The result is the assembled
      bundle of the segmented grid; every region of it points at a palette
      entry carrying that index, the ids run 1, 2, ..., and the pixel counts
      cover the non-background pixels. `avgColors` are the regions'
      `avgColor` fields. */
  method Process(labels: seq<nat>, width: nat, numLabels: nat,
                 average: set<nat> -> seq<int>, kmeans: (seq<seq<int>>, nat) -> Clustering)
      returns (palette: seq<PaletteColor>, regions: seq<RegionInfo>, avgColors: seq<seq<int>>)
    requires forall p :: 0 <= p < |labels| ==> labels[p] < numLabels
    requires TrustedClustering(kmeans)
    ensures Processed(labels, width, numLabels, average, kmeans, palette, regions, avgColors)
    ensures |palette| <= MaxColours
    ensures forall i :: 0 <= i < |regions| ==>
              && regions[i].id == i + 1
              && regions[i].pixelCount > 0
              && 0 <= regions[i].colorIndex < |palette|
              && palette[regions[i].colorIndex].index == regions[i].colorIndex
    ensures BundlePixels(regions) == |labels| - Count(labels, 0)
  {
    var grid, mask, counted := SegmentRegions(labels, width, numLabels);
    var coloured := ComputeRegionColours(counted, grid, average);
    palette, regions := GeneratePalette(coloured, kmeans);
    avgColors := AvgColors(coloured);
    ProcessOfStages(labels, grid, counted, coloured, average, kmeans, palette, regions, avgColors);
    BundleOfSegmentation(labels, width, numLabels, grid, average, kmeans, palette, regions, avgColors);
  }
}
