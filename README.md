# Fill-by-region colouring game: a verified model of its core

The game takes a picture, splits it into numbered regions and gives every region a palette colour. The player arms a colour and taps regions of that colour to reveal the original picture under the line-art. This project models that core in Dafny and proves properties of the model. It covers:

- **the browser's fill engine:**
  - the compositor that builds the displayed RGBA buffer from the reference image, the line-art and the region mask;
  - the highlight overlay for the armed colour;
  - the viewport and its gesture handling: wheel, pinch and button zoom, mouse and one-finger panning, the tap-versus-drag rule and hit-testing;
  - the fill protocol of the game store;
  - the progress views derived from the filled set: remaining regions per colour, completed colours, the percentage and the completion overlay;
- **the backend's region bookkeeping:**
  - merging small regions into their largest neighbour;
  - dense renumbering of the surviving regions, the 8-bit mask and the per-region pixel counts;
  - per-region colours and the palette built around an external clustering.

Modules follow the source files:

| module | file | source |
|---|---|---|
| `Types` | types.dfy | the picture bundle and region lookup |
| `Compositor` | compositor.dfy | the base-layer and overlay loops of Canvas.tsx |
| `Viewport` | viewport.dfy | the gesture state of Canvas.tsx, as the class `CanvasView` |
| `Store` | store.dfy | store.ts, as the class `GameStore` |
| `Palette` | palette.dfy | Palette.tsx |
| `ProgressBar` | progress_bar.dfy | ProgressBar.tsx |
| `Celebration` | celebration.dfy | CompletionCelebration.tsx |
| `LabelGrid` | label_grid.dfy | pixel counts over label grids |
| `Merging` | merging.dfy | `_merge_small_regions` |
| `Renumbering` | renumbering.dfy | the renumbering, mask and region list in `_segment_regions` |
| `Segmentation` | segmentation.dfy | `_segment_regions`: merging followed by renumbering |
| `PaletteAssembly` | palette_assembly.dfy | `_compute_region_colors`, `_generate_palette_from_regions` and `process` |

How the model represents the source:

- **Imperative code stays imperative.** Loops become methods with invariants, proved against specification functions. Objects whose fields change become classes.
- **Numbers and buffers.** Screen positions are exact reals. Byte buffers are sequences of `Byte` (0..255). The backend's label arrays are sequences of `nat`, and its `region_sizes` dictionary is a sequence indexed by label, where a missing key reads as 0.

## Model

| member | source | states |
|---|---|---|
| Types.FindRegion | frontend/src/store.ts:58 | `regions.find`: found iff some region has the id, and then it is the first region carrying it |
| Types.FindRegionUnique | frontend/src/store.ts:58-59 | with unique ids, the region found for an id is the one at its position |
| Compositor.ComposeBase | frontend/src/components/Canvas.tsx:106-144 | the base-layer loop produces exactly `BaseLayer`: a copy of the reference with the line-art written over every pixel that shows line-art |
| Compositor.FindUnfilledNeighbour | frontend/src/components/Canvas.tsx:120-137 | the loop over the four offsets finds a neighbour iff some in-bounds 4-neighbour has an unfilled positive id |
| Compositor.BaseStep | frontend/src/components/Canvas.tsx:113-144 | one loop step writes the four line-art bytes of its pixel when it shows line-art, and otherwise nothing |
| Compositor.FilledPixelShowsReference | frontend/src/components/Canvas.tsx:116-118 | every byte of a filled region's pixel shows the reference image, whether or not a colour is armed |
| Compositor.UnfilledPixelShowsLineArt | frontend/src/components/Canvas.tsx:140-143 | every byte of an unfilled region's pixel shows line-art; only when its colour is armed do its RGB bytes show the blend |
| Compositor.BackgroundPixelRule | frontend/src/components/Canvas.tsx:120-137 | a background pixel shows line-art iff an in-bounds 4-neighbour is unfilled; it shows the reference otherwise, including when every neighbour is off-canvas, background or filled; it never glows |
| Compositor.FillingOnlyReveals | frontend/src/components/Canvas.tsx:116-137 | filling more regions never turns a reference pixel back into line-art |
| Compositor.ColorMapOf | frontend/src/components/Canvas.tsx:163-166 | the colour map's keys are exactly the region ids |
| Compositor.ColorMapLastWins | frontend/src/components/Canvas.tsx:163-166 | the last region carrying an id decides its colour |
| Compositor.BuildColorMap | frontend/src/components/Canvas.tsx:163-166 | the `Map.set` loop builds `ColorMapOf` |
| Compositor.ColorMapAgreesWithFind | frontend/src/components/Canvas.tsx:163-166 | with unique ids, the overlay's colour for a region is the colour the fill check sees |
| Compositor.OverlayStep | frontend/src/components/Canvas.tsx:176-187 | one overlay step changes only the RGB bytes of its pixel, and only when the pixel is unfilled and mapped to the armed colour |
| Compositor.ComposeOverlay | frontend/src/components/Canvas.tsx:150-190 | the overlay loop produces exactly `Overlay`: the base verbatim when no colour is armed, otherwise the base with the highlight |
| Compositor.OverlayTouchesOnlyHighlightedRgb | frontend/src/components/Canvas.tsx:158-187 | a displayed byte differs from the base only if a colour is armed, the byte is R, G or B, and its pixel is unfilled and mapped to that colour |
| Viewport.ClampScale | frontend/src/components/Canvas.tsx:247 | the result lies in [0.5, 5] and equals the input inside that range |
| Viewport.Center | frontend/src/components/Canvas.tsx:17-22 | the midpoint is equally far from both touches on each axis |
| Viewport.ToRaster | frontend/src/components/Canvas.tsx:192-205 | the floor of `(m - offset) / scale` is the raster column whose screen span holds m |
| Viewport.CoverUnique | frontend/src/components/Canvas.tsx:201-204 | only one raster column covers a screen position |
| Viewport.AnchorPreserved | frontend/src/components/Canvas.tsx:301-303 | zooming about an anchor keeps the raster point under the anchor |
| Viewport.PinchOffset | frontend/src/components/Canvas.tsx:249-251 | if the midpoint did not move, the raster point under it is kept; at ratio 1, the offset moves by exactly the midpoint's displacement |
| Viewport.Panned | frontend/src/components/Canvas.tsx:331-334 | the offset moves by exactly the pointer's displacement |
| Viewport.TapRule | frontend/src/components/Canvas.tsx:269 | releasing at the last pan point is a tap; releasing 10 or more away on some axis during a one-finger pan is not |
| Viewport.HitTest | frontend/src/components/Canvas.tsx:207-222 | returns an id only if it is positive and is the mask's red byte at the covered in-bounds raster pixel; returns none only if that pixel is off-canvas or background |
| Viewport.CanvasView.constructor | frontend/src/components/Canvas.tsx:31-40 | the initial state: scale 1, offset (0, 0), no pan, no pinch, phase 0 |
| Viewport.CanvasView.PictureChanged | frontend/src/components/Canvas.tsx:42-46 | opening a picture resets the scale to 1 and the offset to (0, 0) and touches nothing else |
| Viewport.CanvasView.TimerTick | frontend/src/components/Canvas.tsx:87-93 | the phase steps `(p + 1) % 30` only while a colour is selected, and stays in [0, 30) |
| Viewport.CanvasView.Click | frontend/src/components/Canvas.tsx:207-222 | no fill request during a pan, without a colour or without a mask; otherwise the hit-test result |
| Viewport.CanvasView.Wheel | frontend/src/components/Canvas.tsx:287-307 | the new scale is `clamp(scale ± 0.15)`; if unchanged, nothing changes; otherwise the raster point under the cursor is kept |
| Viewport.CanvasView.ZoomIn | frontend/src/components/Canvas.tsx:347-349 | the scale grows by 0.15 capped at 5, and the offset is unchanged |
| Viewport.CanvasView.ZoomOut | frontend/src/components/Canvas.tsx:351-353 | the scale shrinks by 0.15 floored at 0.5, and the offset is unchanged |
| Viewport.CanvasView.ResetView | frontend/src/components/Canvas.tsx:342-345 | scale 1, offset (0, 0) |
| Viewport.CanvasView.MouseDown | frontend/src/components/Canvas.tsx:316-322 | the middle or right button, or left with Alt, starts a pan at the pointer; otherwise nothing changes |
| Viewport.CanvasView.MouseMove | frontend/src/components/Canvas.tsx:328-336 | during a pan, the offset moves by the delta since the last pan point, which becomes the pointer; otherwise nothing changes |
| Viewport.CanvasView.MouseUp | frontend/src/components/Canvas.tsx:338-340 | the pan ends |
| Viewport.CanvasView.TouchStart | frontend/src/components/Canvas.tsx:224-233 | two touches record the distance and the midpoint; one touch starts a one-finger pan; any other count changes nothing |
| Viewport.CanvasView.TouchMove | frontend/src/components/Canvas.tsx:235-265 | pinch: no zoom while the last distance is 0; otherwise `scale' = clamp(scale · d / d₀)` and the new offset is exactly `PinchOffset` of the old offset and scale, the new scale, the new midpoint relative to the container, and the old and new midpoints, so the old midpoint's raster point stays put and the midpoint's displacement pans; the distance and midpoint are recorded; one-finger pan: the offset moves by the delta and the scale is unchanged; any other touch count changes nothing |
| Viewport.CanvasView.TouchEnd | frontend/src/components/Canvas.tsx:267-285 | when the last finger lifts, a tap with a mask and a colour requests the hit-test result; then the pan flag and the pinch distance are reset |
| Viewport.HandleClick | frontend/src/components/Canvas.tsx:207-222 | with no mouse pan, a selected colour and a loaded mask, the hit-test's id is filled as `AfterFill` states and, when the fill is accepted, exactly one save of the current picture's id and new filled set is appended; in every other case the filled set and the saves are unchanged |
| Viewport.HandleTouchEnd | frontend/src/components/Canvas.tsx:267-285 | when the last finger lifts, the one-finger pan and the pinch distance are reset; a tap with a selected colour and a loaded mask fills the hit-test's id as `AfterFill` states and appends exactly one save when accepted; with fingers still down, or for anything but such a tap, the store is unchanged |
| Store.FindPicture | frontend/src/store.ts:34 | `find` over the picture list: found iff some picture has the id, and then it is the first such picture |
| Store.AfterFill | frontend/src/store.ts:54-63 | a fill only adds, adds at most the given id, adds it iff the fill is accepted, and adds only ids of the open picture |
| Store.FillIdempotent | frontend/src/store.ts:61-63 | filling the same id twice is filling it once |
| Store.FillCommutes | frontend/src/store.ts:61-63 | fills of two ids commute |
| Store.FillKeepsRegionIds | frontend/src/store.ts:58-63 | a filled set made of the picture's region ids stays one |
| Store.GameStore.constructor | frontend/src/store.ts:20-25 | the initial state: no pictures, no open picture, no colour, nothing filled, nothing saved |
| Store.GameStore.FetchPictures | frontend/src/store.ts:27-30 | the list becomes the stored list |
| Store.GameStore.SelectPicture | frontend/src/store.ts:32-39 | if found, the picture opens with its stored progress as the filled set; otherwise nothing changes; the colour is never reset |
| Store.GameStore.DeletePicture | frontend/src/store.ts:41-48 | the open picture and the filled set are cleared only when the open picture is the one deleted; the list is refetched |
| Store.GameStore.SelectColor | frontend/src/store.ts:50-52 | any index is selected, unchecked |
| Store.GameStore.SaveProgress | frontend/src/store.ts:67-71 | with a picture open, one save of its id and filled set is recorded; otherwise nothing |
| Store.GameStore.FillRegion | frontend/src/store.ts:54-65 | rejected without a picture, without a colour, without a region of that id, or when the first such region has another colour: then nothing changes and nothing is saved; accepted: the id is added and exactly one save is recorded |
| Palette.ColourCount | frontend/src/components/Palette.tsx:11-13 | at most the number of regions |
| Palette.UnfilledCount | frontend/src/components/Palette.tsx:11-13 | at most the regions of the colour, and 0 iff every region of the colour is filled |
| Palette.Remaining | frontend/src/components/Palette.tsx:10-14 | 0 without a picture; otherwise at most the colour's regions, and 0 iff all of them are filled |
| Palette.UnusedColourComplete | frontend/src/components/Palette.tsx:16-25 | a colour that no region uses has nothing remaining |
| Palette.FillOneRegion | frontend/src/components/Palette.tsx:10-14 | filling a new region lowers its colour's count by one and no other colour's |
| Palette.FillOther | frontend/src/components/Palette.tsx:10-14 | adding an id that no region carries changes no count |
| Palette.AcceptedFillCounts | frontend/src/components/Palette.tsx:10-14 | an accepted fill of a new id lowers the selected colour's remaining count by exactly one and leaves every other colour's alone |
| Palette.CompletedOf | frontend/src/components/Palette.tsx:16-25 | an index is complete iff some palette entry carries it and nothing of it remains |
| Palette.IncompleteColors | frontend/src/components/Palette.tsx:29 | an entry is shown iff it is in the palette and not complete |
| Palette.IncompleteColorsKeepsOrder | frontend/src/components/Palette.tsx:29 | the filter distributes over concatenation, so palette order is kept |
| Palette.AllColoursDone | frontend/src/components/Palette.tsx:57 | the all-done message shows iff every palette colour has nothing remaining |
| Palette.PaletteView.constructor | frontend/src/components/Palette.tsx:8 | the completed-colour set starts empty |
| Palette.PaletteView.Refresh | frontend/src/components/Palette.tsx:16-25 | without a picture the set is kept; otherwise the loop rebuilds exactly `CompletedOf` |
| Palette.PaletteView.Shown | frontend/src/components/Palette.tsx:29 | the shown entries are exactly the palette entries not completed |
| ProgressBar.Percentage | frontend/src/components/ProgressBar.tsx:7-11 | nothing without a picture; 0 with no regions; otherwise `round(100 f / t)`, rounded half up |
| ProgressBar.FullPercentage | frontend/src/components/ProgressBar.tsx:9-11 | every region filled shows 100 |
| ProgressBar.PercentageMonotone | frontend/src/components/ProgressBar.tsx:11 | never falls as more regions are filled |
| ProgressBar.PercentageRange | frontend/src/components/ProgressBar.tsx:11 | lies in [0, 100] while filled ≤ total |
| ProgressBar.RoundingBounds | frontend/src/components/ProgressBar.tsx:11 | the rounding bracket determines the rounded value uniquely |
| Celebration.TotalRegions | frontend/src/components/CompletionCelebration.tsx:10 | 0 without a picture |
| Celebration.NoPictureNeverComplete | frontend/src/components/CompletionCelebration.tsx:10-11 | without a picture nothing is complete |
| Celebration.CompleteShowsFullBar | frontend/src/components/CompletionCelebration.tsx:10-11 | a complete picture shows 100 % |
| Celebration.RegionIdsCount | frontend/src/components/CompletionCelebration.tsx:10-11 | with unique ids, a picture has as many ids as regions |
| Celebration.CompleteIffAllFilled | frontend/src/components/CompletionCelebration.tsx:10-11 | with a filled set of region ids, complete iff every region is filled, and then no colour has anything remaining |
| Celebration.CelebrationView.constructor | frontend/src/components/CompletionCelebration.tsx:7 | the overlay starts hidden |
| Celebration.CelebrationView.Render | frontend/src/components/CompletionCelebration.tsx:13-15 | `show` is raised when completion changes to true and is never lowered here |
| Celebration.CelebrationView.HandleComplete | frontend/src/components/CompletionCelebration.tsx:26-29 | hides the overlay, closes the picture and empties the filled set, leaving the colour alone |
| LabelGrid.Count | backend/image_processor.py:114 | the count is at most the length, and 0 iff the value is absent |
| LabelGrid.CountRangeTotal | backend/image_processor.py:127-131 | the counts of labels 1..k-1 plus the zeros make up the whole grid |
| LabelGrid.CountRangeSplit | backend/image_processor.py:127-131 | a range of counts splits at any midpoint |
| Merging.InitialSizes | backend/image_processor.py:127-131 | the size loop records each label's pixel count |
| Merging.InitialSizesTotal | backend/image_processor.py:127-131 | the recorded sizes add up to the non-zero pixels |
| Merging.SumUpdate | backend/image_processor.py:161-162 | updating one size changes the sum by the difference |
| Merging.SmallCandidatesMembers | backend/image_processor.py:134-135 | a label is a candidate iff it is positive and its recorded size is positive and below the threshold |
| Merging.SmallCandidatesAscending | backend/image_processor.py:134-135 | the candidates come in ascending label order, as the dictionary lists them |
| Merging.InsertBySizePerm | backend/image_processor.py:134-137 | the insertion step is a permutation |
| Merging.InsertBySizeOrdered | backend/image_processor.py:134-137 | the insertion step keeps the list ordered by size, with ties in label order |
| Merging.SortBySizeSpec | backend/image_processor.py:134-137 | the stable sort by size is ordered and a permutation |
| Merging.SmallRegions | backend/image_processor.py:134-137 | the small list is ordered by size (stably) and holds exactly the small positive labels with their sizes |
| Merging.NeighbourIds | backend/image_processor.py:143-150 | every neighbour is positive, differs from the small id and occurs in the grid |
| Merging.BestNeighbour | backend/image_processor.py:156-157 | the chosen neighbour has the largest recorded size, with the smallest id winning ties |
| Merging.BestUnique | backend/image_processor.py:156-157 | that choice is unique |
| Merging.Replaced | backend/image_processor.py:160 | replacing keeps the length |
| Merging.ReplaceLabel | backend/image_processor.py:160 | the in-place loop writes exactly `Replaced` |
| Merging.MoveSize | backend/image_processor.py:161-162 | the best neighbour absorbs the small region's size, and the small region's size becomes 0 |
| Merging.MovedSum | backend/image_processor.py:161-162 | moving a size keeps the sum |
| Merging.MergeRegion | backend/image_processor.py:139-162 | one merge: skipped if the recorded size is 0 or there is no neighbour; otherwise the best neighbour takes over the region's pixels and size |
| Merging.MergeStepFacts | backend/image_processor.py:139-162 | a merge keeps the lengths and the sum of sizes, and changes a pixel only from the small id to a positive, different id |
| Merging.MergeChangesOnlySmallRegion | backend/image_processor.py:143-160 | a changed pixel carried the small id and now carries a positive, different id found within the 7×7 window |
| Merging.MergeStepKeeps | backend/image_processor.py:139-162 | the loop invariant survives a merge: zeros stay zero, and only pixels of initially small regions change |
| Merging.MergeStepUnique | backend/image_processor.py:139-162 | one merge step has exactly one outcome |
| Merging.MergesAllSnoc | backend/image_processor.py:139-162 | merging the next small region extends the run over the list prefix by one step |
| Merging.MergesAllUnique | backend/image_processor.py:139-162 | merging the listed small regions one after another, in list order, has exactly one outcome |
| Merging.MergesAllSum | backend/image_processor.py:139-162 | the run keeps the grid's length, the number of sizes and their sum, and every label stays a valid size index |
| Merging.MergedUnique | backend/image_processor.py:122-164 | the merged grid is determined by the input grid, the label count and the threshold |
| Merging.MergedTotal | backend/image_processor.py:122-164 | the merged grid keeps the length and labels below the label count, and the initial sizes add up to the non-zero pixels |
| Merging.MergeSmallRegions | backend/image_processor.py:122-164 | the result is the one merge run (`Merged`) over the regions smaller than the threshold, taken once from the initial sizes and listed by ascending size (ties by ascending id), each merged into its best neighbour with the sizes updated; labels stay below the label count; 0 stays 0 and nothing else becomes 0; only pixels of regions smaller than the threshold change |
| Renumbering.InsertSorted | backend/image_processor.py:100 | inserting keeps the list strictly ascending, with the new element added |
| Renumbering.UniquePositive | backend/image_processor.py:100-101 | the positive labels, each once, ascending |
| Renumbering.IndexOf | backend/image_processor.py:103 | the position holds the value |
| Renumbering.IndexOfAt | backend/image_processor.py:103 | each element is found at its own position |
| Renumbering.NewId | backend/image_processor.py:103-104 | 0 iff the label is 0; at most k |
| Renumbering.NewIdOrder | backend/image_processor.py:100-103 | the renumbering is an order-preserving bijection on positive labels |
| Renumbering.RelabelDense | backend/image_processor.py:99-108 | the positive ids are exactly 1..k, and exactly the 0 pixels stay 0 |
| Renumbering.RelabelPreservesOrder | backend/image_processor.py:100-108 | two positive pixels compare after renumbering as before |
| Renumbering.MaskAliases | backend/image_processor.py:110 | two pixels share a mask byte exactly when their ids agree modulo 256; a pixel is 0 in the mask exactly when its id is a multiple of 256; ids below 256 are kept; so 257 maps to 1 and 256 to 0 |
| Renumbering.TotalPixelsOfRegions | backend/image_processor.py:112-118 | the listed counts add up to the counts of ids 1..k |
| Renumbering.SameZeros | backend/image_processor.py:104-108 | grids with zeros in the same places have the same number of zeros |
| Renumbering.RegionCountsTotal | backend/image_processor.py:112-118 | the pixel counts add up to the non-zero input pixels |
| Renumbering.RenumberPixels | backend/image_processor.py:106-108 | the loop writes each pixel's new id, so the array is exactly the renumbered grid |
| Renumbering.CountRegions | backend/image_processor.py:112-118 | the loop lists ids 1..k in order, each with its pixel count |
| Renumbering.RenumberedRegions | backend/image_processor.py:99-118 | on the renumbered grid the regions are numbered 1, 2, …, none empty, their counts add up to the non-zero pixels, and exactly the 0 pixels stay 0 |
| Renumbering.RegionsNonEmpty | backend/image_processor.py:112-118 | when every id 1..k occurs in the grid, every listed region has at least one pixel |
| Renumbering.Relabel | backend/image_processor.py:99-120 | the loops write the renumbered grid, the mask `id % 256` and the regions 1..k with their counts; every region is non-empty and the counts cover the non-zero pixels |
| Segmentation.RenumberedFacts | backend/image_processor.py:97-118 | renumbering the merged grid keeps the component grid's background, and the listed counts cover its non-background pixels |
| Segmentation.SegmentedUnique | backend/image_processor.py:92-120 | the segmented grid is determined by the input |
| Segmentation.SegmentRegions | backend/image_processor.py:92-120 | the grid is the renumbering of the merged labels (`Segmented`); the mask is its ids modulo 256; the regions are the ids 1..k in order, each with its count, all non-empty; they cover exactly the non-background pixels; 0 stays 0 |
| PaletteAssembly.ClusterCount | backend/image_processor.py:188 | `min(30, n)`, positive for positive n |
| PaletteAssembly.Channel | backend/image_processor.py:197 | truncation of a channel in [0, 255] |
| PaletteAssembly.DigitValue | backend/image_processor.py:200 | a digit value exists iff the character is a lowercase hex digit |
| PaletteAssembly.HexDigit | backend/image_processor.py:200 | a lowercase hex digit that parses back to its value |
| PaletteAssembly.DigitCanonical | backend/image_processor.py:200 | each lowercase digit is the one printed for its value |
| PaletteAssembly.Hex2 | backend/image_processor.py:200 | `:02x` gives two lowercase hex digits |
| PaletteAssembly.Hex2RoundTrip | backend/image_processor.py:200 | parsing `:02x` gives the byte back |
| PaletteAssembly.Hex2Canonical | backend/image_processor.py:200 | the only two-digit lowercase spelling of a byte is `:02x` |
| PaletteAssembly.HexColour | backend/image_processor.py:200 | `#` followed by six lowercase hex digits |
| PaletteAssembly.HexColourRoundTrip | backend/image_processor.py:200 | the hex string parses back to the channels |
| PaletteAssembly.HexColourInjective | backend/image_processor.py:200 | different colours get different strings |
| PaletteAssembly.PaletteEntry | backend/image_processor.py:196-202 | an entry carries its index, three channels in [0, 255], and a hex string that parses to them |
| PaletteAssembly.AvgColors | backend/image_processor.py:183 | one colour per region, in order, each the region's `avgColor` |
| PaletteAssembly.GeneratePalette | backend/image_processor.py:178-207 | empty input gives `([], [])`; otherwise min(30, n) entries indexed in order from the cluster centres, and region i gets cluster label i, which indexes the palette |
| PaletteAssembly.PixelsWith | backend/image_processor.py:169 | exactly the pixels that carry the value |
| PaletteAssembly.PixelsWithCount | backend/image_processor.py:169-170 | the set has as many pixels as the count |
| PaletteAssembly.RegionColour | backend/image_processor.py:166-176 | the average over the region's pixels, or [128, 128, 128] when it has none |
| PaletteAssembly.MaskMissesHighIds | backend/image_processor.py:169 | as written, an id of 256 or more never matches a mask byte and gets grey even though it has pixels |
| PaletteAssembly.MaskColourCounterexample | backend/image_processor.py:110-169 | with 257 one-pixel regions, region 257 gets grey and region 1 averages two pixels as written, while the corrected rule averages each region's own pixel |
| PaletteAssembly.MaskExactBelow256 | backend/image_processor.py:110-169 | when every id is below 256, the as-written rule and the corrected rule agree |
| PaletteAssembly.DenseIsFixed | backend/image_processor.py:99-108 | a grid numbered 1, 2, … pixel by pixel is left unchanged by the renumbering |
| PaletteAssembly.ComputeRegionColours | backend/image_processor.py:166-176 | one colour per region, in order, each its `RegionColour` |
| PaletteAssembly.ListedRegionColour | backend/image_processor.py:169-173 | a listed region has exactly its pixel count of pixels, so it gets their average and never grey |
| PaletteAssembly.BundlePixelsOfCounts | backend/image_processor.py:204-207 | assigning colours keeps the pixel counts' total |
| PaletteAssembly.RegionsOfStages | backend/image_processor.py:166-176 | the counted regions and their `RegionColour` colours, carried into the region list, give regions 1..n with their pixel counts and average colours |
| PaletteAssembly.PaletteOfStages | backend/image_processor.py:178-207 | the entries built from the cluster centres, with each region's cluster label as its colour index, are the palette half of the bundle; the trusted clustering returns a valid result |
| PaletteAssembly.ProcessOfStages | backend/image_processor.py:28-46 | chaining the counted regions, their colours and the clustered palette gives `Assembled`: region i + 1 with its count and colour `RegionColour`, the palette entries `PaletteEntry` of the cluster centres of those colours, and region i's colour index the cluster label; the regions are non-empty and their counts keep the total |
| PaletteAssembly.Process | backend/image_processor.py:28-46 | for the segmented grid of the input (`Segmented`), the result is `Assembled`: region i + 1 with its pixel count, average colour `RegionColour` and cluster label as colour index, and the palette the `PaletteEntry` of each cluster centre of those colours; at most 30 palette entries; each region non-empty and pointing at a palette entry carrying that index; the counts cover the non-background pixels |

## Left out

- Image loading and display (`Image` decoding, `drawImage`, `getImageData`, `putImageData`) are not modelled. The three buffers are equal-length inputs.
- Container geometry (`getBoundingClientRect`) is not modelled. The container's top-left corner is an input point.
- Browser plumbing is left out: event listener registration, `preventDefault`, the context menu, cursors and the button markup.
- Compositor.ComposeOverlay: the `sin`-based highlight intensity and the `Math.round` blend are floating point. The blend is a caller-supplied byte function `mix`, and only which bytes it may change is proved.
- Viewport.CanvasView.TouchStart, Viewport.CanvasView.TouchMove: `Math.hypot` is floating point, so the distance between two touches is an input. Positions and scales are exact reals, not IEEE doubles.
- The `regionColorMap` built in the base-layer effect (Canvas.tsx lines 99-102) is never used and has no effect, so it is not modelled.
- React's asynchronous state updates and stale closures are not modelled. Each handler reads the state as it was when the event arrived and writes its updates at once.
- Persistence is not modelled: db.ts, pictureStore.ts and settingsStore.ts (IndexedDB, localStorage, promises, random ids). The picture store's list and stored progress are inputs, and every `saveProgress` call it receives is recorded in `GameStore.saved`.
- Store.GameStore: the `loading` flag only drives a spinner and is not modelled.
- backend/app.py is not part of this model. It is an HTTP endpoint and a remote image-generation call.
- OpenCV work is foreign numerics and is left out:
  - line-art generation (`_generate_lineart_from_original`, `_process_vlm_lineart`);
  - the thresholding;
  - `connectedComponents`, whose label grid and label count are inputs of `Segmentation.SegmentRegions`.
- The `cv2.dilate` with a 7×7 kernel is modelled as "in-bounds pixels within Chebyshev distance 3 of a pixel of the region" (`LabelGrid.Near`).
- Numpy's vectorised comparisons and assignments are modelled as per-pixel loops and comprehensions.
- PaletteAssembly.GeneratePalette: the colour clustering is not modelled. The Lab conversion, KMeans and the conversion back to RGB are one caller-supplied function, `kmeans`. It is trusted to return one label per colour, each below the cluster count, and that many centres with channels in [0, 255].
- PaletteAssembly.Process: each region's `avgColor`, which the returned region dicts carry, is returned as the separate sequence `avgColors`, index for index, because `Types.RegionInfo` mirrors the front end's region type.
- PaletteAssembly.ComputeRegionColours: the mean of a region's pixels is a caller-supplied function `average` of the pixel set. The model also uses the corrected pixel selection (see Findings), not the mask comparison as written.
- PNG and base64 encoding of the images are not modelled.
- The UI-only components are not modelled: Upload.tsx, PictureList.tsx, SettingsDialog.tsx and App.tsx.
- The confetti in CompletionCelebration.tsx is random and is not modelled.
- ProgressBar.Percentage: rounding is exact rational rounding, half up. The browser's floating-point `Math.round(100 * f / t)` may differ at exact .5 ties.
- types.ts declares interfaces only. It is mirrored by the datatypes of `Types`.

## Findings

| source | as written | input that shows it | evidently intended | confidence | as-written member | corrected member |
|---|---|---|---|---|---|---|
| backend/image_processor.py:169 (with 110) | The pixels of a region are selected by comparing the 8-bit mask, `id % 256`, with the region id. An id of 256 or more never matches, so its region gets the grey fallback. Region j also collects the pixels of j + 256, j + 512, and so on. | A segmentation with 257 one-pixel regions numbered 1..257: region 257 gets [128, 128, 128], and region 1 averages its own pixel and region 257's. | Each region's colour is the average of exactly its own pixels. | not executed | PaletteAssembly.MaskColourCounterexample | PaletteAssembly.ListedRegionColour |
