/** The canvas viewport and its gesture handling (frontend/src/components/Canvas.tsx):
    scale and offset, wheel / pinch / button zoom, mouse and one-finger panning,
    the tap-versus-drag rule, hit-testing and the highlight animation phase.
    Positions are exact reals; `container` is the container's top-left corner
    on screen and `client` an event's screen position. */
module Viewport {
  import opened Types
  import Compositor
  import Store

  const MinScale: real := 0.5
  const MaxScale: real := 5.0
  const ScaleStep: real := 0.15
  /** A one-finger gesture is a tap when it ends closer than this on both axes. */
  const TapSlop: real := 10.0
  /** The highlight phase counts 0 .. PhaseCount - 1, one step per 40 ms tick. */
  const PhaseCount: int := 30

  datatype Point = Point(x: real, y: real)

  /** A decoded image: its size and its RGBA bytes. */
  datatype ImageData = ImageData(width: nat, height: nat, data: seq<Byte>)

  predicate WellFormed(img: ImageData)
  {
    Compositor.IsRaster(img.data, img.width, img.height)
  }

  function Abs(r: real): real
  {
    if r < 0.0 then -r else r
  }

  function Max(a: real, b: real): real
  {
    if a >= b then a else b
  }

  function Min(a: real, b: real): real
  {
    if a <= b then a else b
  }

  /** `Math.min(MAX_SCALE, Math.max(MIN_SCALE, v))`. */
  function ClampScale(v: real): (r: real)
    ensures MinScale <= r <= MaxScale
    ensures MinScale <= v <= MaxScale ==> r == v
    ensures v < MinScale ==> r == MinScale
    ensures v > MaxScale ==> r == MaxScale
  {
    Min(MaxScale, Max(MinScale, v))
  }

  /** `getCenter`: the midpoint of two touches. */
  function Center(a: Point, b: Point): (c: Point)
    ensures c.x - a.x == b.x - c.x && c.y - a.y == b.y - c.y
  {
    Point((a.x + b.x) / 2.0, (a.y + b.y) / 2.0)
  }

  /** The position of `client` inside the container. */
  function Relative(client: Point, container: Point): Point
  {
    Point(client.x - container.x, client.y - container.y)
  }

  /** The raster position (not rounded) drawn at container position m. */
  function RasterPoint(m: real, offset: real, scale: real): real
    requires scale > 0.0
  {
    (m - offset) / scale
  }

  /** Raster column (or row) x is drawn over [offset + x * scale, offset + (x + 1) * scale). */
  predicate Covers(m: real, offset: real, scale: real, x: int)
  {
    x as real * scale <= m - offset < (x + 1) as real * scale
  }

  /** `Math.floor((m - offset) / scale)`: the raster column whose screen span holds m. */
  function ToRaster(m: real, offset: real, scale: real): (x: int)
    requires scale > 0.0
    ensures Covers(m, offset, scale, x)
  {
    var q := (m - offset) / scale;
    var f := q.Floor;
    assert q * scale == m - offset;
    assert f as real * scale <= q * scale;
    assert q * scale < (f + 1) as real * scale;
    f
  }

  /** Only one raster column covers a given position. */
  lemma CoverUnique(m: real, offset: real, scale: real, x: int, x': int)
    requires scale > 0.0
    requires Covers(m, offset, scale, x) && Covers(m, offset, scale, x')
    ensures x == x'
  {
    ScaledLess(x, x' + 1, scale);
    ScaledLess(x', x + 1, scale);
  }

  /** Dividing out a positive scale. */
  lemma ScaledLess(a: int, b: int, scale: real)
    requires scale > 0.0 && a as real * scale < b as real * scale
    ensures a < b
  {
    assert (b as real - a as real) * scale > 0.0;
  }

  /** The offset that keeps the raster point under `anchor` in place when the
      scale is multiplied by `ratio`. */
  function AnchoredOffset(anchor: real, offset: real, ratio: real): real
  {
    anchor - (anchor - offset) * ratio
  }

  /** Zooming from `scale` to `newScale` about an anchor keeps the raster point under it. */
  lemma AnchorPreserved(anchor: real, offset: real, scale: real, newScale: real)
    requires scale > 0.0 && newScale > 0.0
    ensures RasterPoint(anchor, AnchoredOffset(anchor, offset, newScale / scale), newScale)
            == RasterPoint(anchor, offset, scale)
  {
    var d := anchor - offset;
    var r := newScale / scale;
    assert anchor - AnchoredOffset(anchor, offset, r) == d * r;
    assert r * scale == newScale;
    assert (d * r) / newScale * scale == d * r * scale / newScale == d;
  }

  /** The offset after a pinch step (lines 244-254): zoom by the actual ratio
      newScale / scale about the new midpoint `anchor`, then pan by the
      midpoint's displacement. A pinch that keeps the midpoint still keeps
      the raster point under it; one whose scale does not change is a pan. */
  function PinchOffset(offset: Point, scale: real, newScale: real, anchor: Point, from: Point, to: Point): (r: Point)
    requires scale > 0.0 && newScale > 0.0
    ensures from == to ==> RasterPoint(anchor.x, r.x, newScale) == RasterPoint(anchor.x, offset.x, scale)
                           && RasterPoint(anchor.y, r.y, newScale) == RasterPoint(anchor.y, offset.y, scale)
    ensures newScale == scale ==> r == Panned(offset, from, to)
  {
    var ratio := newScale / scale;
    AnchorPreserved(anchor.x, offset.x, scale, newScale);
    AnchorPreserved(anchor.y, offset.y, scale, newScale);
    Point(AnchoredOffset(anchor.x, offset.x, ratio) + (to.x - from.x),
          AnchoredOffset(anchor.y, offset.y, ratio) + (to.y - from.y))
  }

  /** Panning: move the offset by the pointer's displacement since the last event. */
  function Panned(offset: Point, from: Point, to: Point): (r: Point)
    ensures r.x - offset.x == to.x - from.x && r.y - offset.y == to.y - from.y
  {
    Point(offset.x + (to.x - from.x), offset.y + (to.y - from.y))
  }

  /** The tap-versus-drag rule at the end of a touch: a tap unless a one-finger
      pan was under way and moved at least TapSlop from the last pan point on
      some axis. */
  predicate IsTap(touchPanning: bool, lastPanPoint: Point, released: Point)
  {
    !touchPanning
    || (Abs(released.x - lastPanPoint.x) < TapSlop && Abs(released.y - lastPanPoint.y) < TapSlop)
  }

  /** Releasing where the last move left the finger is always a tap; a release
      TapSlop or more away on an axis during a pan is never one. */
  lemma TapRule(touchPanning: bool, lastPanPoint: Point, released: Point)
    ensures released == lastPanPoint ==> IsTap(touchPanning, lastPanPoint, released)
    ensures touchPanning && (Abs(released.x - lastPanPoint.x) >= TapSlop || Abs(released.y - lastPanPoint.y) >= TapSlop)
            ==> !IsTap(touchPanning, lastPanPoint, released)
  {
  }

  /** The hit-test of a tap or click: the region id under the pointer, if the
      pointer is over the picture and not over background. */
  function HitTest(mask: ImageData, client: Point, container: Point, offset: Point, scale: real): (r: Option<int>)
    requires scale > 0.0 && WellFormed(mask)
    ensures r.Some? ==> r.value > 0
    ensures r.Some? ==> exists x, y :: Compositor.InBounds(x, y, mask.width, mask.height)
                          && Covers(client.x - container.x, offset.x, scale, x)
                          && Covers(client.y - container.y, offset.y, scale, y)
                          && Compositor.MaskIdAt(mask.data, mask.width, mask.height, x, y) == r.value
    ensures r.None? ==> forall x, y :: Compositor.InBounds(x, y, mask.width, mask.height)
                          && Covers(client.x - container.x, offset.x, scale, x)
                          && Covers(client.y - container.y, offset.y, scale, y)
                          ==> Compositor.MaskIdAt(mask.data, mask.width, mask.height, x, y) == 0
  {
    var m := Relative(client, container);
    var x := ToRaster(m.x, offset.x, scale);
    var y := ToRaster(m.y, offset.y, scale);
    assert forall x', y' :: Covers(m.x, offset.x, scale, x') && Covers(m.y, offset.y, scale, y')
                            ==> x' == x && y' == y by {
      forall x', y' | Covers(m.x, offset.x, scale, x') && Covers(m.y, offset.y, scale, y')
        ensures x' == x && y' == y
      {
        CoverUnique(m.x, offset.x, scale, x, x');
        CoverUnique(m.y, offset.y, scale, y, y');
      }
    }
    if x < 0 || y < 0 || x >= mask.width || y >= mask.height then None
    else
      Compositor.PixelIndexInRange(x, y, mask.width, mask.height);
      var regionId := mask.data[(y * mask.width + x) * 4];
      assert Compositor.MaskIdAt(mask.data, mask.width, mask.height, x, y) == regionId;
      if regionId > 0 then Some(regionId) else None
  }

  /** The gesture and viewport state of the canvas component. */
  class CanvasView {
    var scale: real
    var offset: Point
    var isPanning: bool
    var lastPanPoint: Point
    var lastTouchDistance: real
    var lastTouchCenter: Point
    var isTouchPanning: bool
    var highlightPhase: int

    ghost predicate Valid()
      reads this
    {
      MinScale <= scale <= MaxScale && lastTouchDistance >= 0.0 && 0 <= highlightPhase < PhaseCount
    }

    constructor ()
      ensures Valid()
      ensures scale == 1.0 && offset == Point(0.0, 0.0)
      ensures !isPanning && lastPanPoint == Point(0.0, 0.0)
      ensures lastTouchDistance == 0.0 && lastTouchCenter == Point(0.0, 0.0) && !isTouchPanning
      ensures highlightPhase == 0
    {
      scale := 1.0;
      offset := Point(0.0, 0.0);
      isPanning := false;
      lastPanPoint := Point(0.0, 0.0);
      lastTouchDistance := 0.0;
      lastTouchCenter := Point(0.0, 0.0);
      isTouchPanning := false;
      highlightPhase := 0;
    }

    /** Opening a picture resets the view to scale 1, offset (0, 0). */
    method PictureChanged(hasPicture: bool)
      requires Valid()
      modifies this
      ensures Valid()
      ensures hasPicture ==> scale == 1.0 && offset == Point(0.0, 0.0)
      ensures !hasPicture ==> scale == old(scale) && offset == old(offset)
      ensures isPanning == old(isPanning) && lastPanPoint == old(lastPanPoint)
      ensures lastTouchDistance == old(lastTouchDistance) && lastTouchCenter == old(lastTouchCenter)
      ensures isTouchPanning == old(isTouchPanning) && highlightPhase == old(highlightPhase)
    {
      if hasPicture {
        scale := 1.0;
        offset := Point(0.0, 0.0);
      }
    }

    /** One tick of the 40 ms highlight timer, which runs only while a colour is selected. */
    method TimerTick(selected: Option<int>)
      requires Valid()
      modifies this`highlightPhase
      ensures Valid()
      ensures highlightPhase == if selected.Some? then (old(highlightPhase) + 1) % PhaseCount else old(highlightPhase)
    {
      if selected.Some? {
        highlightPhase := (highlightPhase + 1) % PhaseCount;
      }
    }

    /** A click: a hit-test fill request, unless the mask is not loaded, no
        colour is selected or a mouse pan is under way. */
    method Click(client: Point, container: Point, mask: Option<ImageData>, selected: Option<int>)
      returns (fill: Option<int>)
      requires Valid() && (mask.Some? ==> WellFormed(mask.value))
      ensures isPanning || selected.None? || mask.None? ==> fill.None?
      ensures !isPanning && selected.Some? && mask.Some? ==>
                fill == HitTest(mask.value, client, container, offset, scale)
    {
      if mask.None? || selected.None? || isPanning {
        return None;
      }
      fill := HitTest(mask.value, client, container, offset, scale);
    }

    /** The wheel: one notch zooms by ScaleStep (out when deltaY > 0), clamped,
        about the cursor. */
    method Wheel(client: Point, container: Point, deltaY: real)
      requires Valid()
      modifies this`scale, this`offset
      ensures Valid()
      ensures scale == ClampScale(old(scale) + if deltaY > 0.0 then -ScaleStep else ScaleStep)
      ensures scale == old(scale) ==> offset == old(offset)
      ensures var m := Relative(client, container);
              && RasterPoint(m.x, offset.x, scale) == RasterPoint(m.x, old(offset.x), old(scale))
              && RasterPoint(m.y, offset.y, scale) == RasterPoint(m.y, old(offset.y), old(scale))
    {
      var mouse := Relative(client, container);
      var delta := if deltaY > 0.0 then -ScaleStep else ScaleStep;
      var newScale := ClampScale(scale + delta);
      if newScale == scale {
        return;
      }
      var scaleRatio := newScale / scale;
      AnchorPreserved(mouse.x, offset.x, scale, newScale);
      AnchorPreserved(mouse.y, offset.y, scale, newScale);
      offset := Point(AnchoredOffset(mouse.x, offset.x, scaleRatio), AnchoredOffset(mouse.y, offset.y, scaleRatio));
      scale := newScale;
    }

    /** The zoom-in button: scale + ScaleStep, capped at MaxScale; offset unchanged. */
    method ZoomIn()
      requires Valid()
      modifies this`scale
      ensures Valid()
      ensures scale == Min(MaxScale, old(scale) + ScaleStep) && scale >= old(scale)
    {
      scale := Min(MaxScale, scale + ScaleStep);
    }

    /** The zoom-out button: scale - ScaleStep, floored at MinScale; offset unchanged. */
    method ZoomOut()
      requires Valid()
      modifies this`scale
      ensures Valid()
      ensures scale == Max(MinScale, old(scale) - ScaleStep) && scale <= old(scale)
    {
      scale := Max(MinScale, scale - ScaleStep);
    }

    /** The reset button. */
    method ResetView()
      requires Valid()
      modifies this`scale, this`offset
      ensures Valid()
      ensures scale == 1.0 && offset == Point(0.0, 0.0)
    {
      scale := 1.0;
      offset := Point(0.0, 0.0);
    }

    /** Mouse down: the middle or right button, or the left button with Alt,
        starts a pan at the pointer. */
    method MouseDown(button: int, altKey: bool, client: Point)
      requires Valid()
      modifies this`isPanning, this`lastPanPoint
      ensures Valid()
      ensures var starts := button == 1 || button == 2 || (button == 0 && altKey);
              && isPanning == (starts || old(isPanning))
              && lastPanPoint == if starts then client else old(lastPanPoint)
    {
      if button == 1 || button == 2 || (button == 0 && altKey) {
        isPanning := true;
        lastPanPoint := client;
      }
    }

    /** Mouse move during a pan: incremental panning by the delta since the last event. */
    method MouseMove(client: Point)
      requires Valid()
      modifies this`offset, this`lastPanPoint
      ensures Valid()
      ensures old(isPanning) ==> offset == Panned(old(offset), old(lastPanPoint), client) && lastPanPoint == client
      ensures !old(isPanning) ==> offset == old(offset) && lastPanPoint == old(lastPanPoint)
    {
      if !isPanning {
        return;
      }
      offset := Panned(offset, lastPanPoint, client);
      lastPanPoint := client;
    }

    /** Mouse up or leaving the container ends a pan. */
    method MouseUp()
      requires Valid()
      modifies this`isPanning
      ensures Valid() && !isPanning
    {
      isPanning := false;
    }

    /** Touch start: two touches record the pinch distance and midpoint; one
        touch starts a one-finger pan. `distance` is the distance between the
        first two touches. */
    method TouchStart(touches: seq<Point>, distance: real)
      requires Valid() && distance >= 0.0
      modifies this`lastTouchDistance, this`lastTouchCenter, this`isTouchPanning, this`lastPanPoint
      ensures Valid()
      ensures |touches| == 2 ==> lastTouchDistance == distance && lastTouchCenter == Center(touches[0], touches[1])
                                 && isTouchPanning == old(isTouchPanning) && lastPanPoint == old(lastPanPoint)
      ensures |touches| == 1 ==> isTouchPanning && lastPanPoint == touches[0]
                                 && lastTouchDistance == old(lastTouchDistance) && lastTouchCenter == old(lastTouchCenter)
      ensures |touches| != 1 && |touches| != 2 ==>
                lastTouchDistance == old(lastTouchDistance) && lastTouchCenter == old(lastTouchCenter)
                && isTouchPanning == old(isTouchPanning) && lastPanPoint == old(lastPanPoint)
    {
      if |touches| == 2 {
        lastTouchDistance := distance;
        lastTouchCenter := Center(touches[0], touches[1]);
      } else if |touches| == 1 {
        isTouchPanning := true;
        lastPanPoint := touches[0];
      }
    }

    /** Touch move: with two touches, pinch-zoom about the midpoint (plus the
        midpoint's displacement) when a previous distance is known; with one
        touch during a one-finger pan, pan like the mouse. */
    method TouchMove(touches: seq<Point>, distance: real, container: Point)
      requires Valid() && distance >= 0.0
      modifies this`scale, this`offset, this`lastTouchDistance, this`lastTouchCenter, this`lastPanPoint
      ensures Valid()
      ensures |touches| == 2 ==>
                && lastTouchDistance == distance && lastTouchCenter == Center(touches[0], touches[1])
                && lastPanPoint == old(lastPanPoint)
      ensures |touches| == 2 && old(lastTouchDistance) == 0.0 ==> scale == old(scale) && offset == old(offset)
      ensures |touches| == 2 && old(lastTouchDistance) > 0.0 ==>
                scale == ClampScale(old(scale) * (distance / old(lastTouchDistance)))
      ensures |touches| == 2 && old(lastTouchDistance) > 0.0 ==>
                (var newCenter := Center(touches[0], touches[1]);
                 offset == PinchOffset(old(offset), old(scale), scale, Relative(newCenter, container),
                                       old(lastTouchCenter), newCenter))
      ensures |touches| == 2 && old(lastTouchDistance) > 0.0 && Center(touches[0], touches[1]) == old(lastTouchCenter) ==>
                (var c := Relative(old(lastTouchCenter), container);
                 && RasterPoint(c.x, offset.x, scale) == RasterPoint(c.x, old(offset.x), old(scale))
                 && RasterPoint(c.y, offset.y, scale) == RasterPoint(c.y, old(offset.y), old(scale)))
      ensures |touches| == 2 && old(lastTouchDistance) > 0.0 && scale == old(scale) ==>
                offset == Panned(old(offset), old(lastTouchCenter), Center(touches[0], touches[1]))
      ensures |touches| == 1 && old(isTouchPanning) ==>
                && offset == Panned(old(offset), old(lastPanPoint), touches[0]) && lastPanPoint == touches[0]
                && scale == old(scale)
                && lastTouchDistance == old(lastTouchDistance) && lastTouchCenter == old(lastTouchCenter)
      ensures |touches| != 2 && !(|touches| == 1 && old(isTouchPanning)) ==>
                && scale == old(scale) && offset == old(offset) && lastPanPoint == old(lastPanPoint)
                && lastTouchDistance == old(lastTouchDistance) && lastTouchCenter == old(lastTouchCenter)
    {
      if |touches| == 2 {
        var newCenter := Center(touches[0], touches[1]);
        if lastTouchDistance > 0.0 {
          var scaleRatio := distance / lastTouchDistance;
          var newScale := ClampScale(scale * scaleRatio);
          offset := PinchOffset(offset, scale, newScale, Relative(newCenter, container), lastTouchCenter, newCenter);
          scale := newScale;
        }
        lastTouchDistance := distance;
        lastTouchCenter := newCenter;
      } else if |touches| == 1 && isTouchPanning {
        offset := Panned(offset, lastPanPoint, touches[0]);
        lastPanPoint := touches[0];
      }
    }

    /** Touch end: when the last finger lifts, a tap (see IsTap) with a loaded
        mask and a selected colour is hit-tested at the release point; then the
        one-finger pan and the pinch distance are reset. */
    method TouchEnd(remaining: nat, released: Point, container: Point, mask: Option<ImageData>,
                    selected: Option<int>) returns (fill: Option<int>)
      requires Valid() && (mask.Some? ==> WellFormed(mask.value))
      modifies this`isTouchPanning, this`lastTouchDistance
      ensures Valid()
      ensures remaining > 0 ==> fill.None? && isTouchPanning == old(isTouchPanning)
                                && lastTouchDistance == old(lastTouchDistance)
      ensures remaining == 0 ==> !isTouchPanning && lastTouchDistance == 0.0
      ensures (remaining == 0 && IsTap(old(isTouchPanning), lastPanPoint, released) && mask.Some? && selected.Some?)
              ==> fill == HitTest(mask.value, released, container, offset, scale)
      ensures !(remaining == 0 && IsTap(old(isTouchPanning), lastPanPoint, released) && mask.Some? && selected.Some?)
              ==> fill.None?
    {
      fill := None;
      if remaining == 0 {
        if IsTap(isTouchPanning, lastPanPoint, released) {
          if mask.Some? && selected.Some? {
            fill := HitTest(mask.value, released, container, offset, scale);
          }
        }
        isTouchPanning := false;
        lastTouchDistance := 0.0;
      }
    }
  }


  /** handleClick: hit-test through the view, then fillRegion with the id found.
      A click during a mouse pan, without a selected colour or before the mask
      is loaded, or off the regions, changes nothing in the store. */
  method HandleClick(view: CanvasView, store: Store.GameStore, client: Point, container: Point,
                     mask: Option<ImageData>)
    requires view.Valid() && (mask.Some? ==> WellFormed(mask.value))
    modifies store`filledRegions, store`saved
    ensures var target := if view.isPanning || store.selectedColorIndex.None? || mask.None? then None
                          else HitTest(mask.value, client, container, view.offset, view.scale);
            && (target.None? ==> store.filledRegions == old(store.filledRegions) && store.saved == old(store.saved))
            && (target.Some? ==> store.filledRegions == Store.AfterFill(old(store.filledRegions), store.currentPicture,
                                                                        store.selectedColorIndex, target.value))
            && (target.Some? && Store.FillAccepted(store.currentPicture, store.selectedColorIndex, target.value) ==>
                  store.saved == old(store.saved) + [Store.SaveRecord(store.currentPicture.value.id, store.filledRegions)])
            && (!(target.Some? && Store.FillAccepted(store.currentPicture, store.selectedColorIndex, target.value)) ==>
                  store.saved == old(store.saved))
  {
    var target := view.Click(client, container, mask, store.selectedColorIndex);
    if target.Some? {
      store.FillRegion(target.value);
    }
  }

  /** handleTouchEnd: the view's touch-end step, then fillRegion for a tap on a region. */
  method HandleTouchEnd(view: CanvasView, store: Store.GameStore, remaining: nat, released: Point, container: Point,
                        mask: Option<ImageData>)
    requires view.Valid() && (mask.Some? ==> WellFormed(mask.value))
    modifies view`isTouchPanning, view`lastTouchDistance, store`filledRegions, store`saved
    ensures view.Valid()
    ensures remaining > 0 ==> view.isTouchPanning == old(view.isTouchPanning)
                              && view.lastTouchDistance == old(view.lastTouchDistance)
    ensures remaining == 0 ==> !view.isTouchPanning && view.lastTouchDistance == 0.0
    ensures var target := if remaining == 0 && IsTap(old(view.isTouchPanning), view.lastPanPoint, released)
                             && mask.Some? && store.selectedColorIndex.Some?
                          then HitTest(mask.value, released, container, view.offset, view.scale) else None;
            && (target.None? ==> store.filledRegions == old(store.filledRegions) && store.saved == old(store.saved))
            && (target.Some? ==> store.filledRegions == Store.AfterFill(old(store.filledRegions), store.currentPicture,
                                                                        store.selectedColorIndex, target.value))
            && (target.Some? && Store.FillAccepted(store.currentPicture, store.selectedColorIndex, target.value) ==>
                  store.saved == old(store.saved) + [Store.SaveRecord(store.currentPicture.value.id, store.filledRegions)])
            && (!(target.Some? && Store.FillAccepted(store.currentPicture, store.selectedColorIndex, target.value)) ==>
                  store.saved == old(store.saved))
  {
    var target := view.TouchEnd(remaining, released, container, mask, store.selectedColorIndex);
    if target.Some? {
      store.FillRegion(target.value);
    }
  }
}
