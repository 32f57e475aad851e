/**
 * The application logic of src/main.c: the layer stack and the active
 * layer, the tool buttons and the radius slider, the layer list (newest
 * layer on top), the order in which on_draw_event composites layers, the
 * routing of pointer events to the current tool, the start-up state and
 * the release of every layer at exit.
 *
 * GTK widgets, dialogs and redraw requests are outside the model; each
 * handler is a function or method from the application state (and the
 * event's data) to the next application state.
 */
module App {
  import opened Wrappers
  import opened Pixels
  import opened Stroke
  import opened Raster
  import opened Layers
  import opened Viewport
  import Checker
  import Bucket

  /** The three tools the toolbar buttons select (TOOL_BRUSH, TOOL_ERASER, TOOL_BUCKET). */
  datatype Tool = BrushTool | EraserTool | BucketTool

  /**
   * AppState, with the layer list as a sequence (first element at the
   * bottom of the stack) and the active layer as an index into it. The
   * brush and the eraser each keep their own static drawing flag and last
   * point, which survive tool switches.
   */
  datatype AppState = AppState(
    layers: seq<Layer>,
    active: Option<nat>,
    tool: Tool,
    radius: real,
    view: View,
    brush: StrokeState,
    eraser: StrokeState,
    lastMouse: Point2)

  /** DEFAULT_CANVAS_W x DEFAULT_CANVAS_H: the size of the base layer and of every blank layer. */
  const CanvasWidth: nat := 512
  const CanvasHeight: nat := 512

  /** The checkerboard cell size used for the base layer. */
  const CheckerCell: nat := 10

  /** The range of the brush radius slider and the radius at start-up. */
  const MinRadius: real := 1.0
  const MaxRadius: real := 50.0
  const DefaultRadius: real := 10.0

  /**
   * brush_color is parsed from "#000000" at start-up and nothing changes it:
   * opaque black, which is also what flood_fill converts it to.
   */
  const BrushColour: Pixel := Pixel(0, 0, 0, 255)

  /** The bytes cairo stores for the opaque greys 0.8 and 0.6 of the checkerboard. */
  const LightGrey: Pixel := Pixel(204, 204, 204, 255)
  const DarkGrey: Pixel := Pixel(153, 153, 153, 255)

  /** GDK_BUTTON_PRIMARY. */
  const PrimaryButton: int := 1

  /**
   * What every handler relies on: the active layer (when set) is in the
   * list, the zoom is positive, the radius is within the slider's range and
   * every layer surface is a well-formed buffer.
   */
  predicate Consistent(app: AppState)
  {
    && (app.active.Some? ==> app.active.value < |app.layers|)
    && 0.0 < app.view.zoom
    && MinRadius <= app.radius <= MaxRadius
    && forall i :: 0 <= i < |app.layers| && app.layers[i].surface.Some? ==> Valid(app.layers[i].surface.value)
  }

  /** The surface the tools draw on: that of the active layer, when there is one and it has pixels. */
  function ActiveSurface(app: AppState): Option<Surface>
  {
    if app.active.Some? && app.active.value < |app.layers| && app.layers[app.active.value].surface.Some?
    then Some(app.layers[app.active.value].surface.value)
    else None
  }

  // ---------------------------------------------------------------------
  // Toolbar and slider
  // ---------------------------------------------------------------------

  /** on_brush_button, on_eraser_button, on_bucket_button: only the current tool changes. */
  function SelectTool(app: AppState, t: Tool): (r: AppState)
    requires Consistent(app)
    ensures Consistent(r) && r.tool == t
    ensures r.(tool := app.tool) == app
  {
    app.(tool := t)
  }

  /** on_brush_radius_changed: the slider reports a value in its range, which becomes the radius. */
  function SetRadius(app: AppState, v: real): (r: AppState)
    requires Consistent(app) && MinRadius <= v <= MaxRadius
    ensures Consistent(r) && r.radius == v
    ensures r.(radius := app.radius) == app
  {
    app.(radius := v)
  }

  /** on_scroll applied to the application's view. */
  function Scroll(app: AppState, mx: real, my: real, dir: ScrollDirection, ctrl: bool): (r: (bool, AppState))
    requires Consistent(app)
    ensures Consistent(r.1)
    ensures r.1.(view := app.view) == app
    ensures r.0 == ctrl && (!ctrl ==> r.1 == app)
    ensures ctrl ==> r.1.view.zoom == Zoomed(app.view.zoom, dir)
    ensures WidgetToCanvas(r.1.view, mx, my) == WidgetToCanvas(app.view, mx, my)
  {
    var res := OnScroll(app.view, mx, my, dir, ctrl);
    (res.handled, app.(view := res.view))
  }

  // ---------------------------------------------------------------------
  // The layer stack
  // ---------------------------------------------------------------------

  /** g_list_append followed by making the new layer active. */
  function AppendLayer(app: AppState, l: Layer): (r: AppState)
    requires Consistent(app)
    requires l.surface.Some? ==> Valid(l.surface.value)
    ensures Consistent(r)
    ensures |r.layers| == |app.layers| + 1 && r.layers[..|app.layers|] == app.layers
    ensures r.layers[|app.layers|] == l && r.active == Some(|app.layers|)
    ensures r.tool == app.tool && r.radius == app.radius && r.view == app.view
    ensures r.brush == app.brush && r.eraser == app.eraser
  {
    var r := app.(layers := app.layers + [l], active := Some(|app.layers|));
    assert r.layers[..|app.layers|] == app.layers;
    r
  }

  /** on_new_blank_layer: a transparent 512 x 512 layer named "Layer" goes on top and becomes active. */
  function NewBlankLayer(app: AppState): (r: AppState)
    requires Consistent(app)
    ensures Consistent(r)
    ensures |r.layers| == |app.layers| + 1 && r.layers[..|app.layers|] == app.layers
    ensures r.active == Some(|app.layers|)
    ensures var l := r.layers[|app.layers|];
            && l.name == "Layer" && Drawn(l) && l.opacity == 1.0
            && l.surface.value.width == CanvasWidth && l.surface.value.height == CanvasHeight
            && forall x, y :: InBounds(l.surface.value, x, y) ==> GetPixel(l.surface.value, x, y) == Transparent
    ensures r.(layers := app.layers, active := app.active) == app
  {
    AppendLayer(app, LayerNewBlank(Some("Layer"), CanvasWidth, CanvasHeight))
  }

  /**
   * on_add_layer once the dialog is accepted: `decoded` is what the image
   * loader produced for `filename`. A failed load changes nothing; a
   * successful one puts the image on top as the active layer.
   */
  function AddImageLayer(app: AppState, filename: string, decoded: Option<Image>): (r: AppState)
    requires Consistent(app)
    requires decoded.Some? ==> WellFormed(decoded.value)
    ensures Consistent(r)
    ensures decoded.None? <==> r == app
    ensures decoded.Some? ==> && |r.layers| == |app.layers| + 1 && r.layers[..|app.layers|] == app.layers
                              && r.active == Some(|app.layers|)
                              && r.layers[|app.layers|] == LayerNewFromFile(filename, decoded).value
                              && r.layers[|app.layers|].name == Basename(filename)
                              && r.(layers := app.layers, active := app.active) == app
  {
    match LayerNewFromFile(filename, decoded)
    case None => app
    case Some(l) =>
      var r := AppendLayer(app, l);
      assert |r.layers| != |app.layers|;
      r
  }

  /** on_layer_visibility_toggled: only the flag of that layer changes. */
  function SetVisible(app: AppState, i: nat, on: bool): (r: AppState)
    requires Consistent(app) && i < |app.layers|
    ensures Consistent(r)
    ensures |r.layers| == |app.layers| && r.layers[i].visible == on
    ensures r.layers[i].(visible := app.layers[i].visible) == app.layers[i]
    ensures forall j :: 0 <= j < |app.layers| && j != i ==> r.layers[j] == app.layers[j]
    ensures r.(layers := app.layers) == app
  {
    app.(layers := app.layers[i := app.layers[i].(visible := on)])
  }

  // ---------------------------------------------------------------------
  // The layer list widget
  // ---------------------------------------------------------------------

  /** refresh_layer_list walks the list from its last element: the rows show the layers newest first. */
  function Rows(layers: seq<Layer>): (rows: seq<Layer>)
    ensures |rows| == |layers|
    ensures forall r :: 0 <= r < |rows| ==> rows[r] == layers[|layers| - 1 - r]
    decreases |layers|
  {
    if layers == [] then []
    else
      var n := |layers| - 1;
      var rest := Rows(layers[..n]);
      var rows := [layers[n]] + rest;
      assert forall r :: 1 <= r < |rows| ==> rows[r] == rest[r - 1] == layers[..n][n - 1 - (r - 1)];
      rows
  }

  /** The row refresh_layer_list selects: the one showing the active layer. */
  function HighlightedRow(app: AppState): (row: Option<nat>)
    requires Consistent(app)
    ensures row.Some? <==> app.active.Some?
    ensures row.Some? ==> row.value < |app.layers| && Rows(app.layers)[row.value] == app.layers[app.active.value]
    ensures row.Some? ==> |app.layers| - 1 - row.value == app.active.value
  {
    if app.active.Some? then Some(|app.layers| - 1 - app.active.value) else None
  }

  /**
   * on_layer_row_selected: the layer shown in the selected row becomes
   * active; a deselection (no row) changes nothing.
   */
  function SelectRow(app: AppState, row: Option<nat>): (r: AppState)
    requires Consistent(app)
    requires row.Some? ==> row.value < |app.layers|
    ensures Consistent(r)
    ensures row.None? ==> r == app
    ensures row.Some? ==> r.active.Some? && r.layers[r.active.value] == Rows(app.layers)[row.value]
    ensures row.Some? ==> r.active == Some(|app.layers| - 1 - row.value)
    ensures r.(active := app.active) == app
  {
    match row
    case None => app
    case Some(k) => app.(active := Some(|app.layers| - 1 - k))
  }

  /** Selecting the highlighted row leaves the active layer as it was. */
  lemma SelectHighlightedRow(app: AppState)
    requires Consistent(app)
    ensures SelectRow(app, HighlightedRow(app)) == app
  {
  }

  /** A new layer is listed in the first row and highlighted there. */
  lemma NewLayerListedFirst(app: AppState, l: Layer)
    requires Consistent(app) && (l.surface.Some? ==> Valid(l.surface.value))
    ensures var r := AppendLayer(app, l);
            HighlightedRow(r) == Some(0) && Rows(r.layers)[0] == l
  {
  }

  // ---------------------------------------------------------------------
  // Compositing
  // ---------------------------------------------------------------------

  /** on_draw_event skips a layer that is hidden or has no surface. */
  predicate Drawn(l: Layer)
  {
    l.visible && l.surface.Some?
  }

  /**
   * The indices of the layers on_draw_event paints, in painting order: every
   * drawn layer exactly once, bottom of the stack first, so later layers
   * cover earlier ones.
   */
  function CompositeOrder(layers: seq<Layer>): (order: seq<nat>)
    ensures forall k :: 0 <= k < |order| ==> order[k] < |layers| && Drawn(layers[order[k]])
    ensures forall i :: 0 <= i < |layers| && Drawn(layers[i]) ==> i in order
    ensures forall k, m :: 0 <= k < m < |order| ==> order[k] < order[m]
    decreases |layers|
  {
    if layers == [] then []
    else
      var n := |layers| - 1;
      var front := CompositeOrder(layers[..n]);
      assert forall k :: 0 <= k < |front| ==> layers[..n][front[k]] == layers[front[k]];
      front + (if Drawn(layers[n]) then [n] else [])
  }

  /** A new drawn layer is painted last, above everything else; a hidden one adds nothing. */
  lemma AppendedLayerOnTop(layers: seq<Layer>, l: Layer)
    ensures CompositeOrder(layers + [l]) == CompositeOrder(layers) + (if Drawn(l) then [|layers|] else [])
  {
    assert (layers + [l])[..|layers|] == layers;
  }

  /**
   * Toggling a layer's visibility adds it to or removes it from the
   * composite (when it has a surface) and leaves every other layer's
   * membership alone.
   */
  lemma VisibilityDecidesCompositing(app: AppState, i: nat, on: bool, j: nat)
    requires Consistent(app) && i < |app.layers| && j < |app.layers|
    ensures var order := CompositeOrder(SetVisible(app, i, on).layers);
            && (i in order <==> on && app.layers[i].surface.Some?)
            && (j != i ==> (j in order <==> j in CompositeOrder(app.layers)))
  {
    var after := SetVisible(app, i, on).layers;
    var order := CompositeOrder(after);
    if i in order {
      var k :| 0 <= k < |order| && order[k] == i;
    }
    if j in order {
      var k :| 0 <= k < |order| && order[k] == j;
    }
    if j in CompositeOrder(app.layers) {
      var k :| 0 <= k < |CompositeOrder(app.layers)| && CompositeOrder(app.layers)[k] == j;
    }
  }

  // ---------------------------------------------------------------------
  // Pointer events
  // ---------------------------------------------------------------------

  /** The GDK events of the drawing area, in widget coordinates. */
  datatype PointerEvent =
    | ButtonPress(button: int, x: real, y: real)
    | PointerMotion(x: real, y: real)
    | ButtonRelease(button: int, x: real, y: real)

  /** The tool callback an event reaches, with its position in canvas coordinates. */
  datatype Call = PressAt(at: Point2) | MoveTo(at: Point2) | ReleaseAt(at: Point2)

  /**
   * on_button_press, on_motion_notify, on_button_release: presses and
   * releases reach the tool only for the primary button, motion always;
   * the position is converted with widget_to_canvas.
   */
  function Route(v: View, ev: PointerEvent): (c: Option<Call>)
    requires 0.0 < v.zoom
    ensures c.None? <==> !ev.PointerMotion? && ev.button != PrimaryButton
    ensures c.Some? ==> CanvasToWidget(v, c.value.at) == Point2(ev.x, ev.y)
    ensures c.Some? ==> (c.value.PressAt? <==> ev.ButtonPress?) && (c.value.MoveTo? <==> ev.PointerMotion?)
  {
    match ev
    case ButtonPress(b, x, y) => if b == PrimaryButton then Some(PressAt(WidgetToCanvas(v, x, y))) else None
    case PointerMotion(x, y) => Some(MoveTo(WidgetToCanvas(v, x, y)))
    case ButtonRelease(b, x, y) => if b == PrimaryButton then Some(ReleaseAt(WidgetToCanvas(v, x, y))) else None
  }

  /** The operator a stroke tool fills its discs with. */
  function OpOf(t: Tool): Op
  {
    if t == EraserTool then Clear else Over
  }

  /** The brush's or the eraser's handler for one call. */
  function StrokeReaction(t: Tool, st: StrokeState, call: Call, radius: real): (x: Reaction)
    requires t != BucketTool && 0.0 < radius
    ensures forall i :: 0 <= i < |x.stamps| ==> x.stamps[i].op == OpOf(t) && x.stamps[i].radius == radius
    ensures call.ReleaseAt? ==> x.stamps == [] && !x.state.drawing
    ensures call.PressAt? ==> x.stamps == [Stamp(OpOf(t), call.at, radius)] && x.state.drawing
  {
    match call
    case PressAt(p) => if t == BrushTool then BrushPress(st, p, radius) else EraserPress(st, p, radius)
    case MoveTo(p) => Motion(OpOf(t), st, p, radius)
    case ReleaseAt(_) => Release(st)
  }

  /** C's round(): to the nearest integer, halfway cases away from zero. */
  function RoundHalfAway(v: real): (n: int)
    ensures -0.5 <= v - n as real <= 0.5
    ensures v - n as real == -0.5 ==> 0.0 < v
    ensures v - n as real == 0.5 ==> v < 0.0
  {
    if 0.0 <= v then (v + 0.5).Floor else -((-v + 0.5).Floor)
  }

  /** The three properties of RoundHalfAway's contract single out one integer. */
  lemma RoundIsUnique(v: real, m: int)
    requires -0.5 <= v - m as real <= 0.5
    requires v - m as real == -0.5 ==> 0.0 < v
    requires v - m as real == 0.5 ==> v < 0.0
    ensures RoundHalfAway(v) == m
  {
  }

  /** The pixel the bucket tool fills from, for a press at canvas point p. */
  function BucketStart(p: Point2): Bucket.Point
  {
    Bucket.Point(RoundHalfAway(p.x), RoundHalfAway(p.y))
  }

  /**
   * flood_fill reads the pixel under a press without a bounds check, so a
   * primary-button bucket press on a layer with pixels must land where that
   * read stays inside the pixel buffer; every later write is bounds-checked.
   */
  predicate BucketPressReadable(app: AppState, ev: PointerEvent)
    requires Consistent(app)
  {
    app.tool == BucketTool && ev.ButtonPress? && ev.button == PrimaryButton && ActiveSurface(app).Some? ==>
      var q := BucketStart(WidgetToCanvas(app.view, ev.x, ev.y));
      Readable(ActiveSurface(app).value, q.x, q.y)
  }

  /**
   * `r` differs from `app` at most in the pixels of the active layer's
   * surface, which keeps its geometry.
   */
  predicate OnlyActivePixels(app: AppState, r: AppState)
  {
    && r.(layers := app.layers) == app
    && |r.layers| == |app.layers|
    && (forall i :: 0 <= i < |app.layers| ==> r.layers[i].(surface := app.layers[i].surface) == app.layers[i])
    && (forall i :: 0 <= i < |app.layers| && app.active != Some(i) ==> r.layers[i] == app.layers[i])
    && (ActiveSurface(app).None? ==> r == app)
    && (ActiveSurface(app).Some? ==> ActiveSurface(r).Some? && SameShape(ActiveSurface(r).value, ActiveSurface(app).value))
  }

  /** The state with the active layer's surface replaced by `t`. */
  function WithActiveSurface(app: AppState, t: Surface): (r: AppState)
    requires Consistent(app) && ActiveSurface(app).Some? && SameShape(t, ActiveSurface(app).value)
    ensures Consistent(r) && OnlyActivePixels(app, r) && ActiveSurface(r) == Some(t)
  {
    var a := app.active.value;
    app.(layers := app.layers[a := app.layers[a].(surface := Some(t))])
  }

  /** brush_point / erase_point for every disc of a reaction: nothing happens without an active surface. */
  method PaintActive(app: AppState, stamps: seq<Stamp>) returns (r: AppState)
    requires Consistent(app)
    ensures Consistent(r) && OnlyActivePixels(app, r)
    ensures ActiveSurface(app).Some? ==>
              var s, t := ActiveSurface(app).value, ActiveSurface(r).value;
              forall x, y :: InBounds(s, x, y) ==> GetPixel(t, x, y) == PixelAfter(GetPixel(s, x, y), x, y, stamps, BrushColour)
  {
    r := app;
    if ActiveSurface(app).Some? {
      var t := PaintStamps(ActiveSurface(app).value, stamps, BrushColour);
      r := WithActiveSurface(app, t);
    }
  }

  /**
   * The bucket tool's on_button_press: flood fill from the rounded position
   * with the brush colour. A start outside the layer changes nothing.
   */
  method BucketPress(app: AppState, p: Point2) returns (r: AppState)
    requires Consistent(app)
    requires ActiveSurface(app).Some? ==> Readable(ActiveSurface(app).value, BucketStart(p).x, BucketStart(p).y)
    ensures Consistent(r) && OnlyActivePixels(app, r)
    ensures ActiveSurface(app).Some? && !Bucket.Inside(ActiveSurface(app).value, BucketStart(p)) ==> r == app
    ensures ActiveSurface(app).Some? && Bucket.Inside(ActiveSurface(app).value, BucketStart(p)) ==>
              var s, t, q := ActiveSurface(app).value, ActiveSurface(r).value, BucketStart(p);
              && (Bucket.At(s, q) == BrushColour ==> t == s)
              && (Bucket.At(s, q) != BrushColour ==>
                    forall c :: Bucket.Inside(s, c) && Bucket.InRegion(s, q, c) ==> Bucket.At(t, c) == BrushColour)
              && (forall c :: Bucket.Inside(s, c) && !Bucket.InRegion(s, q, c) ==> Bucket.At(t, c) == Bucket.At(s, c))
  {
    r := app;
    if ActiveSurface(app).Some? {
      var s, q := ActiveSurface(app).value, BucketStart(p);
      if Bucket.Inside(s, q) {
        ColorsEqualFacts(Bucket.At(s, q), BrushColour, 0);
      }
      var t, _ := Bucket.FloodFill(s, q, BrushColour);
      r := WithActiveSurface(app, t);
      if !Bucket.Inside(s, q) {
        assert r.layers == app.layers;
      }
    }
  }

  /**
   * One pointer event on the drawing area. The current tool's handler runs
   * on the routed call; a press also records the widget position in
   * last_mouse. Only the current tool's own state and the active layer's
   * pixels can change.
   */
  method HandleEvent(app: AppState, ev: PointerEvent) returns (r: AppState)
    requires Consistent(app) && BucketPressReadable(app, ev)
    ensures Consistent(r)
    ensures OnlyActivePixels(app.(lastMouse := r.lastMouse, brush := r.brush, eraser := r.eraser), r)
    ensures r.active == app.active && r.tool == app.tool && r.radius == app.radius && r.view == app.view
    ensures |r.layers| == |app.layers|
    ensures r.lastMouse == if ev.ButtonPress? then Point2(ev.x, ev.y) else app.lastMouse
    ensures !ev.PointerMotion? && ev.button != PrimaryButton ==> r == app.(lastMouse := r.lastMouse)
    ensures app.tool != BrushTool ==> r.brush == app.brush
    ensures app.tool != EraserTool ==> r.eraser == app.eraser
    ensures app.tool == BucketTool && !ev.ButtonPress? ==> r == app
    ensures app.tool != BucketTool && Route(app.view, ev).Some? ==>
              var x := StrokeReaction(app.tool, if app.tool == BrushTool then app.brush else app.eraser,
                                      Route(app.view, ev).value, app.radius);
              && (if app.tool == BrushTool then r.brush else r.eraser) == x.state
              && (ActiveSurface(app).Some? ==>
                    var s, t := ActiveSurface(app).value, ActiveSurface(r).value;
                    forall px, py :: InBounds(s, px, py) ==>
                      GetPixel(t, px, py) == PixelAfter(GetPixel(s, px, py), px, py, x.stamps, BrushColour))
    ensures app.tool == BucketTool && ev.ButtonPress? && ev.button == PrimaryButton && ActiveSurface(app).Some? &&
            !Bucket.Inside(ActiveSurface(app).value, BucketStart(WidgetToCanvas(app.view, ev.x, ev.y))) ==>
              r == app.(lastMouse := Point2(ev.x, ev.y))
    ensures app.tool == BucketTool && ev.ButtonPress? && ev.button == PrimaryButton && ActiveSurface(app).Some? &&
            Bucket.Inside(ActiveSurface(app).value, BucketStart(WidgetToCanvas(app.view, ev.x, ev.y))) ==>
              var s, t := ActiveSurface(app).value, ActiveSurface(r).value;
              var q := BucketStart(WidgetToCanvas(app.view, ev.x, ev.y));
              && (Bucket.At(s, q) == BrushColour ==> t == s)
              && (Bucket.At(s, q) != BrushColour ==>
                    forall c :: Bucket.Inside(s, c) && Bucket.InRegion(s, q, c) ==> Bucket.At(t, c) == BrushColour)
              && (forall c :: Bucket.Inside(s, c) && !Bucket.InRegion(s, q, c) ==> Bucket.At(t, c) == Bucket.At(s, c))
  {
    var call := Route(app.view, ev);
    r := app;
    if call.Some? {
      match app.tool
      case BucketTool =>
        if call.value.PressAt? {
          r := BucketPress(app, call.value.at);
        }
      case BrushTool =>
        var x := StrokeReaction(BrushTool, app.brush, call.value, app.radius);
        r := PaintActive(app, x.stamps);
        r := r.(brush := x.state);
      case EraserTool =>
        var x := StrokeReaction(EraserTool, app.eraser, call.value, app.radius);
        r := PaintActive(app, x.stamps);
        r := r.(eraser := x.state);
    }
    if ev.ButtonPress? {
      r := r.(lastMouse := Point2(ev.x, ev.y));
    }
  }

  // ---------------------------------------------------------------------
  // Start-up and shut-down
  // ---------------------------------------------------------------------

  /**
   * main: zero-initialised state with pan (0, 0), zoom 1, the brush tool
   * and radius 10, then a 512 x 512 base layer named "Base" painted with
   * 10-pixel checkerboard squares, which becomes the only and active layer.
   */
  method InitialApp() returns (app: AppState)
    ensures Consistent(app)
    ensures |app.layers| == 1 && app.active == Some(0)
    ensures var base := app.layers[0];
            && base.name == "Base" && Drawn(base) && base.opacity == 1.0
            && base.surface.value.width == CanvasWidth && base.surface.value.height == CanvasHeight
            && forall x, y :: InBounds(base.surface.value, x, y) ==>
                 GetPixel(base.surface.value, x, y) == Checker.CheckerColour(x, y, CheckerCell, LightGrey, DarkGrey)
    ensures app.tool == BrushTool && app.radius == DefaultRadius && app.view == View(0.0, 0.0, 1.0)
    ensures app.brush == Idle && app.eraser == Idle
  {
    var blank := LayerNewBlank(Some("Base"), CanvasWidth, CanvasHeight);
    var painted := Checker.FillCheckerboard(blank.surface.value, CheckerCell, LightGrey, DarkGrey);
    var base := blank.(surface := Some(painted));
    var empty := AppState([], None, BrushTool, DefaultRadius, View(0.0, 0.0, 1.0), Idle, Idle, Point2(0.0, 0.0));
    app := AppendLayer(empty, base);
  }

  /** The resources the exit loop of main hands back: layer_free for each layer in list order. */
  function FreeAll(layers: seq<Layer>): (released: seq<Resource>)
    ensures multiset(released)[LayerRecord] == |layers|
    ensures multiset(released)[NameBuffer] == |layers|
    ensures multiset(released)[SurfaceRef] == |SurfacesOf(layers)|
    decreases |layers|
  {
    if layers == [] then []
    else
      var n := |layers| - 1;
      LayerFreeOnce(Some(layers[n]), LayerRecord);
      LayerFreeOnce(Some(layers[n]), NameBuffer);
      LayerFreeOnce(Some(layers[n]), SurfaceRef);
      FreeAll(layers[..n]) + LayerFree(Some(layers[n]))
  }

  /** The indices of the layers that own a surface. */
  function SurfacesOf(layers: seq<Layer>): (idx: seq<nat>)
    ensures forall i :: 0 <= i < |layers| ==> (i in idx <==> layers[i].surface.Some?)
    ensures forall k :: 0 <= k < |idx| ==> idx[k] < |layers|
    ensures forall k, m :: 0 <= k < m < |idx| ==> idx[k] < idx[m]
    decreases |layers|
  {
    if layers == [] then []
    else
      var n := |layers| - 1;
      var front := SurfacesOf(layers[..n]);
      front + (if layers[n].surface.Some? then [n] else [])
  }
}
