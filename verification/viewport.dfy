/**
 * The canvas viewport of src/main.c: the pan offset and zoom factor kept in
 * AppState, the widget-to-canvas mapping used by every pointer handler, the
 * Ctrl+scroll zoom that keeps the point under the cursor in place, and the
 * placement of layers by on_draw_event.
 *
 * Arithmetic is over the reals, an idealisation of the C doubles.
 */
module Viewport {
  import opened Stroke

  /** pan_x, pan_y and zoom of AppState. */
  datatype View = View(panX: real, panY: real, zoom: real)

  /** The factor one scroll step multiplies or divides the zoom by. */
  const ZoomStep: real := 1.1

  /** widget_to_canvas: divide by the zoom, then add the pan. */
  function WidgetToCanvas(v: View, wx: real, wy: real): (c: Point2)
    requires 0.0 < v.zoom
    ensures CanvasToWidget(v, c) == Point2(wx, wy)
  {
    var c := Point2(wx / v.zoom + v.panX, wy / v.zoom + v.panY);
    assert (wx / v.zoom) * v.zoom == wx && (wy / v.zoom) * v.zoom == wy;
    c
  }

  /** The exact inverse of WidgetToCanvas. */
  function CanvasToWidget(v: View, c: Point2): Point2
  {
    Point2((c.x - v.panX) * v.zoom, (c.y - v.panY) * v.zoom)
  }

  /** Going from the canvas to the widget and back returns the canvas point. */
  lemma CanvasRoundTrip(v: View, c: Point2)
    requires 0.0 < v.zoom
    ensures var w := CanvasToWidget(v, c); WidgetToCanvas(v, w.x, w.y) == c
  {
    var w := CanvasToWidget(v, c);
    assert w.x / v.zoom == c.x - v.panX;
    assert w.y / v.zoom == c.y - v.panY;
  }

  /** The scroll directions GDK reports; only up and down change the zoom. */
  datatype ScrollDirection = ScrollUp | ScrollDown | ScrollLeft | ScrollRight | ScrollSmooth

  /** The handler's return value (whether the event was consumed) and the new view. */
  datatype ScrollResult = ScrollResult(handled: bool, view: View)

  /** The zoom after one step in the given direction. */
  function Zoomed(zoom: real, dir: ScrollDirection): (z: real)
    requires 0.0 < zoom
    ensures 0.0 < z
    ensures dir == ScrollUp ==> zoom < z
    ensures dir == ScrollDown ==> z < zoom
    ensures dir != ScrollUp && dir != ScrollDown ==> z == zoom
  {
    if dir == ScrollUp then zoom * ZoomStep
    else if dir == ScrollDown then zoom / ZoomStep
    else zoom
  }

  /**
   * on_scroll: without Ctrl the event is not consumed and nothing changes;
   * with Ctrl the zoom steps and the pan moves so that the canvas point under
   * the cursor (mx, my) is the same before and after.
   */
  function OnScroll(v: View, mx: real, my: real, dir: ScrollDirection, ctrl: bool): (r: ScrollResult)
    requires 0.0 < v.zoom
    ensures r.handled == ctrl
    ensures !ctrl ==> r.view == v
    ensures ctrl ==> r.view.zoom == Zoomed(v.zoom, dir)
    ensures 0.0 < r.view.zoom
    ensures WidgetToCanvas(r.view, mx, my) == WidgetToCanvas(v, mx, my)
  {
    if !ctrl then ScrollResult(false, v)
    else
      var z := Zoomed(v.zoom, dir);
      ScrollResult(true, View(v.panX + mx / v.zoom - mx / z, v.panY + my / v.zoom - my / z, z))
  }

  /** One step in and one step out at the same cursor position restore the view exactly. */
  lemma ZoomInThenOut(v: View, mx: real, my: real)
    requires 0.0 < v.zoom
    ensures var v1 := OnScroll(v, mx, my, ScrollUp, true).view;
            OnScroll(v1, mx, my, ScrollDown, true).view == v
  {
    var v1 := OnScroll(v, mx, my, ScrollUp, true).view;
    assert v1.zoom / ZoomStep == v.zoom;
  }

  /** One step out and one step in at the same cursor position restore the view exactly. */
  lemma ZoomOutThenIn(v: View, mx: real, my: real)
    requires 0.0 < v.zoom
    ensures var v1 := OnScroll(v, mx, my, ScrollDown, true).view;
            OnScroll(v1, mx, my, ScrollUp, true).view == v
  {
    var v1 := OnScroll(v, mx, my, ScrollDown, true).view;
    assert v1.zoom * ZoomStep == v.zoom;
  }

  /** x - floor(x): zero exactly for whole numbers. */
  function Frac(x: real): (f: real)
    ensures 0.0 <= f < 1.0
    ensures f == 0.0 <==> x.Floor as real == x
  {
    x - x.Floor as real
  }

  /**
   * Where on_draw_event shows canvas point c: layers are painted at
   * -floor(pan) in the zoomed coordinate system.
   */
  function DrawnAt(v: View, c: Point2): Point2
  {
    Point2((c.x - v.panX.Floor as real) * v.zoom, (c.y - v.panY.Floor as real) * v.zoom)
  }

  lemma ShiftedByFraction(wx: real, zoom: real, pan: real)
    requires 0.0 < zoom
    ensures (wx / zoom + pan - pan.Floor as real) * zoom == wx + Frac(pan) * zoom
  {
    assert (wx / zoom) * zoom == wx;
  }

  lemma ScaledZero(f: real, zoom: real)
    requires 0.0 < zoom
    ensures f * zoom == 0.0 <==> f == 0.0
  {
    if f != 0.0 {
      assert f * zoom / zoom == f;
    }
  }

  /**
   * The drawn image lags the pointer by the fractional part of the pan: a
   * point the pointer designates is drawn under the pointer, for every
   * pointer position, exactly when both pan components are whole numbers.
   */
  lemma DrawnUnderPointer(v: View, wx: real, wy: real)
    requires 0.0 < v.zoom
    ensures DrawnAt(v, WidgetToCanvas(v, wx, wy)) == Point2(wx + Frac(v.panX) * v.zoom, wy + Frac(v.panY) * v.zoom)
    ensures DrawnAt(v, WidgetToCanvas(v, wx, wy)) == Point2(wx, wy)
            <==> v.panX.Floor as real == v.panX && v.panY.Floor as real == v.panY
  {
    ShiftedByFraction(wx, v.zoom, v.panX);
    ShiftedByFraction(wy, v.zoom, v.panY);
    ScaledZero(Frac(v.panX), v.zoom);
    ScaledZero(Frac(v.panY), v.zoom);
  }
}
