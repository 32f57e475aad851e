# A verified model of a small GTK/cairo layer painter

The program is a small layer-based image editor. A stack of named raster
layers, each a cairo ARGB32 image surface, is drawn over a checkerboard base
layer. There are three tools:

- a round **brush** that stamps opaque discs with `CAIRO_OPERATOR_OVER`;
- an **eraser** that stamps the same discs with `CAIRO_OPERATOR_CLEAR`;
- a **bucket** that flood-fills a 4-connected region. A pixel belongs to the
  region when each of its channels is within 10 of the start pixel's.

The canvas can be zoomed with Ctrl+scroll about the pointer. The layer list
shows the newest layer on top, and clicking a row activates that layer.

This project restates that logic in Dafny and proves properties of it.

- `wrappers.dfy` (`Wrappers`): the `Option` type used wherever the C code
  passes a pointer that may be NULL.
- `pixels.dfy` (`Pixels`): the byte buffer of an image surface.
  - Pixels are stored B, G, R, A at offset `y*stride + 4x`.
  - Includes `get_pixel`, `set_pixel` and the tolerance test `colors_equal`.
- `bucket.dfy` (`Bucket`): `flood_fill` with its worklist as a sequence and
  its `visited` array.
- `stroke.dfy` (`Stroke`): the step count and the interpolated stamp centres
  of `brush_line`/`erase_line`, and the press/motion/release state machines
  of the two stroke tools.
- `raster.dfy` (`Raster`): what the stamped discs do to the pixels of the
  active layer.
- `layers.dfy` (`Layers`): `create_surface`, `layer_new_blank`,
  `layer_new_from_file` (including `g_path_get_basename`) and `layer_free`.
- `viewport.dfy` (`Viewport`): `widget_to_canvas`, the Ctrl+scroll zoom and
  where `on_draw_event` places the layers.
- `checker.dfy` (`Checker`): `layer_fill_checkerboard`.
- `app.dfy` (`App`): the application state and the handlers of `main.c`.
  - The layer stack, the active layer and the tool buttons.
  - The layer list, the compositing order and pointer-event dispatch.
  - Start-up and the release of the layers at exit.

In four places the code behaves differently from what a reader might
expect, and the model follows the code:

- **Stamp spacing.** Stamps are not kept within half a radius of each other.
  The code truncates `dist / (r/2)` to an integer step count, so consecutive
  stamps are only guaranteed to be closer than one radius.
  `Stroke.LineSpacing` proves that bound. `Stroke.SpacingCanExceedHalfRadius`
  shows the half-radius bound fails.
- **Screen/canvas round trip.** `widget_to_canvas` inverts the zoom and pan
  exactly, but what is drawn is not placed by that inverse. `on_draw_event` shifts layers by
  `-floor(pan)`, not by `-pan`. The pixel a click designates is therefore
  drawn under the pointer only when both pan components are whole numbers
  (`Viewport.DrawnUnderPointer`).
- **Bucket start outside the image.** `flood_fill` reads the start pixel
  with no bounds check (`get_pixel`, bucket_tool.c:52). Every write comes
  after the bounds test of the loop, which drops an outside start. An
  outside start whose byte offset `y*stride + 4x` still lies in the pixel
  buffer therefore changes nothing, and the model fills it as a no-op. Only
  a start whose read leaves the buffer is undefined behaviour; the model
  requires the read to stay in the buffer.
- **Eraser press.** The eraser's press does not record the press position,
  unlike the brush's. The first drag segment after an eraser press starts
  from wherever the pointer last moved (`Stroke.EraserMotionStartsAtPreviousPoint`).
  The model keeps this behaviour as written.

## Model

| member | source | states |
|---|---|---|
| Pixels.ColorsEqualFacts | src/tools/bucket_tool.c:12-18 | for ColorsEqual, the per-channel tolerance test is symmetric, is exact equality at tolerance 0, is reflexive for any tolerance of at least 0, never holds for a negative tolerance, and is monotone in the tolerance |
| Pixels.SetPixel | src/tools/bucket_tool.c:31-40 | writes the pixel's blue, green, red and alpha bytes at offsets 0..3 from `y*stride + 4x` and leaves every other byte of the buffer as it was |
| Pixels.GetIsRaw | src/tools/bucket_tool.c:21-28 | get_pixel reads the bytes at `y*stride + 4x` whether or not (x, y) is in the image (RawPixel); on an in-image pixel those bytes lie in the buffer and the read is GetPixel |
| Pixels.GetAfterSet | src/tools/bucket_tool.c:21-40 | for GetPixel and SetPixel, reading a pixel after a write gives the written colour at the written position and the previous colour everywhere else |
| Pixels.GetFromPixels | src/layer.c:41-45 | a packed surface built from a row-major pixel list shows the (y*w + x)-th pixel at (x, y) |
| Bucket.FloodFill | src/tools/bucket_tool.c:42-96 | keeps the surface geometry. A start outside the image changes nothing: the worklist holds at most that one entry, and the bounds test drops it. It is a no-op (peak 0) when an inside start pixel already equals the fill colour. Otherwise every pixel 4-connected to the start through pixels within 10 per channel of the original start colour gets the fill colour. Every pixel outside that region keeps its colour. The worklist never holds more than 1 + 3·W·H entries, and reaches at least 4 when something is filled |
| Bucket.FillRegion | src/tools/bucket_tool.c:52-96 | from a start inside the image: a no-op when the start pixel equals the fill colour, otherwise exactly the start's tolerance-connected region is filled, with the worklist bounds |
| Bucket.DrainWorklist | src/tools/bucket_tool.c:73-90 | the pop/discard/paint/push loop preserves the fill invariant, covering the painted set, the paths that justify it, the frontier and the worklist depth, until the worklist is empty |
| Bucket.SinglePixelFillOverflows | src/tools/bucket_tool.c:64-71 | on a 1x1 image, a fill that is not a no-op pushes at least 4 worklist entries into the 1 slot the code allocates |
| Stroke.StepCount | src/tools/brush.c:33-36 | the step count is at least 1. Unless it is 1, (n·r/2)² ≤ dist². Always dist² < ((n+1)·r/2)² |
| Stroke.StepCountIsClampedFloor | src/tools/brush.c:36 | the step count is exactly max(1, ⌊dist/(r/2)⌋) for the unique integer bracketing the ratio |
| Stroke.Line | src/tools/brush.c:38-43 | a line has steps + 1 stamp centres, the first at the old point and the last at the new one |
| Stroke.LineSpacing | src/tools/brush.c:36-41 | consecutive stamp centres of a line are exactly |ab| / steps apart (one step of the line), and so less than one radius apart |
| Stroke.SpacingCanExceedHalfRadius | src/tools/brush.c:36 | with radius 2, a segment of length 1.5 takes one step, so its two stamps are more than half a radius apart |
| Stroke.LineCoversSegment | src/tools/brush.c:31-44 | every point of the segment lies strictly within one radius of some stamp centre, so the line leaves no gap |
| Stroke.StampsAlong | src/tools/eraser.c:22-36 | the discs of a line are centred exactly on the line's steps + 1 points, from the old point to the new one, all with the tool's operator and radius, with consecutive discs overlapping |
| Stroke.BrushPress | src/tools/brush.c:46-52 | the brush press starts drawing, records the press position and stamps exactly one OVER disc there |
| Stroke.EraserPress | src/tools/eraser.c:38-42 | the eraser press starts erasing and stamps one CLEAR disc at the press position, but keeps the previously recorded point |
| Stroke.Motion | src/tools/brush.c:54-61 | motion keeps the drawing flag and records the new position. It stamps something exactly when drawing; those stamps are centred exactly on the points of the line from the recorded point to the new one, all with the tool's operator and the current radius, and form a chain |
| Stroke.Release | src/tools/brush.c:63-66 | release stops drawing, stamps nothing and keeps the recorded point |
| Stroke.MovesChained | src/tools/brush.c:54-61 | while drawing, any run of motion events stamps one chain of overlapping discs continuing from the recorded point, and ends at the last position |
| Stroke.BrushDragIsChained | src/tools/brush.c:46-61 | a brush press followed by any motion events paints one gap-free chain of discs ending at the last pointer position |
| Stroke.EraserMotionStartsAtPreviousPoint | src/tools/eraser.c:38-50 | after an eraser press at a, the first motion stamps a line that starts at the point recorded before the press, not at a |
| Stroke.HoverOnlyTracks | src/tools/eraser.c:44-51 | motion without a press stamps nothing, leaves the tool idle and records the last position |
| Stroke.ReleaseEndsStroke | src/tools/eraser.c:53-56 | after a release, no motion stamps anything until the next press |
| Raster.PaintDisc | src/tools/eraser.c:11-20 | a disc sets every pixel it fully covers to the operator's ink (the opaque colour for OVER, all-zero bytes for CLEAR) and leaves every other pixel unchanged |
| Raster.PaintStamps | src/tools/eraser.c:30-35 | painting a run of discs gives each pixel the value of folding the discs over it in order |
| Raster.UniformStamps | src/tools/eraser.c:17-19 | with one operator, a pixel ends up with that operator's ink exactly when some disc covers it, and is unchanged otherwise |
| Raster.LastCoverDecides | src/tools/brush.c:38-43 | the last disc covering a pixel decides its final value |
| Raster.PixelAfterSplit | src/tools/brush.c:54-61 | painting two runs of discs one after the other equals painting their concatenation |
| Layers.CreateSurface | src/layer.c:3-14 | a new surface is well formed, has the requested size, and every pixel is transparent black |
| Layers.CreateSurfaceZeroBytes | src/layer.c:9-11 | every byte of a new surface is zero |
| Layers.LayerNewBlank | src/layer.c:17-25 | a blank layer gets the given name or "Layer", is visible with opacity 1.0, and has a transparent w x h surface |
| Layers.BlankLayerName | src/layer.c:20 | a given name is kept verbatim; a missing name becomes "Layer" |
| Layers.LastComponent | src/layer.c:40 | the last component of a path is a suffix free of '/'. When shorter than the path it is preceded by '/', and it is non-empty when the path does not end in '/' |
| Layers.Basename | src/layer.c:40 | the basename of a path is never empty, and contains '/' only when it is "/" itself |
| Layers.BasenameOfJoin | src/layer.c:40 | for Basename, the basename of dir + "/" + name is name, for any non-empty name without '/' |
| Layers.LayerNewFromFile | src/layer.c:27-52 | there is no layer exactly when decoding fails. Otherwise the layer is named after the basename, is visible with opacity 1.0, and has a well-formed surface of the decoded size |
| Layers.LoadedPixels | src/layer.c:41-45 | a loaded layer shows the decoded image's pixel at every position |
| Layers.LayerFree | src/layer.c:54-60 | freeing NULL releases nothing. Otherwise the name and the record are released, and the surface exactly when the layer has one |
| Layers.LayerFreeOnce | src/layer.c:54-60 | no resource of a layer is released twice |
| Viewport.WidgetToCanvas | src/main.c:137-142 | mapping a widget point to the canvas and back through the inverse mapping returns the widget point |
| Viewport.CanvasRoundTrip | src/main.c:137-142 | mapping a canvas point to the widget and back returns the canvas point |
| Viewport.Zoomed | src/main.c:127-128 | scrolling up strictly increases the zoom, scrolling down strictly decreases it, other directions leave it, and it stays positive |
| Viewport.OnScroll | src/main.c:116-135 | the event is consumed exactly with Ctrl, and without Ctrl nothing changes. With Ctrl the zoom steps, and in every case the canvas point under the pointer stays the same |
| Viewport.ZoomInThenOut | src/main.c:127-131 | one zoom step in then one step out at the same pointer position restores pan and zoom exactly |
| Viewport.ZoomOutThenIn | src/main.c:127-131 | one zoom step out then one step in at the same pointer position restores pan and zoom exactly |
| Viewport.Frac | src/main.c:57-58 | the fraction a pan loses to `floor` is in [0, 1) and is zero exactly for whole numbers |
| Viewport.DrawnUnderPointer | src/main.c:57-66 | for DrawnAt, the point a click designates is drawn offset by frac(pan)·zoom from the pointer, and is drawn under the pointer exactly when both pans are whole |
| Checker.CheckerboardParity | src/main.c:22-31 | the squares the loop fills (Squares) cover every pixel, and every square covering a pixel has the colour the parity rule gives that pixel |
| Checker.Alternates | src/main.c:24 | moving one cell right or down flips a square's colour |
| Checker.AfterSquaresAgree | src/main.c:22-31 | when every filled rectangle that covers a pixel has the same colour, filling them in order leaves that colour on the pixel if any rectangle covers it, and its old colour otherwise |
| Checker.SquaresPaintCheckerboard | src/main.c:22-31 | filling the loop's rectangles one after another leaves every pixel of the surface in its parity colour, whatever it held before |
| Checker.FillCheckerboard | src/main.c:13-34 | after the fill every pixel is light exactly when (x/cell + y/cell) is even, and dark otherwise |
| App.SelectTool | src/main.c:83-102 | a tool button changes only the current tool; every other field, including the brush and eraser stroke states, is unchanged |
| App.SetRadius | src/main.c:104-108 | the slider sets the radius within its range 1..50 and changes no other field |
| App.Scroll | src/main.c:116-135 | scrolling changes only the view, and changes nothing without Ctrl. With Ctrl it steps the zoom by the scroll direction and keeps the canvas point under the pointer fixed |
| App.AppendLayer | src/main.c:216-217 | appending keeps every earlier layer, adds the new layer last and makes it active, and preserves consistency: the active layer stays in the stack |
| App.NewBlankLayer | src/main.c:226-236 | a new transparent 512x512 layer named "Layer", with opacity 1.0, goes on top of an unchanged stack and becomes active; no other field changes |
| App.AddImageLayer | src/main.c:213-220 | a failed load changes nothing at all. A successful load adds exactly the layer built from the file, named after its basename, on top of an unchanged stack and makes it active; no other field changes |
| App.SetVisible | src/main.c:144-151 | toggling visibility changes only that layer's flag; every other layer and every other field is unchanged |
| App.Rows | src/main.c:178-187 | the layer list shows the layers newest first: row r shows layer n-1-r |
| App.HighlightedRow | src/main.c:185-186 | the highlighted row is the one showing the active layer itself (row n-1-a for active index a, not merely a row holding an equal layer), and there is one exactly when a layer is active |
| App.SelectRow | src/main.c:294-304 | selecting row k activates the layer shown in it, at index n-1-k, even when another layer is equal to it, and changes no other field; a deselection changes nothing |
| App.SelectHighlightedRow | src/main.c:185-186 | selecting the highlighted row leaves the state as it was |
| App.NewLayerListedFirst | src/main.c:178-186 | a newly appended layer appears in the first row and is highlighted there |
| App.CompositeOrder | src/main.c:60-69 | the compositor paints exactly the visible layers with a surface, each once, in stack order from the bottom |
| App.AppendedLayerOnTop | src/main.c:60-69 | appending a drawn layer puts it last in the painting order, above every other layer; a hidden one adds nothing |
| App.VisibilityDecidesCompositing | src/main.c:60-69 | after a visibility toggle, the layer is painted exactly when it is on and has a surface, and every other layer's membership is unchanged |
| App.Route | src/main.c:238-280 | a press or release reaches the tool only for the primary button, motion always, at the canvas point that maps back to the event position |
| App.StrokeReaction | src/tools/brush.c:46-66 | every disc a stroke handler stamps has the tool's operator and the current radius. A press stamps exactly one disc at the press point and starts drawing; a release stamps nothing and stops drawing |
| App.RoundHalfAway | src/tools/bucket_tool.c:103-104 | rounding lands within one half of the value, and halfway cases go away from zero |
| App.RoundIsUnique | src/tools/bucket_tool.c:103-104 | exactly one integer satisfies the rounding contract |
| App.PaintActive | src/tools/brush.c:11-29 | the discs are painted on the active surface only. Without an active layer or surface nothing changes; otherwise each pixel gets the fold of the discs over it |
| App.BucketPress | src/tools/bucket_tool.c:98-107 | without an active surface nothing changes, and a start outside the active surface changes nothing. Otherwise the active surface is flood-filled with the brush colour from the rounded pointer position, with the no-op, region and frame guarantees of the fill |
| App.HandleEvent | src/main.c:238-280 | covers one pointer event. Only the current tool's own state and the active layer's pixels can change, and a press records the pointer position. A non-primary press or release changes nothing else; bucket motion and release change nothing. A stroke tool moves to the state its handler gives, and the active surface receives exactly that handler's discs. A primary bucket press outside the active layer changes nothing but the recorded position. Inside, it leaves the layer unchanged when the start pixel already has the brush colour, otherwise fills the start pixel's connected region with the brush colour, and never changes a pixel outside that region |
| App.InitialApp | src/main.c:389-407 | start-up gives one active, visible 512x512 "Base" layer with the 10-pixel checkerboard, the brush tool, radius 10, zoom 1 at pan (0, 0), and both stroke tools idle |
| App.FreeAll | src/main.c:412-414 | the exit loop releases as many records and name buffers as there are layers, and as many surfaces as there are layers with one |
| App.SurfacesOf | src/layer.c:58 | lists, in increasing order, exactly the layers that own a surface |

## Left out

- GTK widgets, signals, the file dialog, the theme toggle and redraw requests are left out. Each handler is modelled as a transition of the application state.
- Image decoding through gdk-pixbuf is a parameter. `Layers.LayerNewFromFile` receives the decoder's result, already in the byte layout of a surface.
- `g_path_get_basename` is modelled for POSIX paths only.
- Memory allocation is left out: the failure of `calloc` in `flood_fill`, `malloc`, and the frees of `layer_free` beyond listing what they release.
- Raster.PaintDisc: decides only the pixels a disc covers completely. cairo's anti-aliased edge pixels and the polygon approximation of the arc are not modelled. Such pixels are left unchanged instead of being blended.
- Raster.PaintDisc: requires an opaque colour for OVER discs, where OVER then replaces the pixel. Premultiplied blending with a translucent colour is not modelled; the brush colour is always opaque black.
- App.BrushColour is a constant because nothing in the program changes `brush_color` after it is parsed from "#000000". The GdkRGBA-to-byte conversion in `flood_fill` is therefore modelled as that constant's bytes.
- cairo's premultiplied-alpha interpretation of the stored bytes is not modelled; colours are raw bytes.
- Arithmetic on doubles is modelled over the reals. This covers the step count (including `sqrt`), the interpolation, the zoom and pan, and `widget_to_canvas`. The conversion of a huge step count to `int` is not modelled.
- App.CompositeOrder: lists which layers are painted and in which order. The blending itself (`cairo_paint_with_alpha`) is not modelled: the nearest-neighbour scaling, the background paint (which reads an uninitialised colour), and each layer's opacity, which is always 1.0.
- App.BucketPress: requires the four bytes at the rounded start's offset to lie inside the active surface's buffer. `flood_fill` reads them with no bounds check, so a read beyond the buffer is undefined behaviour. An outside start whose read stays in the buffer is modelled, and it changes nothing.
- App.HandleEvent: carries the same requirement (`BucketPressReadable`) for a primary-button bucket press, for the same reason.
- Bucket.FloodFill: requires the start's read to stay in the buffer, for the same reason.
- App.SelectRow: requires the row index to be one of the list's rows, because GTK only reports rows that exist.
- The layer-list rebuild of `refresh_layer_list` is modelled only as the order of its rows (`App.Rows`) and the row it highlights.
- The `if (!base || !base->surface)` guard of `layer_fill_checkerboard` is not modelled: the base layer always has a surface.
- The `TOOL_PAN` enum of `app_state.h` and the `is_drawing` field of `AppState` are unused by the code and are not modelled. Tools follow `main.c`: brush, eraser and bucket.

## Findings

| source | as written | input that shows it | evidently intended | confidence | as-written member | corrected member |
|---|---|---|---|---|---|---|
| src/tools/bucket_tool.c:69, 86-89 | the worklist gets `width * height` slots, but every filled pixel pops one entry and pushes four, so the depth is bounded only by 1 + 3·W·H and already reaches 4 on a 1x1 image | a 1x1 image whose pixel differs from the brush colour: the start pixel is filled and four neighbours are pushed into a 1-slot buffer | a worklist with room for every entry the loop can push, at least 1 + 3·W·H, or a bounds check before each push | not executed | Bucket.SinglePixelFillOverflows | Bucket.FloodFill |
