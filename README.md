# Interactive image filter: a Dafny model of the editor core

The program is a small OpenCV paint demo. A window shows a colour bar
stacked above an image. Six trackbars choose a colour (r, g, b), a mode
(0 none, 1 draw, 2 filter preview, 3 region fill), a filter and a confirm
flag. The editor changes the image in place according to the mode. It
exists twice: `cv_paint.py` is a class `Paint`, and `main.py` is the same
loop written as free functions.

This project models the core of both variants:

- the H x W x 3 `uint8` buffer;
- numpy's slice rules and whole-slice assignments;
- the colour bar and the stacked frame;
- the brush, the region fill and the filter preview;
- the mouse callbacks and the per-frame mode dispatch.

Modules:

- `Raster` (`raster.dfy`): the buffer as `array2<Pixel>`. A `Pixel` keeps
  the channels in buffer order (blue, green, red). The module also holds
  numpy slice normalisation (`SliceIndex`: a negative bound has the axis
  length added, then the bound is clamped to `[0, n]`), slice assignment
  as a bulk `forall` update, `copy` and `cvtColor`, and the pixel-wise
  semantics of filling a list of rectangles.
- `Editor` (`editor.dfy`): the trackbar positions (`Controls`, each value
  typed by its trackbar's range) and the trackbar panel (`Trackbars`). It
  also has the mode captions, mouse events and the draw-flag transition,
  the conversion each filter position selects, and `CommitIndex`, the
  poll that ends a filter preview.
- `CvPaint` (`cv_paint.dfy`): class `Paint` with the fields of the Python
  class, its handlers and one pass of `run`.
- `MainScript` (`main_script.dfy`): the functions of `main.py`. The shared
  `draw_states` dictionary is a class `DrawStates`, and one pass of
  `main` is a method.

Things the model makes explicit:

- The brush writes `img[y-w : y+w, x-w : x+w]` with no bounds check, so
  numpy's rules decide what happens at the edges.
  - In the interior the painted rows are exactly `[y-w, y+w)`.
  - With the cursor on the colour bar, `y` is negative. If both bounds
    are negative, the rows counted from the bottom of the image are
    painted (`BrushRowsAboveImageWrap`).
  - A brush straddling the top edge paints nothing
    (`BrushRowsAcrossTopEdgeEmpty`). The same holds for columns at the
    left edge.
- Both region-fill loops are nested: every rectangle is filled once per
  outer pass. The model runs that loop as written. It proves the result
  is the same as one pass (`FillPassesIsOnePass`), and that one pass
  paints exactly the pixels covered by some rectangle (`FillPassCovered`).
- The two mouse callbacks differ. In `cv_paint.py` the cursor is recorded
  on every event. In `main.py` it is recorded only when the parameters
  say mode 1. The parameters are built only in mode 1, so the callback
  that `main` registers always sees mode 1.
- The two region-fill paths differ as well. `Paint.handle_roi_mode`
  resets the mode trackbar. `rois_select_colors` does not: `main` only
  resets confirm, at the end of every frame.

Inputs the program gets from outside are parameters of the model:

- the loaded image (`Paint` constructor, `MainScript.Frame`);
- the rectangles `selectROIs` returns (`rois`);
- the trackbar reads during a filter preview (`polls`, one `Controls`
  snapshot per read);
- the per-pixel colour conversion `convert`, which stands for OpenCV's
  conversion arithmetic.

## Model

| member | source | states |
|---|---|---|
| `Raster.WithChannel` | main.py:140-142 | writing channel k sets that channel to v and keeps the other two |
| `Raster.Solid` | main.py:139 | `np.zeros` of shape (h, w): every pixel is the given one |
| `Raster.VStack` | main.py:44 | the window frame has the bar's rows first; window row `|bar| + i` is image row i |
| `Raster.AssignChannel` | main.py:140-142 | `bar[:, :, k] = v` keeps the shape and sets channel k of every pixel, leaving the other channels |
| `Raster.SliceIndex` | cv_paint.py:114 | a slice bound lands in [0, n]; in-range bounds are kept; negative bounds count from the end; out-of-range bounds clamp |
| `Raster.SliceLen` | cv_paint.py:114 | the number of selected indices; the selection is the contiguous run from the normalised start |
| `Raster.SliceWithinAxis` | cv_paint.py:114 | bounds inside [0, n] select exactly [start, stop) |
| `Raster.SlicePastEnd` | cv_paint.py:114 | a stop past the end is cut at the end of the axis |
| `Raster.SliceFromEnd` | cv_paint.py:114 | two negative bounds select [n + start, n + stop) |
| `Raster.SliceAcrossZeroIsEmpty` | cv_paint.py:114 | a negative start whose wrapped value is at or past a non-negative stop selects nothing |
| `Raster.BrushRowsInside` | cv_paint.py:109-114 | a brush inside the image paints rows [y-w, y+w) exactly |
| `Raster.BrushRowsAboveImageWrap` | cv_paint.py:109-114 | a brush above the image (cursor over the bar) paints rows counted from the bottom |
| `Raster.BrushRowsAcrossTopEdgeEmpty` | cv_paint.py:109-114 | a brush straddling the top edge paints no row |
| `Raster.BrushAtCentreOfSquareImage` | main.py:86-94 | weight 1 at (50, 50) in a 100 x 100 image paints exactly rows and columns 49..50 |
| `Raster.CoveredExtend` | cv_paint.py:165 | one more rectangle covers what the earlier ones covered plus its own pixels |
| `Raster.FillPass` | cv_paint.py:165-172 | one pass of the inner loop on one pixel: each rectangle that contains it writes the colour, in list order; `FillPassCovered` states the result |
| `Raster.FillPasses` | cv_paint.py:164-172 | the outer loop: n passes of the inner loop; `FillPassesIsOnePass` and `NestedFillCovered` state the result |
| `Raster.FillPassCovered` | cv_paint.py:165-172 | one pass over the rectangles paints a pixel with the colour iff some rectangle covers it, else leaves it |
| `Raster.FillPassIdempotent` | cv_paint.py:164-172 | a second pass changes nothing |
| `Raster.FillPassesIsOnePass` | cv_paint.py:164-172 | any positive number of passes equals one pass |
| `Raster.NestedFillCovered` | main.py:159-169 | the nested loops (one outer pass per rectangle) paint exactly the covered pixels; with no rectangles nothing changes |
| `Raster.SliceOf` | cv_paint.py:166 | the view `img[r0:r1, c0:c1]` has the slice's shape and the buffer's pixels at the offset |
| `Raster.AssignSlice` | cv_paint.py:114 | `img[r0:r1, c0:c1, :] = c`: pixels in the normalised slice become c, all others keep their values |
| `Raster.AssignSliceFrom` | main.py:175 | `img[r0:r1, c0:c1, :] = src`: the slice takes src's pixels at the offset, all others keep their values |
| `Raster.CopyImage` | cv_paint.py:139 | `img.copy()` is a fresh buffer of the same shape and pixels |
| `Raster.CvtColor` | cv_paint.py:142-146 | `cvtColor` is a fresh buffer of the same shape, each pixel converted |
| `Editor.Trackbars.constructor` | cv_paint.py:84-89 | every trackbar starts at 0 |
| `Editor.Trackbars.SetMode` | cv_paint.py:152 | `setTrackbarPos("mode")` changes only the mode position |
| `Editor.Trackbars.SetFilter` | cv_paint.py:153 | `setTrackbarPos("filter")` changes only the filter position |
| `Editor.Trackbars.SetConfirm` | cv_paint.py:154 | `setTrackbarPos("confirm")` changes only the confirm position |
| `Editor.DrawTransition` | cv_paint.py:122-126 | one event: in mode 1 a press sets the flag and a release clears it, otherwise it is kept; `DrawStateFollowsButton` and `DrawStateKeptOutsideDrawMode` state what a sequence of events does |
| `Editor.DrawStateFollowsButton` | cv_paint.py:120-128 | in draw mode, after any events the draw flag is the direction of the last press or release (or unchanged if none) |
| `Editor.DrawStateKeptOutsideDrawMode` | cv_paint.py:122 | outside draw mode no event sequence changes the draw flag |
| `Editor.FilterConversion` | cv_paint.py:141-146 | filter 0 selects no conversion; 1, 2, 3 select HLS, LAB, LUV, each iff |
| `Editor.CommitIndex` | cv_paint.py:138-140 | the preview ends at the first read after the reset that shows confirm set; every read before it shows confirm 0 |
| `CvPaint.HandlerFor` | cv_paint.py:37-42 | dictionary lookup with default: modes 1, 2, 3 get their handlers, any other value the default |
| `CvPaint.Paint.constructor` | cv_paint.py:7-35 | the working image is the loaded one; the bar is a fresh zero buffer of shape (H // 10, W); colour, mode, filter 0; confirm 1; cursor (0, 0); draw flag off; brush weight 1 |
| `CvPaint.Paint.DisplayGui` | cv_paint.py:62-79 | the caption index is in range; the frame has H // 10 + H rows; every bar pixel is (b, g, r) before text; row H // 10 + i is image row i, which under `Valid` is the bar-height offset the draw handler subtracts |
| `CvPaint.Paint.RetrieveTrackbarData` | cv_paint.py:91-98 | the six fields take the trackbar positions |
| `CvPaint.Paint.HandleDrawingMode` | cv_paint.py:104-118 | with the draw flag off nothing changes; with it on, the pixels in the normalised brush slice at (mouse_x, mouse_y - bar height) become (b, g, r) and all others keep their values |
| `CvPaint.Paint.MouseCallBack` | cv_paint.py:120-128 | in mode 1 a press sets the draw flag and a release clears it; other events and other modes leave it; the cursor is recorded always |
| `CvPaint.Paint.HandleFilterMode` | cv_paint.py:130-156 | without confirm nothing changes. With confirm the stored image is untouched during the preview; on exit it is a fresh same-shape preview for the committing read's filter (an unmodified copy for filter 0); the fields hold that read; mode, filter and confirm trackbars are 0 |
| `CvPaint.Paint.FillRoi` | cv_paint.py:166-172 | filling the view and writing it back paints exactly the rectangle |
| `CvPaint.Paint.HandleRoiMode` | cv_paint.py:158-173 | without confirm nothing changes; with confirm the confirm and mode trackbars become 0, the image is the nested-loop result, and that is: covered pixels (b, g, r), all others unchanged |
| `CvPaint.Paint.HandleDefaultMode` | cv_paint.py:175-177 | mode 0 does nothing: the method may modify no state |
| `CvPaint.Paint.Frame` | cv_paint.py:44-56 | one pass of `run`. Reads the trackbars. Mode 0 changes nothing. Mode 1 draws. Modes 2 and 3 act only on confirm, with their handlers' results; a committed filter installs a fresh buffer, leaves the old one untouched and holds the committing read. The bar stays consistent with the image |
| `MainScript.DrawStates.constructor` | main.py:5-14 | the shared dictionary starts with the draw flag off and the cursor at (0, 0) |
| `MainScript.UpdateColorBar` | main.py:138-142 | a bar of shape (H // 10, W) whose channel 0 is b, channel 1 g and channel 2 r at every pixel |
| `MainScript.Draw` | main.py:86-94 | the same buffer is returned; pixels in the normalised slice around (x, y - bar height) with weight 1 become (b, g, r), all others unchanged |
| `MainScript.MouseCallBack` | main.py:97-107 | only with mode_choice 1: a press sets the shared flag, a release clears it, the cursor is recorded; otherwise the dictionary is unchanged |
| `MainScript.FilterImage` | main.py:110-128 | returns a fresh same-shape preview for the committing read's filter (a copy equal to the input for filter 0); the input is untouched; mode and filter trackbars are 0 |
| `MainScript.OverlayImage` | main.py:174-176 | the same buffer is returned; the rectangle takes the overlay's pixels and every other pixel is unchanged |
| `MainScript.FillRoi` | main.py:161-169 | filling the view and overlaying it back paints exactly the rectangle |
| `MainScript.RoisSelectColors` | main.py:156-170 | the same buffer is returned; the nested-loop result is: covered pixels (b, g, r), all others unchanged; no rectangles leaves the image unchanged |
| `MainScript.Frame` | main.py:40-78 | one pass of `main`. Mode 0 leaves the image. Mode 1 hands callback parameters with mode 1 and draws while the flag is set. Modes 2 and 3 act only on confirm; a committed filter returns a fresh preview and leaves the input buffer untouched. The confirm trackbar is 0 at the end of every frame |

## Left out

- Window and display calls are not modelled: `namedWindow`, `imshow`,
  `waitKey` and the quit key. `Frame` models one pass of each main
  loop, not the loop that runs until `q` is pressed.
- Preview frames are not modelled: the filter preview loop's
  `display_gui(new_img)` and `imshow` only display.
- `cv.putText` is not modelled: glyph rasterisation is a foreign library
  call. `Paint.DisplayGui` returns the caption it would draw. The bar is
  specified before text is drawn.
- `update_color_bar`'s `menu_text` and `mode` arguments only feed
  `putText`, so `MainScript.UpdateColorBar` does not take them.
- `cv.cvtColor` arithmetic is the `convert` parameter, applied per pixel.
- `cv.selectROIs` is not modelled: it is an interactive window. Its
  result is the `rois` input.
- `cv.imread` is not modelled: the loaded image is a parameter.
  `Paint.original_img`, an alias of the image that is never read again,
  is not modelled either.
- `cv.setMouseCallback` registration in `cv_paint.py` is not modelled.
  Mouse events arrive asynchronously in the program. In the model the
  callbacks are methods called between frames. Timing and the
  synchronisation between callback and loop are left out.
- `CvPaint.Paint.HandleRoiMode` and `MainScript.Frame` in mode 3 assume
  the sliders do not move while the region fill runs. In the program the
  user can move the colour and filter sliders during `waitKey(100)` and
  the interactive `selectROIs` (cv_paint.py:161-163). Only the mode and
  confirm positions the handler sets are modelled. The filter preview
  does model slider moves, as `polls`.
- The filter preview's timing is not modelled (`waitKey(100)`,
  `waitKey(10)`). The user's slider moves are the `polls` snapshots.
- The path where the read right after the confirm reset already shows
  confirm set is excluded by `PreviewEnds` (`polls[0].confirm == 0`). On
  that path the program would use an unbound `new_img`. `PreviewEnds`
  also asks for a later read that confirms: the program blocks until
  one comes.
- The `print` calls, `get_color_vals`, and the unused initial colour bar
  of `main.py` are not modelled separately. The trackbar reads of
  `get_color_vals` are written inline in `MainScript.Frame`.
- `MainScript.OverlayImage` requires an overlay of exactly the slice's
  shape. numpy raises an error for shapes it cannot broadcast, and the
  only caller passes the slice's own view. Broadcasting of other shapes
  is not modelled.
- The `roi_img` view is not modelled as an alias: it is a filled slice
  followed by a copy of its contents back onto itself. The pixels that
  result are the same.
