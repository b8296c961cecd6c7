/** The function-based editor: the same loop written as free functions
    over an image passed around by reference, with the draw flag and the
    cursor kept in a dictionary shared with the mouse callback. */
module MainScript {
  import opened Raster
  import opened Editor

  /** Half the side of the square brush. */
  const LineWght := 1

  /** The shared `draw_states` dictionary the mouse callback writes. */
  class DrawStates {
    var drawState: bool
    var mouseX: int
    var mouseY: int

    constructor ()
      ensures !drawState && mouseX == 0 && mouseY == 0
    {
      drawState, mouseX, mouseY := false, 0, 0;
    }
  }

  /** The `mouse_params` dictionary handed to the callback. */
  datatype MouseParams = MouseParams(modeChoice: int, img: array2<Pixel>, drawStates: DrawStates)

  /** `update_color_bar`: a new bar one tenth of the image's height and as
      wide as the image, starting from zeros, whose channels 0, 1 and 2 are
      then set to blue, green and red. */
  function UpdateColorBar(img: array2<Pixel>, r: Byte, g: Byte, b: Byte): (bar: Grid)
    ensures HasShape(bar, img.Length0 / 10, img.Length1)
    ensures forall i, j :: 0 <= i < img.Length0 / 10 && 0 <= j < img.Length1 ==>
              && Channel(bar[i][j], 0) == b && Channel(bar[i][j], 1) == g && Channel(bar[i][j], 2) == r
              && bar[i][j] == Pixel(b, g, r)
  {
    var zeros := Solid(img.Length0 / 10, img.Length1, Black);
    AssignChannel(AssignChannel(AssignChannel(zeros, 0, b), 1, g), 2, r)
  }

  /** `draw`: the square brush at the cursor, moved up by the colour bar's
      height, is painted with the colour; every other pixel keeps its value,
      and the same buffer is returned. */
  method Draw(img: array2<Pixel>, colorBar: Grid, x: int, y: int, r: Byte, g: Byte, b: Byte)
    returns (out: array2<Pixel>)
    modifies img
    ensures out == img
    ensures forall i, j :: 0 <= i < img.Length0 && 0 <= j < img.Length1 ==>
              img[i, j] == if InBrush(i, j, y - |colorBar|, x, LineWght, img.Length0, img.Length1)
                           then Pixel(b, g, r) else old(img[i, j])
  {
    var y' := y - |colorBar|;
    AssignSlice(img, y' - LineWght, y' + LineWght, x - LineWght, x + LineWght, Pixel(b, g, r));
    out := img;
  }

  /** `mouse_call_back`: only when the parameters say draw mode, a press
      sets the shared draw flag, a release clears it, and the cursor is
      recorded; otherwise the shared dictionary is left alone. */
  method MouseCallBack(event: MouseEvent, x: int, y: int, params: MouseParams)
    modifies params.drawStates
    ensures params.drawStates.drawState == DrawTransition(params.modeChoice, event, old(params.drawStates.drawState))
    ensures params.modeChoice == 1 ==> params.drawStates.mouseX == x && params.drawStates.mouseY == y
    ensures params.modeChoice != 1 ==>
              params.drawStates.drawState == old(params.drawStates.drawState)
              && params.drawStates.mouseX == old(params.drawStates.mouseX)
              && params.drawStates.mouseY == old(params.drawStates.mouseY)
  {
    if params.modeChoice == 1 {
      if event == LButtonDown {
        params.drawStates.drawState := true;
      }
      if event == LButtonUp {
        params.drawStates.drawState := false;
      }
      params.drawStates.mouseX := x;
      params.drawStates.mouseY := y;
    }
  }

  /** `filter_image`. The confirm trackbar is reset and read (`polls[0]`);
      each preview is a fresh copy or conversion of `img`, which is left
      alone, until a read shows confirm set again. The mode and filter
      trackbars then go back to 0 and the last preview is returned. The
      colour bar is only displayed. */
  method FilterImage(colorBar: Grid, img: array2<Pixel>, panel: Trackbars, polls: seq<Controls>,
                     convert: (Conversion, Pixel) -> Pixel)
    returns (newImg: array2<Pixel>)
    requires PreviewEnds(polls)
    modifies panel
    ensures fresh(newImg)
    ensures newImg.Length0 == img.Length0 && newImg.Length1 == img.Length1
    ensures forall i, j :: 0 <= i < img.Length0 && 0 <= j < img.Length1 ==>
              newImg[i, j] == Filtered(convert, polls[CommitIndex(polls, 1)].filter, img[i, j])
    ensures polls[CommitIndex(polls, 1)].filter == 0 ==>
              forall i, j :: 0 <= i < img.Length0 && 0 <= j < img.Length1 ==> newImg[i, j] == img[i, j]
    ensures panel.pos == polls[CommitIndex(polls, 1)].(mode := 0, filter := 0)
  {
    panel.SetConfirm(0);
    panel.Adjust(polls[0]);
    var confirm := panel.pos.confirm;
    ghost var last := CommitIndex(polls, 1);
    var k := 0;
    // Never used: the loop below runs at least once.
    newImg := img;
    while confirm == 0
      invariant 0 <= k <= last
      invariant panel.pos == polls[k] && confirm == polls[k].confirm
      invariant k >= 1 ==>
                  && fresh(newImg)
                  && newImg.Length0 == img.Length0 && newImg.Length1 == img.Length1
                  && forall i, j :: 0 <= i < img.Length0 && 0 <= j < img.Length1 ==>
                       newImg[i, j] == Filtered(convert, polls[k].filter, img[i, j])
      decreases last - k
    {
      newImg := CopyImage(img);
      k := k + 1;
      panel.Adjust(polls[k]);
      var filterSelection := panel.pos.filter;
      if filterSelection == 1 {
        newImg := CvtColor(img, BgrToHls, convert);
      } else if filterSelection == 2 {
        newImg := CvtColor(img, BgrToLab, convert);
      } else if filterSelection == 3 {
        newImg := CvtColor(img, BgrToLuv, convert);
      }
      confirm := panel.pos.confirm;
    }
    panel.SetMode(0);
    panel.SetFilter(0);
  }

  /** `overlay_image`: the rectangle `img[y:y+h, x:x+w]` takes the pixels
      of `overlayImg`, which has exactly its shape; every other pixel keeps
      its value, and the same buffer is returned. */
  method OverlayImage(img: array2<Pixel>, overlayImg: Grid, x: int, y: int, w: int, h: int)
    returns (out: array2<Pixel>)
    requires HasShape(overlayImg, SliceLen(y, y + h, img.Length0), SliceLen(x, x + w, img.Length1))
    modifies img
    ensures out == img
    ensures forall i, j :: 0 <= i < img.Length0 && 0 <= j < img.Length1 ==>
              img[i, j] == if InRect(Rect(x, y, w, h), i, j, img.Length0, img.Length1)
                           then overlayImg[i - SliceIndex(y, img.Length0)][j - SliceIndex(x, img.Length1)]
                           else old(img[i, j])
  {
    AssignSliceFrom(img, y, y + h, x, x + w, overlayImg);
    out := img;
  }

  /** The body of the inner loop of `rois_select_colors` for one
      rectangle: `roi_img` is a view of the rectangle, so filling it fills
      the image, and overlaying it copies the rectangle onto itself. */
  method FillRoi(img: array2<Pixel>, rc: Rect, c: Pixel)
    modifies img
    ensures forall i, j :: 0 <= i < img.Length0 && 0 <= j < img.Length1 ==>
              img[i, j] == if InRect(rc, i, j, img.Length0, img.Length1) then c else old(img[i, j])
  {
    AssignSlice(img, rc.y, rc.y + rc.h, rc.x, rc.x + rc.w, c);
    var roiImg := SliceOf(img, rc.y, rc.y + rc.h, rc.x, rc.x + rc.w);
    var same := OverlayImage(img, roiImg, rc.x, rc.y, rc.w, rc.h);
  }

  /** `rois_select_colors`: every selected rectangle is filled with the
      colour (the nested loops fill each one once per outer pass, which
      paints the same pixels as a single pass); pixels outside all of them
      keep their values, and the same buffer is returned. */
  method RoisSelectColors(img: array2<Pixel>, r: Byte, g: Byte, b: Byte, rois: seq<Rect>)
    returns (out: array2<Pixel>)
    modifies img
    ensures out == img
    ensures forall i, j :: 0 <= i < img.Length0 && 0 <= j < img.Length1 ==>
              && img[i, j] == FillPasses(old(img[i, j]), |rois|, rois, i, j, img.Length0, img.Length1, Pixel(b, g, r))
              && img[i, j] == if Covered(rois, i, j, img.Length0, img.Length1) then Pixel(b, g, r) else old(img[i, j])
    ensures rois == [] ==> forall i, j :: 0 <= i < img.Length0 && 0 <= j < img.Length1 ==> img[i, j] == old(img[i, j])
  {
    var c := Pixel(b, g, r);
    var n := 0;
    while n < |rois|
      invariant 0 <= n <= |rois|
      invariant forall i, j :: 0 <= i < img.Length0 && 0 <= j < img.Length1 ==>
                  img[i, j] == if n > 0 && Covered(rois, i, j, img.Length0, img.Length1) then c else old(img[i, j])
    {
      var m := 0;
      while m < |rois|
        invariant 0 <= m <= |rois|
        invariant forall i, j :: 0 <= i < img.Length0 && 0 <= j < img.Length1 ==>
                    img[i, j] == if (n > 0 && Covered(rois, i, j, img.Length0, img.Length1))
                                    || Covered(rois[..m], i, j, img.Length0, img.Length1)
                                 then c else old(img[i, j])
      {
        FillRoi(img, rois[m], c);
        forall i, j | 0 <= i < img.Length0 && 0 <= j < img.Length1
          ensures Covered(rois[..m + 1], i, j, img.Length0, img.Length1)
              <==> Covered(rois[..m], i, j, img.Length0, img.Length1) || InRect(rois[m], i, j, img.Length0, img.Length1)
        {
          CoveredExtend(rois, m, i, j, img.Length0, img.Length1);
        }
        m := m + 1;
      }
      assert rois[..m] == rois;
      n := n + 1;
    }
    forall i, j | 0 <= i < img.Length0 && 0 <= j < img.Length1
      ensures FillPasses(old(img[i, j]), |rois|, rois, i, j, img.Length0, img.Length1, c)
           == if Covered(rois, i, j, img.Length0, img.Length1) then c else old(img[i, j])
    {
      NestedFillCovered(old(img[i, j]), rois, i, j, img.Length0, img.Length1, c);
    }
    out := img;
  }

  /** One pass of the loop in `main`: read the colour and mode, build the
      colour bar, read confirm, act on the mode, and reset the confirm
      trackbar. Draw mode hands the callback parameters whose mode is 1 and
      paints while the shared flag is set; filter and region fill act only
      when confirm is set. `rois` stands for what region selection returns
      and `polls` for the reads a filter preview makes. */
  method Frame(img: array2<Pixel>, drawStates: DrawStates, panel: Trackbars, rois: seq<Rect>,
               polls: seq<Controls>, convert: (Conversion, Pixel) -> Pixel)
    returns (next: array2<Pixel>, colorBar: Grid, params: Option<MouseParams>)
    requires panel.pos.mode == 2 && panel.pos.confirm != 0 ==> PreviewEnds(polls)
    modifies img, panel
    ensures HasShape(colorBar, img.Length0 / 10, img.Length1)
    ensures panel.pos.confirm == 0
    ensures params.Some? <==> old(panel.pos).mode == 1
    ensures params.Some? ==> params.value.modeChoice == 1 && params.value.drawStates == drawStates
    ensures old(panel.pos).mode != 2 ==> next == img
    ensures old(panel.pos).mode == 0 ==>
              panel.pos == old(panel.pos).(confirm := 0)
              && forall i, j :: 0 <= i < img.Length0 && 0 <= j < img.Length1 ==> img[i, j] == old(img[i, j])
    ensures old(panel.pos).mode == 1 ==>
              panel.pos == old(panel.pos).(confirm := 0)
              && forall i, j :: 0 <= i < img.Length0 && 0 <= j < img.Length1 ==>
                   img[i, j] == if drawStates.drawState
                                   && InBrush(i, j, drawStates.mouseY - img.Length0 / 10, drawStates.mouseX, LineWght, img.Length0, img.Length1)
                                then Pixel(old(panel.pos).b, old(panel.pos).g, old(panel.pos).r) else old(img[i, j])
    ensures old(panel.pos).mode in {2, 3} && old(panel.pos).confirm == 0 ==>
              next == img && panel.pos == old(panel.pos)
              && forall i, j :: 0 <= i < img.Length0 && 0 <= j < img.Length1 ==> img[i, j] == old(img[i, j])
    ensures old(panel.pos).mode == 2 && old(panel.pos).confirm != 0 ==>
              var k := CommitIndex(polls, 1);
              && fresh(next)
              && next.Length0 == img.Length0 && next.Length1 == img.Length1
              && (forall i, j :: 0 <= i < img.Length0 && 0 <= j < img.Length1 ==> img[i, j] == old(img[i, j]))
              && (forall i, j :: 0 <= i < img.Length0 && 0 <= j < img.Length1 ==>
                    next[i, j] == Filtered(convert, polls[k].filter, img[i, j]))
              && panel.pos == polls[k].(mode := 0, filter := 0, confirm := 0)
    ensures old(panel.pos).mode == 3 && old(panel.pos).confirm != 0 ==>
              panel.pos == old(panel.pos).(confirm := 0)
              && forall i, j :: 0 <= i < img.Length0 && 0 <= j < img.Length1 ==>
                   img[i, j] == if Covered(rois, i, j, img.Length0, img.Length1)
                                then Pixel(old(panel.pos).b, old(panel.pos).g, old(panel.pos).r) else old(img[i, j])
  {
    // get_color_vals
    var r, g, b := panel.pos.r, panel.pos.g, panel.pos.b;
    var modeChoice := panel.pos.mode;
    colorBar := UpdateColorBar(img, r, g, b);
    var confirm := panel.pos.confirm;
    next := img;
    params := None;
    if modeChoice == 1 {
      // The callback is registered with these parameters.
      params := Some(MouseParams(modeChoice, img, drawStates));
      if drawStates.drawState {
        next := Draw(img, colorBar, drawStates.mouseX, drawStates.mouseY, r, g, b);
      }
    } else if modeChoice == 2 && confirm != 0 {
      next := FilterImage(colorBar, img, panel, polls, convert);
    } else if modeChoice == 3 && confirm != 0 {
      next := RoisSelectColors(img, r, g, b, rois);
    }
    panel.SetConfirm(0);
  }
}
