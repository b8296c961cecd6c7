/** The class-based editor: a `Paint` object owns the image, the colour
    bar built at start-up, the control values it last read from the
    trackbars, the cursor and the draw flag, and each frame dispatches on
    the mode to a handler that edits the image in place. */
module CvPaint {
  import opened Raster
  import opened Editor

  /** The handlers the mode table names. */
  datatype Handler = DrawingMode | FilterMode | RoiMode | DefaultMode

  /** The mode table: modes 1, 2 and 3 have handlers of their own. */
  const ModeHandlers: map<int, Handler> := map[1 := DrawingMode, 2 := FilterMode, 3 := RoiMode]

  /** `mode_handlers.get(mode, handle_default_mode)`. */
  function HandlerFor(mode: int): (h: Handler)
    ensures h == DrawingMode <==> mode == 1
    ensures h == FilterMode <==> mode == 2
    ensures h == RoiMode <==> mode == 3
    ensures h == DefaultMode <==> mode < 1 || 3 < mode
  {
    if mode in ModeHandlers then ModeHandlers[mode] else DefaultMode
  }

  class Paint {
    /** The working image. */
    var img: array2<Pixel>
    /** The colour bar made at start-up; only its height is used later. */
    var colorBar: array2<Pixel>
    /** The colour last read from the trackbars. */
    var r: Byte
    var g: Byte
    var b: Byte
    /** The last cursor position, in window coordinates. */
    var mouseX: int
    var mouseY: int
    /** True while the left button is held in draw mode. */
    var drawState: bool
    /** Half the side of the square brush. */
    const lineWeight: int
    /** The mode, filter and confirm values last read from the trackbars. */
    var modeSelection: ModeSel
    var confirmSelection: ConfirmSel
    var filterSelection: FilterSel
    /** The window's trackbars. */
    const panel: Trackbars

    /** The colour bar is one tenth of the image's height and as wide as
        the image, so the bar's height is the offset of the image in the
        window. */
    ghost predicate Valid()
      reads this
    {
      colorBar.Length0 == img.Length0 / 10 && colorBar.Length1 == img.Length1
    }

    /** The control values as this object last read them. */
    ghost function Selections(): Controls
      reads this
    {
      Controls(r, g, b, modeSelection, filterSelection, confirmSelection)
    }

    /** `__init__`, given the loaded image and the window's trackbars. */
    constructor (original: array2<Pixel>, panel: Trackbars)
      ensures Valid()
      ensures img == original && this.panel == panel
      ensures fresh(colorBar)
      ensures forall i, j :: 0 <= i < colorBar.Length0 && 0 <= j < colorBar.Length1 ==> colorBar[i, j] == Black
      ensures Selections() == Controls(0, 0, 0, 0, 0, 1)
      ensures mouseX == 0 && mouseY == 0 && !drawState && lineWeight == 1
    {
      img := original;
      colorBar := new Pixel[original.Length0 / 10, original.Length1]((_, _) => Black);
      r, g, b := 0, 0, 0;
      mouseX, mouseY := 0, 0;
      drawState := false;
      lineWeight := 1;
      modeSelection := 0;
      confirmSelection := 1;
      filterSelection := 0;
      this.panel := panel;
    }

    /** `display_gui`: the frame the window shows for `shown`, a bar of
        the current colour one tenth of the image's height stacked above
        the image, together with the caption for the current mode. */
    method DisplayGui(shown: array2<Pixel>) returns (combined: Grid, caption: string)
      ensures caption == MenuText[modeSelection]
      ensures |combined| == shown.Length0 / 10 + shown.Length0
      ensures forall i, j :: 0 <= i < shown.Length0 / 10 && 0 <= j < shown.Length1 ==>
                |combined[i]| == shown.Length1 && combined[i][j] == Pixel(b, g, r)
      ensures forall i :: 0 <= i < shown.Length0 ==> combined[shown.Length0 / 10 + i] == RowOf(shown, i)
      ensures Valid() && shown.Length0 == img.Length0 ==>
                forall i :: 0 <= i < shown.Length0 ==> combined[colorBar.Length0 + i] == RowOf(shown, i)
    {
      var newColorBar := new Pixel[shown.Length0 / 10, shown.Length1]((_, _) => Black);
      forall i, j | 0 <= i < newColorBar.Length0 && 0 <= j < newColorBar.Length1 {
        newColorBar[i, j] := Pixel(b, g, r);
      }
      caption := MenuText[modeSelection];
      combined := VStack(Rows(newColorBar), Rows(shown));
    }

    /** `retrieve_trackbar_data`. */
    method RetrieveTrackbarData()
      modifies this`r, this`g, this`b, this`modeSelection, this`filterSelection, this`confirmSelection
      ensures Selections() == panel.pos
    {
      r, g, b := panel.pos.r, panel.pos.g, panel.pos.b;
      modeSelection := panel.pos.mode;
      filterSelection := panel.pos.filter;
      confirmSelection := panel.pos.confirm;
    }

    /** `handle_drawing_mode`: while the button is held, the square brush
        at the cursor, moved up by the colour bar's height, is painted with
        the current colour; every other pixel keeps its value. */
    method HandleDrawingMode()
      modifies img
      ensures forall i, j :: 0 <= i < img.Length0 && 0 <= j < img.Length1 ==>
                img[i, j] == if drawState && InBrush(i, j, mouseY - colorBar.Length0, mouseX, lineWeight, img.Length0, img.Length1)
                             then Pixel(b, g, r) else old(img[i, j])
    {
      if drawState {
        var y := mouseY - colorBar.Length0;
        var x := mouseX;
        var w := lineWeight;
        AssignSlice(img, y - w, y + w, x - w, x + w, Pixel(b, g, r));
      }
    }

    /** `mouse_call_back`: in draw mode a press sets the draw flag and a
        release clears it; the cursor is recorded whatever the mode. */
    method MouseCallBack(event: MouseEvent, x: int, y: int)
      modifies this`drawState, this`mouseX, this`mouseY
      ensures drawState == DrawTransition(modeSelection, event, old(drawState))
      ensures modeSelection != 1 ==> drawState == old(drawState)
      ensures mouseX == x && mouseY == y
    {
      if modeSelection == 1 {
        if event == LButtonDown {
          drawState := true;
        }
        if event == LButtonUp {
          drawState := false;
        }
      }
      mouseX := x;
      mouseY := y;
    }

    /** `handle_filter_mode`. Once confirmed, the confirm trackbar is reset
        and the trackbars are read (`polls[0]`, then one read per preview);
        each preview is a fresh copy or conversion of the image, which is
        itself left alone, until a read shows confirm set again. Then the
        mode, filter and confirm trackbars go back to 0 and the last
        preview becomes the image. */
    method HandleFilterMode(polls: seq<Controls>, convert: (Conversion, Pixel) -> Pixel)
      requires Valid()
      requires confirmSelection == 1 ==> PreviewEnds(polls)
      modifies this`img, this`r, this`g, this`b, this`modeSelection, this`filterSelection, this`confirmSelection, panel
      ensures Valid()
      ensures old(confirmSelection) != 1 ==>
                img == old(img) && Selections() == old(Selections()) && panel.pos == old(panel.pos)
      ensures old(confirmSelection) == 1 ==>
                var k := CommitIndex(polls, 1);
                && fresh(img)
                && img.Length0 == old(img.Length0) && img.Length1 == old(img.Length1)
                && (forall i, j :: 0 <= i < img.Length0 && 0 <= j < img.Length1 ==>
                      img[i, j] == Filtered(convert, polls[k].filter, old(img[i, j])))
                && (polls[k].filter == 0 ==>
                      forall i, j :: 0 <= i < img.Length0 && 0 <= j < img.Length1 ==> img[i, j] == old(img[i, j]))
                && Selections() == polls[k]
                && panel.pos == polls[k].(mode := 0, filter := 0, confirm := 0)
    {
      if confirmSelection == 1 {
        panel.SetConfirm(0);
        panel.Adjust(polls[0]);
        RetrieveTrackbarData();
        ghost var last := CommitIndex(polls, 1);
        var k := 0;
        // Never used: the loop below runs at least once.
        var newImg := img;
        while confirmSelection == 0
          invariant 0 <= k <= last
          invariant Selections() == polls[k] && panel.pos == polls[k]
          invariant img == old(img)
          invariant k >= 1 ==>
                      && fresh(newImg)
                      && newImg.Length0 == img.Length0 && newImg.Length1 == img.Length1
                      && forall i, j :: 0 <= i < img.Length0 && 0 <= j < img.Length1 ==>
                           newImg[i, j] == Filtered(convert, polls[k].filter, img[i, j])
          decreases last - k
        {
          newImg := CopyImage(img);
          k := k + 1;
          panel.Adjust(polls[k]);
          RetrieveTrackbarData();
          if filterSelection == 1 {
            newImg := CvtColor(img, BgrToHls, convert);
          } else if filterSelection == 2 {
            newImg := CvtColor(img, BgrToLab, convert);
          } else if filterSelection == 3 {
            newImg := CvtColor(img, BgrToLuv, convert);
          }
        }
        panel.SetMode(0);
        panel.SetFilter(0);
        panel.SetConfirm(0);
        img := newImg;
      }
    }

    /** `handle_roi_mode`. Once confirmed, the confirm trackbar is reset,
        every selected rectangle is filled with the current colour (the
        nested loops fill each one once per outer pass, which paints the
        same pixels as a single pass), and the mode trackbar is reset. */
    method HandleRoiMode(rois: seq<Rect>)
      modifies img, panel
      ensures confirmSelection != 1 ==>
                panel.pos == old(panel.pos)
                && forall i, j :: 0 <= i < img.Length0 && 0 <= j < img.Length1 ==> img[i, j] == old(img[i, j])
      ensures confirmSelection == 1 ==> panel.pos == old(panel.pos).(confirm := 0, mode := 0)
      ensures confirmSelection == 1 ==>
                forall i, j :: 0 <= i < img.Length0 && 0 <= j < img.Length1 ==>
                  && img[i, j] == FillPasses(old(img[i, j]), |rois|, rois, i, j, img.Length0, img.Length1, Pixel(b, g, r))
                  && img[i, j] == if Covered(rois, i, j, img.Length0, img.Length1) then Pixel(b, g, r) else old(img[i, j])
    {
      if confirmSelection == 1 {
        panel.SetConfirm(0);
        var c := Pixel(b, g, r);
        var n := 0;
        while n < |rois|
          invariant 0 <= n <= |rois|
          invariant panel.pos == old(panel.pos).(confirm := 0)
          invariant forall i, j :: 0 <= i < img.Length0 && 0 <= j < img.Length1 ==>
                      img[i, j] == if n > 0 && Covered(rois, i, j, img.Length0, img.Length1) then c else old(img[i, j])
        {
          var m := 0;
          while m < |rois|
            invariant 0 <= m <= |rois|
            invariant panel.pos == old(panel.pos).(confirm := 0)
            invariant forall i, j :: 0 <= i < img.Length0 && 0 <= j < img.Length1 ==>
                        img[i, j] == if (n > 0 && Covered(rois, i, j, img.Length0, img.Length1))
                                        || Covered(rois[..m], i, j, img.Length0, img.Length1)
                                     then c else old(img[i, j])
          {
            var rc := rois[m];
            FillRoi(rc, c);
            forall i, j | 0 <= i < img.Length0 && 0 <= j < img.Length1
              ensures Covered(rois[..m + 1], i, j, img.Length0, img.Length1)
                  <==> Covered(rois[..m], i, j, img.Length0, img.Length1) || InRect(rc, i, j, img.Length0, img.Length1)
            {
              CoveredExtend(rois, m, i, j, img.Length0, img.Length1);
            }
            m := m + 1;
          }
          assert rois[..m] == rois;
          n := n + 1;
        }
        panel.SetMode(0);
        forall i, j | 0 <= i < img.Length0 && 0 <= j < img.Length1
          ensures FillPasses(old(img[i, j]), |rois|, rois, i, j, img.Length0, img.Length1, c)
               == if Covered(rois, i, j, img.Length0, img.Length1) then c else old(img[i, j])
        {
          NestedFillCovered(old(img[i, j]), rois, i, j, img.Length0, img.Length1, c);
        }
      }
    }

    /** The body of the inner loop of `handle_roi_mode` for one rectangle:
        `roi_img` is a view of the rectangle, so filling it fills the image,
        and writing it back copies the rectangle onto itself. */
    method FillRoi(rc: Rect, c: Pixel)
      modifies img
      ensures forall i, j :: 0 <= i < img.Length0 && 0 <= j < img.Length1 ==>
                img[i, j] == if InRect(rc, i, j, img.Length0, img.Length1) then c else old(img[i, j])
    {
      AssignSlice(img, rc.y, rc.y + rc.h, rc.x, rc.x + rc.w, c);
      var roiImg := SliceOf(img, rc.y, rc.y + rc.h, rc.x, rc.x + rc.w);
      AssignSliceFrom(img, rc.y, rc.y + rc.h, rc.x, rc.x + rc.w, roiImg);
    }

    /** `handle_default_mode`: mode 0 does nothing. */
    method HandleDefaultMode()
    {
    }

    /** One pass of the loop in `run`: show the current frame, read the
        trackbars, and run the handler the mode table gives for the mode
        read. `rois` stands for what region selection returns and `polls`
        for the reads a filter preview makes. */
    method Frame(rois: seq<Rect>, polls: seq<Controls>, convert: (Conversion, Pixel) -> Pixel)
      returns (shown: Grid)
      requires Valid()
      requires panel.pos.mode == 2 && panel.pos.confirm == 1 ==> PreviewEnds(polls)
      modifies this, img, panel
      ensures Valid()
      ensures Selections() == old(panel.pos) || (old(panel.pos).mode == 2 && old(panel.pos).confirm == 1)
      ensures colorBar == old(colorBar) && mouseX == old(mouseX) && mouseY == old(mouseY) && drawState == old(drawState)
      ensures old(panel.pos).mode == 0 ==>
                img == old(img) && panel.pos == old(panel.pos)
                && forall i, j :: 0 <= i < img.Length0 && 0 <= j < img.Length1 ==> img[i, j] == old(img[i, j])
      ensures old(panel.pos).mode == 1 ==>
                img == old(img) && panel.pos == old(panel.pos)
                && forall i, j :: 0 <= i < img.Length0 && 0 <= j < img.Length1 ==>
                     img[i, j] == if drawState && InBrush(i, j, mouseY - colorBar.Length0, mouseX, lineWeight, img.Length0, img.Length1)
                                  then Pixel(b, g, r) else old(img[i, j])
      ensures old(panel.pos).mode == 2 && old(panel.pos).confirm == 1 ==>
                var k := CommitIndex(polls, 1);
                && fresh(img)
                && img.Length0 == old(img.Length0) && img.Length1 == old(img.Length1)
                && (forall i, j :: 0 <= i < img.Length0 && 0 <= j < img.Length1 ==>
                      img[i, j] == Filtered(convert, polls[k].filter, old(img[i, j])))
                && (forall i, j :: 0 <= i < old(img).Length0 && 0 <= j < old(img).Length1 ==>
                      old(img)[i, j] == old(img[i, j]))
                && Selections() == polls[k]
                && panel.pos == polls[k].(mode := 0, filter := 0, confirm := 0)
      ensures old(panel.pos).mode in {2, 3} && old(panel.pos).confirm == 0 ==>
                img == old(img) && panel.pos == old(panel.pos)
                && forall i, j :: 0 <= i < img.Length0 && 0 <= j < img.Length1 ==> img[i, j] == old(img[i, j])
      ensures old(panel.pos).mode == 3 && old(panel.pos).confirm == 1 ==>
                img == old(img) && panel.pos == old(panel.pos).(confirm := 0, mode := 0)
                && forall i, j :: 0 <= i < img.Length0 && 0 <= j < img.Length1 ==>
                     img[i, j] == if Covered(rois, i, j, img.Length0, img.Length1) then Pixel(b, g, r) else old(img[i, j])
    {
      var caption;
      shown, caption := DisplayGui(img);
      RetrieveTrackbarData();
      match HandlerFor(modeSelection)
      case DrawingMode => HandleDrawingMode();
      case FilterMode => HandleFilterMode(polls, convert);
      case RoiMode => HandleRoiMode(rois);
      case DefaultMode => HandleDefaultMode();
    }
  }
}
