/** What both variants of the editor share: the six trackbar controls, the
    mode captions, mouse events and the draw flag they drive, and the filter
    preview's choice of conversion and of the poll that commits it. */
module Editor {
  import opened Raster

  datatype Option<T> = None | Some(value: T)

  /** The mode trackbar runs from 0 to 3: none, draw, filter, region fill. */
  type ModeSel = x: int | 0 <= x <= 3
  /** The filter trackbar runs from 0 (no conversion) to 3. */
  type FilterSel = x: int | 0 <= x <= 3
  /** The confirm trackbar is 0 or 1. */
  type ConfirmSel = x: int | 0 <= x <= 1

  /** The positions of the six trackbars. */
  datatype Controls = Controls(r: Byte, g: Byte, b: Byte, mode: ModeSel, filter: FilterSel, confirm: ConfirmSel)

  /** Every trackbar is created at position 0. */
  const InitialControls := Controls(0, 0, 0, 0, 0, 0)

  /** The caption drawn on the colour bar, one per mode. */
  const MenuText: seq<string> := [
    "Select a Mode",
    "Draw: Select a color then left click hold to draw",
    "Filter: Select confirm, scroll through filters, press confirm again to apply",
    "Draw Squares: Choose color, confirm, draw squares, confirm with space. ESC to quit"
  ]

  /** The trackbar panel of the window: the program reads it and sets
      positions on it; the user moves its sliders between reads. */
  class Trackbars {
    var pos: Controls

    /** `createTrackbar` for the six controls, each at position 0. */
    constructor ()
      ensures pos == InitialControls
    {
      pos := InitialControls;
    }

    /** `setTrackbarPos("mode", ...)`. */
    method SetMode(v: ModeSel)
      modifies this
      ensures pos == old(pos).(mode := v)
    {
      pos := pos.(mode := v);
    }

    /** `setTrackbarPos("filter", ...)`. */
    method SetFilter(v: FilterSel)
      modifies this
      ensures pos == old(pos).(filter := v)
    {
      pos := pos.(filter := v);
    }

    /** `setTrackbarPos("confirm", ...)`. */
    method SetConfirm(v: ConfirmSel)
      modifies this
      ensures pos == old(pos).(confirm := v)
    {
      pos := pos.(confirm := v);
    }

    /** The user leaves the sliders at `c` before the next read. */
    method Adjust(c: Controls)
      modifies this
      ensures pos == c
    {
      pos := c;
    }
  }

  // ---------------------------------------------------------------------
  // Mouse events and the draw flag

  datatype MouseEvent = LButtonDown | LButtonUp | OtherEvent

  /** The draw flag after one mouse event, given the mode the callback
      consults: in draw mode a press sets it and a release clears it; any
      other event, and any event in another mode, leaves it alone. */
  function DrawTransition(mode: int, e: MouseEvent, held: bool): bool
  {
    if mode != 1 then held
    else if e == LButtonDown then true
    else if e == LButtonUp then false
    else held
  }

  /** The draw flag after a series of events, starting from `held`. */
  function DrawStateAfter(mode: int, events: seq<MouseEvent>, held: bool): bool
    decreases |events|
  {
    if events == [] then held
    else DrawTransition(mode, events[|events| - 1], DrawStateAfter(mode, events[..|events| - 1], held))
  }

  /** The most recent button event: `Some(true)` for a press, `Some(false)`
      for a release, `None` when there was neither. */
  function LastButton(events: seq<MouseEvent>): Option<bool>
    decreases |events|
  {
    if events == [] then None
    else if events[|events| - 1] == LButtonDown then Some(true)
    else if events[|events| - 1] == LButtonUp then Some(false)
    else LastButton(events[..|events| - 1])
  }

  /** In draw mode the flag says whether the left button is held: it is
      the direction of the last button event, or its starting value when
      no button event came. */
  lemma {:induction false} DrawStateFollowsButton(events: seq<MouseEvent>, held: bool)
    ensures DrawStateAfter(1, events, held) == match LastButton(events) case Some(down) => down case None => held
    decreases |events|
  {
    if events != [] {
      DrawStateFollowsButton(events[..|events| - 1], held);
    }
  }

  /** Outside draw mode no event changes the flag. */
  lemma {:induction false} DrawStateKeptOutsideDrawMode(mode: int, events: seq<MouseEvent>, held: bool)
    requires mode != 1
    ensures DrawStateAfter(mode, events, held) == held
    decreases |events|
  {
    if events != [] {
      DrawStateKeptOutsideDrawMode(mode, events[..|events| - 1], held);
    }
  }

  // ---------------------------------------------------------------------
  // Filter preview

  /** The conversion a filter position selects; position 0 selects none. */
  function FilterConversion(sel: FilterSel): (code: Option<Conversion>)
    ensures code.None? <==> sel == 0
    ensures code == Some(BgrToHls) <==> sel == 1
    ensures code == Some(BgrToLab) <==> sel == 2
    ensures code == Some(BgrToLuv) <==> sel == 3
  {
    if sel == 1 then Some(BgrToHls)
    else if sel == 2 then Some(BgrToLab)
    else if sel == 3 then Some(BgrToLuv)
    else None
  }

  /** A pixel of the preview for filter position `sel`. */
  function Filtered(convert: (Conversion, Pixel) -> Pixel, sel: FilterSel, p: Pixel): Pixel
  {
    match FilterConversion(sel)
    case None => p
    case Some(code) => convert(code, p)
  }

  /** A trace of trackbar reads that ends a filter preview: the read just
      after the confirm trackbar is reset shows it at 0, and a later read
      shows it set again. */
  predicate PreviewEnds(polls: seq<Controls>)
  {
    |polls| >= 1 && polls[0].confirm == 0 && exists k :: 1 <= k < |polls| && polls[k].confirm != 0
  }

  /** The first read at or after `from` with the confirm trackbar set: the
      read that ends the preview loop. */
  function CommitIndex(polls: seq<Controls>, from: nat): (k: nat)
    requires 1 <= from <= |polls|
    requires exists k :: from <= k < |polls| && polls[k].confirm != 0
    ensures from <= k < |polls|
    ensures polls[k].confirm != 0
    ensures forall j :: from <= j < k ==> polls[j].confirm == 0
    decreases |polls| - from
  {
    if polls[from].confirm != 0 then from
    else CommitIndex(polls, from + 1)
  }
}
