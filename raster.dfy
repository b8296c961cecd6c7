/** The image buffer both scripts edit, and the numpy and OpenCV operations
    they apply to it: an H x W x 3 uint8 array in blue-green-red channel order,
    numpy's slice rules, and whole-slice assignments made in place. */
module Raster {

  /** One 8-bit channel value (numpy uint8). */
  type Byte = x: int | 0 <= x < 256

  /** One pixel. The fields are in buffer order: channel 0 is blue,
      channel 1 green and channel 2 red. */
  datatype Pixel = Pixel(b: Byte, g: Byte, r: Byte)

  /** The pixel `np.zeros` fills a buffer with. */
  const Black := Pixel(0, 0, 0)

  /** Channel `k` of a pixel, as `img[i, j, k]` reads it. */
  function Channel(p: Pixel, k: nat): Byte
    requires k < 3
  {
    if k == 0 then p.b else if k == 1 then p.g else p.r
  }

  /** The pixel with channel `k` overwritten by `v`. */
  function WithChannel(p: Pixel, k: nat, v: Byte): (q: Pixel)
    requires k < 3
    ensures Channel(q, k) == v
    ensures forall k' :: 0 <= k' < 3 && k' != k ==> Channel(q, k') == Channel(p, k')
  {
    if k == 0 then p.(b := v) else if k == 1 then p.(g := v) else p.(r := v)
  }

  /** An image as a value: a sequence of rows. */
  type Grid = seq<seq<Pixel>>

  predicate HasShape(im: Grid, height: nat, width: nat)
  {
    |im| == height && forall i :: 0 <= i < height ==> |im[i]| == width
  }

  /** A `height` x `width` grid every pixel of which is `c`. */
  function Solid(height: nat, width: nat, c: Pixel): (im: Grid)
    ensures HasShape(im, height, width)
    ensures forall i, j :: 0 <= i < height && 0 <= j < width ==> im[i][j] == c
  {
    seq(height, _ => seq(width, _ => c))
  }

  /** numpy's `im[:, :, k] = v` on a grid: channel `k` of every pixel
      becomes `v`, the other two channels keep their values. */
  function AssignChannel(im: Grid, k: nat, v: Byte): (res: Grid)
    requires k < 3
    ensures |res| == |im|
    ensures forall i :: 0 <= i < |im| ==> |res[i]| == |im[i]|
    ensures forall i, j :: 0 <= i < |im| && 0 <= j < |im[i]| ==> res[i][j] == WithChannel(im[i][j], k, v)
  {
    seq(|im|, i requires 0 <= i < |im| => seq(|im[i]|, j requires 0 <= j < |im[i]| => WithChannel(im[i][j], k, v)))
  }

  /** `np.vstack((top, bottom))`: the rows of `top` above the rows of `bottom`. */
  function VStack(top: Grid, bottom: Grid): (frame: Grid)
    ensures |frame| == |top| + |bottom|
    ensures forall wy :: 0 <= wy < |top| ==> frame[wy] == top[wy]
    ensures forall i :: 0 <= i < |bottom| ==> frame[|top| + i] == bottom[i]
  {
    top + bottom
  }

  // ---------------------------------------------------------------------
  // numpy slices

  /** numpy's normalisation of one bound of a step-1 slice over an axis of
      length `n`: a negative bound has `n` added to it, and the bound is
      then clamped to [0, n]. */
  function SliceIndex(i: int, n: nat): (k: nat)
    ensures k <= n
    ensures 0 <= i <= n ==> k == i
    ensures 0 <= n + i && i < 0 ==> k == n + i
    ensures n + i < 0 ==> k == 0
    ensures n < i ==> k == n
  {
    if i < 0 then (if i + n < 0 then 0 else i + n)
    else if i > n then n else i
  }

  /** Index `k` of an axis of length `n` is selected by `start:stop`. */
  predicate InSlice(k: int, start: int, stop: int, n: nat)
  {
    SliceIndex(start, n) <= k < SliceIndex(stop, n)
  }

  /** The number of indices `start:stop` selects. */
  function SliceLen(start: int, stop: int, n: nat): (len: nat)
    ensures len <= n
    ensures SliceIndex(start, n) + len <= n
    ensures forall k :: InSlice(k, start, stop, n) <==> SliceIndex(start, n) <= k < SliceIndex(start, n) + len
  {
    if SliceIndex(start, n) < SliceIndex(stop, n) then SliceIndex(stop, n) - SliceIndex(start, n) else 0
  }

  /** A slice whose bounds both lie in [0, n] selects exactly [start, stop). */
  lemma SliceWithinAxis(k: int, start: int, stop: int, n: nat)
    requires 0 <= start && 0 <= stop <= n
    ensures InSlice(k, start, stop, n) <==> start <= k < stop
  {
  }

  /** A slice running past the end of the axis is cut at the end. */
  lemma SlicePastEnd(k: int, start: int, stop: int, n: nat)
    requires 0 <= start <= n < stop
    ensures InSlice(k, start, stop, n) <==> start <= k < n
  {
  }

  /** A slice whose bounds are both negative selects indices counted from
      the end of the axis. */
  lemma SliceFromEnd(k: int, start: int, stop: int, n: nat)
    requires 0 <= n + start && start < 0 && stop < 0
    ensures InSlice(k, start, stop, n) <==> n + start <= k < n + stop
  {
  }

  /** A slice with a negative start and a non-negative stop selects nothing
      once the start, counted from the end, is at or beyond the stop. */
  lemma SliceAcrossZeroIsEmpty(k: int, start: int, stop: int, n: nat)
    requires 0 <= n + start && start < 0 <= stop <= n + start
    ensures !InSlice(k, start, stop, n)
  {
  }

  /** Pixel (i, j) of a `height` x `width` image lies in `img[r0:r1, c0:c1]`. */
  predicate InBlock(i: int, j: int, r0: int, r1: int, c0: int, c1: int, height: nat, width: nat)
  {
    InSlice(i, r0, r1, height) && InSlice(j, c0, c1, width)
  }

  /** Pixel (i, j) lies under the square brush `img[cy-wt : cy+wt, cx-wt : cx+wt]`. */
  predicate InBrush(i: int, j: int, cy: int, cx: int, wt: int, height: nat, width: nat)
  {
    InBlock(i, j, cy - wt, cy + wt, cx - wt, cx + wt, height, width)
  }

  /** Brush rows well inside the image are exactly [cy - wt, cy + wt). */
  lemma BrushRowsInside(i: int, cy: int, wt: int, height: nat)
    requires 0 <= wt
    requires 0 <= cy - wt && cy + wt <= height
    ensures InSlice(i, cy - wt, cy + wt, height) <==> cy - wt <= i < cy + wt
  {
    SliceWithinAxis(i, cy - wt, cy + wt, height);
  }

  /** A brush centred above the image (both bounds negative, as when the
      cursor is over the colour bar) paints rows counted from the bottom. */
  lemma BrushRowsAboveImageWrap(i: int, cy: int, wt: int, height: nat)
    requires 0 <= wt
    requires 0 <= height + cy - wt && cy + wt < 0
    ensures InSlice(i, cy - wt, cy + wt, height) <==> height + cy - wt <= i < height + cy + wt
  {
    SliceFromEnd(i, cy - wt, cy + wt, height);
  }

  /** A brush straddling the top edge of an image at least `2 * wt` rows
      tall paints no row at all. */
  lemma BrushRowsAcrossTopEdgeEmpty(i: int, cy: int, wt: int, height: nat)
    requires 0 <= wt
    requires cy - wt < 0 <= cy + wt && 0 <= height + cy - wt
    requires 2 * wt <= height
    ensures !InSlice(i, cy - wt, cy + wt, height)
  {
    SliceAcrossZeroIsEmpty(i, cy - wt, cy + wt, height);
  }

  /** A worked scenario rather than a general law: a brush of weight 1
      with its centre at image row 50, column 50 of a 100 x 100 image
      paints exactly the 2 x 2 square of rows and columns 49 and 50. The
      general statements are the `BrushRows...` lemmas above. */
  lemma BrushAtCentreOfSquareImage(i: int, j: int)
    ensures InBrush(i, j, 50, 50, 1, 100, 100) <==> 49 <= i < 51 && 49 <= j < 51
  {
    BrushRowsInside(i, 50, 1, 100);
    BrushRowsInside(j, 50, 1, 100);
  }

  // ---------------------------------------------------------------------
  // Rectangles returned by region selection

  /** A rectangle as `selectROIs` reports it: left, top, width, height. */
  datatype Rect = Rect(x: int, y: int, w: int, h: int)

  /** Pixel (i, j) lies in `img[rc.y : rc.y + rc.h, rc.x : rc.x + rc.w]`. */
  predicate InRect(rc: Rect, i: int, j: int, height: nat, width: nat)
  {
    InBlock(i, j, rc.y, rc.y + rc.h, rc.x, rc.x + rc.w, height, width)
  }

  /** Pixel (i, j) lies in at least one of the rectangles. */
  predicate Covered(rs: seq<Rect>, i: int, j: int, height: nat, width: nat)
  {
    exists k :: 0 <= k < |rs| && InRect(rs[k], i, j, height, width)
  }

  /** Adding one rectangle to a list covers exactly what it covers besides. */
  lemma CoveredExtend(rs: seq<Rect>, m: nat, i: int, j: int, height: nat, width: nat)
    requires m < |rs|
    ensures Covered(rs[..m + 1], i, j, height, width)
        <==> Covered(rs[..m], i, j, height, width) || InRect(rs[m], i, j, height, width)
  {
    if InRect(rs[m], i, j, height, width) {
      assert rs[..m + 1][m] == rs[m];
    }
    if Covered(rs[..m], i, j, height, width) {
      var k :| 0 <= k < m && InRect(rs[..m][k], i, j, height, width);
      assert rs[..m + 1][k] == rs[..m][k];
    }
    if Covered(rs[..m + 1], i, j, height, width) {
      var k :| 0 <= k < m + 1 && InRect(rs[..m + 1][k], i, j, height, width);
      if k < m {
        assert rs[..m][k] == rs[..m + 1][k];
      }
    }
  }

  /** Pixel (i, j), starting as `p`, after the rectangles are filled with
      `c` one after another (one pass of the fill loop). */
  function FillPass(p: Pixel, rs: seq<Rect>, i: int, j: int, height: nat, width: nat, c: Pixel): Pixel
    decreases |rs|
  {
    if rs == [] then p
    else FillPass(if InRect(rs[0], i, j, height, width) then c else p, rs[1..], i, j, height, width, c)
  }

  /** Pixel (i, j) after `n` passes of the fill loop. */
  function FillPasses(p: Pixel, n: nat, rs: seq<Rect>, i: int, j: int, height: nat, width: nat, c: Pixel): Pixel
    decreases n
  {
    if n == 0 then p else FillPasses(FillPass(p, rs, i, j, height, width, c), n - 1, rs, i, j, height, width, c)
  }

  /** One pass paints a pixel with `c` exactly when some rectangle covers
      it, and leaves it as it was otherwise. */
  lemma {:induction false} FillPassCovered(p: Pixel, rs: seq<Rect>, i: int, j: int, height: nat, width: nat, c: Pixel)
    ensures FillPass(p, rs, i, j, height, width, c) == if Covered(rs, i, j, height, width) then c else p
    decreases |rs|
  {
    if rs != [] {
      var q := if InRect(rs[0], i, j, height, width) then c else p;
      FillPassCovered(q, rs[1..], i, j, height, width, c);
      if Covered(rs[1..], i, j, height, width) {
        var k :| 0 <= k < |rs[1..]| && InRect(rs[1..][k], i, j, height, width);
        assert InRect(rs[k + 1], i, j, height, width);
      }
      if Covered(rs, i, j, height, width) && !InRect(rs[0], i, j, height, width) {
        var k :| 0 <= k < |rs| && InRect(rs[k], i, j, height, width);
        assert rs[1..][k - 1] == rs[k];
      }
      if InRect(rs[0], i, j, height, width) {
        assert Covered(rs, i, j, height, width);
      }
    }
  }

  /** A second pass changes nothing: filling is idempotent. */
  lemma FillPassIdempotent(p: Pixel, rs: seq<Rect>, i: int, j: int, height: nat, width: nat, c: Pixel)
    ensures FillPass(FillPass(p, rs, i, j, height, width, c), rs, i, j, height, width, c)
         == FillPass(p, rs, i, j, height, width, c)
  {
    FillPassCovered(p, rs, i, j, height, width, c);
    FillPassCovered(FillPass(p, rs, i, j, height, width, c), rs, i, j, height, width, c);
  }

  /** Any positive number of passes gives the same pixel as one pass. */
  lemma {:induction false} FillPassesIsOnePass(p: Pixel, n: nat, rs: seq<Rect>, i: int, j: int, height: nat, width: nat, c: Pixel)
    requires 1 <= n
    ensures FillPasses(p, n, rs, i, j, height, width, c) == FillPass(p, rs, i, j, height, width, c)
    decreases n
  {
    if n > 1 {
      var q := FillPass(p, rs, i, j, height, width, c);
      FillPassesIsOnePass(q, n - 1, rs, i, j, height, width, c);
      FillPassIdempotent(p, rs, i, j, height, width, c);
    }
  }

  /** The nested fill loops, run with as many outer passes as there are
      rectangles, paint exactly the covered pixels. */
  lemma NestedFillCovered(p: Pixel, rs: seq<Rect>, i: int, j: int, height: nat, width: nat, c: Pixel)
    ensures FillPasses(p, |rs|, rs, i, j, height, width, c) == if Covered(rs, i, j, height, width) then c else p
  {
    if |rs| >= 1 {
      FillPassesIsOnePass(p, |rs|, rs, i, j, height, width, c);
      FillPassCovered(p, rs, i, j, height, width, c);
    }
  }

  // ---------------------------------------------------------------------
  // The buffer and in-place slice assignment

  /** Row `i` of a buffer. */
  function RowOf(a: array2<Pixel>, i: nat): (row: seq<Pixel>)
    requires i < a.Length0
    reads a
    ensures |row| == a.Length1
    ensures forall j :: 0 <= j < a.Length1 ==> row[j] == a[i, j]
  {
    seq(a.Length1, j requires 0 <= j < a.Length1 reads a => a[i, j])
  }

  /** A buffer's contents as a grid. */
  function Rows(a: array2<Pixel>): (im: Grid)
    reads a
    ensures |im| == a.Length0
    ensures forall i :: 0 <= i < a.Length0 ==> im[i] == RowOf(a, i)
  {
    seq(a.Length0, i requires 0 <= i < a.Length0 reads a => RowOf(a, i))
  }

  /** The contents of the view `img[r0:r1, c0:c1, :]`. */
  function SliceOf(img: array2<Pixel>, r0: int, r1: int, c0: int, c1: int): (im: Grid)
    reads img
    ensures HasShape(im, SliceLen(r0, r1, img.Length0), SliceLen(c0, c1, img.Length1))
    ensures forall a, b :: 0 <= a < SliceLen(r0, r1, img.Length0) && 0 <= b < SliceLen(c0, c1, img.Length1) ==>
              im[a][b] == img[SliceIndex(r0, img.Length0) + a, SliceIndex(c0, img.Length1) + b]
  {
    var lo, clo := SliceIndex(r0, img.Length0), SliceIndex(c0, img.Length1);
    var rows, cols := SliceLen(r0, r1, img.Length0), SliceLen(c0, c1, img.Length1);
    seq(rows, a requires 0 <= a < rows reads img =>
      seq(cols, b requires 0 <= b < cols reads img => img[lo + a, clo + b]))
  }

  /** numpy's `img[r0:r1, c0:c1, :] = c`: every pixel of the slice becomes
      `c`, every other pixel keeps its value. */
  method AssignSlice(img: array2<Pixel>, r0: int, r1: int, c0: int, c1: int, c: Pixel)
    modifies img
    ensures forall i, j :: 0 <= i < img.Length0 && 0 <= j < img.Length1 ==>
              img[i, j] == if InBlock(i, j, r0, r1, c0, c1, img.Length0, img.Length1) then c else old(img[i, j])
  {
    var lo, hi := SliceIndex(r0, img.Length0), SliceIndex(r1, img.Length0);
    var clo, chi := SliceIndex(c0, img.Length1), SliceIndex(c1, img.Length1);
    forall i, j | lo <= i < hi && clo <= j < chi {
      img[i, j] := c;
    }
  }

  /** numpy's `img[r0:r1, c0:c1, :] = src` for a `src` of exactly the
      slice's shape: the slice takes the pixels of `src`, every other pixel
      keeps its value. */
  method AssignSliceFrom(img: array2<Pixel>, r0: int, r1: int, c0: int, c1: int, src: Grid)
    requires HasShape(src, SliceLen(r0, r1, img.Length0), SliceLen(c0, c1, img.Length1))
    modifies img
    ensures forall i, j :: 0 <= i < img.Length0 && 0 <= j < img.Length1 ==>
              img[i, j] == if InBlock(i, j, r0, r1, c0, c1, img.Length0, img.Length1)
                           then src[i - SliceIndex(r0, img.Length0)][j - SliceIndex(c0, img.Length1)]
                           else old(img[i, j])
  {
    var lo, hi := SliceIndex(r0, img.Length0), SliceIndex(r1, img.Length0);
    var clo, chi := SliceIndex(c0, img.Length1), SliceIndex(c1, img.Length1);
    forall i, j | lo <= i < hi && clo <= j < chi {
      img[i, j] := src[i - lo][j - clo];
    }
  }

  /** `img.copy()`: a new buffer holding the same pixels. */
  method CopyImage(src: array2<Pixel>) returns (dst: array2<Pixel>)
    ensures fresh(dst)
    ensures dst.Length0 == src.Length0 && dst.Length1 == src.Length1
    ensures forall i, j :: 0 <= i < src.Length0 && 0 <= j < src.Length1 ==> dst[i, j] == src[i, j]
  {
    dst := new Pixel[src.Length0, src.Length1];
    forall i, j | 0 <= i < src.Length0 && 0 <= j < src.Length1 {
      dst[i, j] := src[i, j];
    }
  }

  /** The colour-space conversions the filter mode offers. */
  datatype Conversion = BgrToHls | BgrToLab | BgrToLuv

  /** `cv.cvtColor(src, code)`: a new buffer of the same shape, each pixel
      converted on its own by `convert`, which stands for OpenCV's
      conversion arithmetic. */
  method CvtColor(src: array2<Pixel>, code: Conversion, convert: (Conversion, Pixel) -> Pixel) returns (dst: array2<Pixel>)
    ensures fresh(dst)
    ensures dst.Length0 == src.Length0 && dst.Length1 == src.Length1
    ensures forall i, j :: 0 <= i < src.Length0 && 0 <= j < src.Length1 ==> dst[i, j] == convert(code, src[i, j])
  {
    dst := new Pixel[src.Length0, src.Length1];
    forall i, j | 0 <= i < src.Length0 && 0 <= j < src.Length1 {
      dst[i, j] := convert(code, src[i, j]);
    }
  }
}
