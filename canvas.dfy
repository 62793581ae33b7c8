// The CanvasMove in-place filter (AForge.Imaging.Filters.CanvasMove over
// BaseInPlaceFilter): every pixel (x, y) takes the value of pixel
// (x - mx, y - my) when that pixel exists and the fill colour otherwise.
// The image is rewritten in place; rows are scanned bottom-up when my > 0
// and columns right-to-left when mx > 0, so that no pixel is read after it
// has been overwritten.

module CanvasMoveFilter {
  import opened Arith
  import opened Imaging
  import opened Filters

  /** The filter's settings; every fill channel defaults to 255. */
  datatype CanvasMove = CanvasMove(move: IntPoint, fillColor: Color, fillGray: byte)

  /** CanvasMove(movePoint, fillColorRGB): grey fill left at 255. */
  function WithColor(move: IntPoint, fill: Color): (m: CanvasMove)
    ensures m.move == move && m.fillColor == fill && m.fillGray == 255
  {
    CanvasMove(move, fill, 255)
  }

  const CanvasFormats: map<PixelFormat, PixelFormat> :=
    map[Format8bppIndexed := Format8bppIndexed, Format16bppGrayScale := Format16bppGrayScale,
        Format24bppRgb := Format24bppRgb, Format32bppArgb := Format32bppArgb,
        Format32bppRgb := Format32bppRgb, Format48bppRgb := Format48bppRgb,
        Format64bppArgb := Format64bppArgb]

  predicate CanvasLayout(l: ImageLayout)
  {
    l.Valid() && l.format in CanvasFormats
  }

  /** The bytes written where nothing moves in. 8 bits per channel (pixel
      sizes 1, 3, 4): the grey byte, or B, G, R and for 32bpp A. 16 bits per
      channel (pixel sizes 2, 6, 8): each colour channel shifted into the
      high byte; the 16bpp grey value is the unshifted grey byte. */
  function FillPattern(f: PixelFormat, c: Color, gray: byte): (p: seq<byte>)
    requires f in CanvasFormats
    ensures |p| == PixelSize(f)
  {
    match f
    case Format8bppIndexed => [gray]
    case Format24bppRgb => [c.b, c.g, c.r]
    case Format32bppRgb => [c.b, c.g, c.r, c.a]
    case Format32bppArgb => [c.b, c.g, c.r, c.a]
    case Format16bppGrayScale => [gray, 0]
    case Format48bppRgb => [0, c.b, 0, c.g, 0, c.r]
    case Format64bppArgb => [0, c.b, 0, c.g, 0, c.r, 0, c.a]
  }

  /** The part of the image that receives moved pixels. */
  function MovedArea(l: ImageLayout, mx: int, my: int): Rect
  {
    Intersect(Rect(0, 0, l.width, l.height), Rect(mx, my, l.width, l.height))
  }

  /** An in-bounds pixel lies in the moved area exactly when the pixel it
      takes its value from exists. */
  lemma MovedAreaSource(l: ImageLayout, mx: int, my: int, x: int, y: int)
    requires l.InBounds(x, y)
    ensures MovedArea(l, mx, my).Contains(x, y) <==> l.InBounds(x - mx, y - my)
  {
  }

  /** The new bytes of pixel (x, y). */
  function MovedPixel(l: ImageLayout, s: seq<byte>, mx: int, my: int, fill: seq<byte>, x: int, y: int): (b: seq<byte>)
    requires CanvasLayout(l) && |s| == l.Size() && |fill| == PixelSize(l.format) && l.InBounds(x, y)
    ensures |b| == PixelSize(l.format)
  {
    if MovedArea(l, mx, my).Contains(x, y) then PixelBytes(l, s, x - mx, y - my) else fill
  }

  /** Position of row y and column x in the scan order. */
  function RowRank(l: ImageLayout, my: int, y: int): int { if my > 0 then l.height - 1 - y else y }
  function ColumnRank(l: ImageLayout, mx: int, x: int): int { if mx > 0 then l.width - 1 - x else x }

  /** Whether pixel (x, y) is rewritten once `rows` rows and `columns` pixels
      of the current row have been scanned. */
  predicate Done(l: ImageLayout, mx: int, my: int, x: int, y: int, rows: int, columns: int)
  {
    RowRank(l, my, y) < rows || (RowRank(l, my, y) == rows && ColumnRank(l, mx, x) < columns)
  }

  /** The buffer part-way through the scan. */
  function Moving(l: ImageLayout, s: seq<byte>, mx: int, my: int, fill: seq<byte>, rows: int, columns: int): (r: seq<byte>)
    requires CanvasLayout(l) && |s| == l.Size() && |fill| == PixelSize(l.format)
    ensures |r| == |s|
  {
    var ps := PixelSize(l.format);
    seq(|s|, k requires 0 <= k < |s| =>
      if IsPixelByte(l, k) then
        PixelByteCompose(l, k);
        var x := (k % l.stride) / ps;
        var y := k / l.stride;
        if Done(l, mx, my, x, y, rows, columns) then MovedPixel(l, s, mx, my, fill, x, y)[(k % l.stride) % ps]
        else s[k]
      else s[k])
  }

  /** Every pixel is written exactly once when the whole image is scanned. */
  function Moved(l: ImageLayout, s: seq<byte>, mx: int, my: int, fill: seq<byte>): (r: seq<byte>)
    requires CanvasLayout(l) && |s| == l.Size() && |fill| == PixelSize(l.format)
    ensures |r| == |s|
  {
    Moving(l, s, mx, my, fill, l.height, 0)
  }

  // ---------------------------------------------------------------- scan steps

  function Whole(b: seq<byte>): (p: seq<Option<byte>>)
    ensures |p| == |b| && forall i :: 0 <= i < |b| ==> p[i] == Some(b[i])
  {
    seq(|b|, i requires 0 <= i < |b| => Some(b[i]))
  }

  /** The pixel a step reads is not yet rewritten, unless it is the pixel
      being written. */
  lemma SourceNotDone(l: ImageLayout, mx: int, my: int, x: int, y: int)
    requires l.InBounds(x, y) && l.InBounds(x - mx, y - my) && (mx != 0 || my != 0)
    ensures !Done(l, mx, my, x - mx, y - my, RowRank(l, my, y), ColumnRank(l, mx, x))
  {
  }

  /** Bytes of pixel (x, y) in the partly scanned buffer. */
  lemma MovingAt(l: ImageLayout, s: seq<byte>, mx: int, my: int, fill: seq<byte>, rows: int, columns: int,
                 x: int, y: int, c: int)
    requires CanvasLayout(l) && |s| == l.Size() && |fill| == PixelSize(l.format)
    requires l.InBounds(x, y) && 0 <= c < PixelSize(l.format)
    ensures 0 <= l.Offset(x, y) + c < |s|
    ensures Moving(l, s, mx, my, fill, rows, columns)[l.Offset(x, y) + c]
            == if Done(l, mx, my, x, y, rows, columns) then MovedPixel(l, s, mx, my, fill, x, y)[c]
               else s[l.Offset(x, y) + c]
  {
    OffsetDecompose(l, x, y, c);
  }

  /** What a step reads equals the pixel's final value. */
  lemma StepReads(l: ImageLayout, s: seq<byte>, mx: int, my: int, fill: seq<byte>, x: int, y: int)
    requires CanvasLayout(l) && |s| == l.Size() && |fill| == PixelSize(l.format) && l.InBounds(x, y)
    ensures var cur := Moving(l, s, mx, my, fill, RowRank(l, my, y), ColumnRank(l, mx, x));
            MovedPixel(l, cur, mx, my, fill, x, y) == MovedPixel(l, s, mx, my, fill, x, y)
  {
    var rows := RowRank(l, my, y);
    var columns := ColumnRank(l, mx, x);
    var cur := Moving(l, s, mx, my, fill, rows, columns);
    if MovedArea(l, mx, my).Contains(x, y) {
      MovedAreaSource(l, mx, my, x, y);
      var a := PixelBytes(l, cur, x - mx, y - my);
      var b := PixelBytes(l, s, x - mx, y - my);
      forall c | 0 <= c < |a| ensures a[c] == b[c] {
        MovingAt(l, s, mx, my, fill, rows, columns, x - mx, y - my, c);
        if mx != 0 || my != 0 {
          SourceNotDone(l, mx, my, x, y);
        }
      }
    }
  }

  /** Writing the next pixel of the scan advances the partial result by one. */
  lemma MovingStep(l: ImageLayout, s: seq<byte>, mx: int, my: int, fill: seq<byte>, x: int, y: int)
    requires CanvasLayout(l) && |s| == l.Size() && |fill| == PixelSize(l.format) && l.InBounds(x, y)
    ensures var cur := Moving(l, s, mx, my, fill, RowRank(l, my, y), ColumnRank(l, mx, x));
            Paint(l, cur, x, y, Whole(MovedPixel(l, cur, mx, my, fill, x, y)))
            == Moving(l, s, mx, my, fill, RowRank(l, my, y), ColumnRank(l, mx, x) + 1)
  {
    var rows := RowRank(l, my, y);
    var columns := ColumnRank(l, mx, x);
    var cur := Moving(l, s, mx, my, fill, rows, columns);
    var v := MovedPixel(l, cur, mx, my, fill, x, y);
    StepReads(l, s, mx, my, fill, x, y);
    var painted := Paint(l, cur, x, y, Whole(v));
    var next := Moving(l, s, mx, my, fill, rows, columns + 1);
    var ps := PixelSize(l.format);
    var o := l.Offset(x, y);
    OffsetDecompose(l, x, y, ps - 1);
    forall k | 0 <= k < |s| ensures painted[k] == next[k] {
      if o <= k < o + ps {
        MovingAt(l, s, mx, my, fill, rows, columns + 1, x, y, k - o);
      } else if IsPixelByte(l, k) {
        PixelByteCompose(l, k);
        var px := (k % l.stride) / ps;
        var py := k / l.stride;
        MovingAt(l, s, mx, my, fill, rows, columns, px, py, (k % l.stride) % ps);
        MovingAt(l, s, mx, my, fill, rows, columns + 1, px, py, (k % l.stride) % ps);
      }
    }
  }

  /** Before the scan nothing is rewritten. */
  lemma MovingNothing(l: ImageLayout, s: seq<byte>, mx: int, my: int, fill: seq<byte>)
    requires CanvasLayout(l) && |s| == l.Size() && |fill| == PixelSize(l.format)
    ensures Moving(l, s, mx, my, fill, 0, 0) == s
  {
    var r := Moving(l, s, mx, my, fill, 0, 0);
    forall k | 0 <= k < |s| ensures r[k] == s[k] {
      if IsPixelByte(l, k) {
        PixelByteCompose(l, k);
      }
    }
  }

  /** Finishing a row is starting the next one. */
  lemma MovingRowEnd(l: ImageLayout, s: seq<byte>, mx: int, my: int, fill: seq<byte>, rows: int)
    requires CanvasLayout(l) && |s| == l.Size() && |fill| == PixelSize(l.format)
    ensures Moving(l, s, mx, my, fill, rows, l.width) == Moving(l, s, mx, my, fill, rows + 1, 0)
  {
  }

  // ---------------------------------------------------------------- the scan

  /** ProcessFilter8bpc / ProcessFilter16bpc: both switch on the pixel
      size, scan in the same order and differ only in the fill pattern. */
  method ProcessFilter(filter: CanvasMove, image: UnmanagedImage)
    requires image.Valid() && image.format in CanvasFormats
    modifies image.data
    ensures image.data[..] == Moved(image.Layout(), old(image.data[..]), filter.move.x, filter.move.y,
                                    FillPattern(image.format, filter.fillColor, filter.fillGray))
  {
    var fill := FillPattern(image.format, filter.fillColor, filter.fillGray);
    MoveAndFill(image, filter.move.x, filter.move.y, fill);
  }

  /** The scan: rows in the order that keeps unread rows intact. */
  method MoveAndFill(image: UnmanagedImage, mx: int, my: int, fill: seq<byte>)
    requires image.Valid() && image.format in CanvasFormats && |fill| == PixelSize(image.format)
    modifies image.data
    ensures image.data[..] == Moved(image.Layout(), old(image.data[..]), mx, my, fill)
  {
    var area := MovedArea(image.Layout(), mx, my);
    ghost var l := image.Layout();
    ghost var orig := image.data[..];
    var yStart, yStop, yStep := 0, image.height, 1;
    if my > 0 {
      yStart, yStop, yStep := image.height - 1, -1, -1;
    }
    var y := yStart;
    MovingNothing(l, orig, mx, my, fill);
    while y != yStop
      invariant yStep == (if my > 0 then -1 else 1) && yStop == (if my > 0 then -1 else image.height)
      invariant if my > 0 then -1 <= y < image.height else 0 <= y <= image.height
      invariant image.data[..] == Moving(l, orig, mx, my, fill, RowRank(l, my, y), 0)
      decreases if my > 0 then y + 1 else image.height - y
    {
      MoveRow(image, area, mx, my, fill, y, orig);
      MovingRowEnd(l, orig, mx, my, fill, RowRank(l, my, y));
      y := y + yStep;
    }
  }

  /** One row of the scan, its pixels in the order that keeps unread
      pixels intact. */
  method MoveRow(image: UnmanagedImage, area: Rect, mx: int, my: int, fill: seq<byte>, y: int, ghost orig: seq<byte>)
    requires image.Valid() && image.format in CanvasFormats && 0 <= y < image.height
    requires area == MovedArea(image.Layout(), mx, my)
    requires |orig| == image.Layout().Size() && |fill| == PixelSize(image.format)
    requires image.data[..] == Moving(image.Layout(), orig, mx, my, fill, RowRank(image.Layout(), my, y), 0)
    modifies image.data
    ensures image.data[..] == Moving(image.Layout(), orig, mx, my, fill, RowRank(image.Layout(), my, y), image.width)
  {
    ghost var l := image.Layout();
    var xStart, xStop, xStep := 0, image.width, 1;
    if mx > 0 {
      xStart, xStop, xStep := image.width - 1, -1, -1;
    }
    var x := xStart;
    while x != xStop
      invariant xStep == (if mx > 0 then -1 else 1) && xStop == (if mx > 0 then -1 else image.width)
      invariant if mx > 0 then -1 <= x < image.width else 0 <= x <= image.width
      invariant image.data[..] == Moving(l, orig, mx, my, fill, RowRank(l, my, y), ColumnRank(l, mx, x))
      decreases if mx > 0 then x + 1 else image.width - x
    {
      var value := ReadMoved(image, area, mx, my, fill, x, y);
      MovingStep(l, orig, mx, my, fill, x, y);
      image.WritePixel(x, y, Whole(value));
      x := x + xStep;
    }
  }

  /** The bytes pixel (x, y) receives: those of the moved-in pixel, or the fill. */
  method ReadMoved(image: UnmanagedImage, area: Rect, mx: int, my: int, fill: seq<byte>, x: int, y: int)
    returns (value: seq<byte>)
    requires image.Valid() && image.format in CanvasFormats && image.Layout().InBounds(x, y)
    requires area == MovedArea(image.Layout(), mx, my) && |fill| == PixelSize(image.format)
    ensures value == MovedPixel(image.Layout(), image.data[..], mx, my, fill, x, y)
  {
    value := fill;
    if area.Contains(x, y) {
      var pixelSize := PixelSize(image.format);
      MovedAreaSource(image.Layout(), mx, my, x, y);
      OffsetDecompose(image.Layout(), x - mx, y - my, pixelSize - 1);
      var moved := (y - my) * image.stride + (x - mx) * pixelSize;
      value := image.data[moved..moved + pixelSize];
    }
  }

  // ---------------------------------------------------------------- properties

  /** Every pixel ends up with the value of the pixel (x - mx, y - my) when
      that pixel exists, and with the fill pattern otherwise. */
  lemma MovedPixels(l: ImageLayout, s: seq<byte>, mx: int, my: int, fill: seq<byte>, x: int, y: int)
    requires CanvasLayout(l) && |s| == l.Size() && |fill| == PixelSize(l.format) && l.InBounds(x, y)
    ensures PixelBytes(l, Moved(l, s, mx, my, fill), x, y)
            == if l.InBounds(x - mx, y - my) then PixelBytes(l, s, x - mx, y - my) else fill
  {
    MovedAreaSource(l, mx, my, x, y);
    var a := PixelBytes(l, Moved(l, s, mx, my, fill), x, y);
    forall c | 0 <= c < |a| ensures a[c] == MovedPixel(l, s, mx, my, fill, x, y)[c] {
      MovingAt(l, s, mx, my, fill, l.height, 0, x, y, c);
    }
  }

  /** The row padding is never written. */
  lemma MovedKeepsPadding(l: ImageLayout, s: seq<byte>, mx: int, my: int, fill: seq<byte>, k: int)
    requires CanvasLayout(l) && |s| == l.Size() && |fill| == PixelSize(l.format)
    requires 0 <= k < |s| && !IsPixelByte(l, k)
    ensures Moved(l, s, mx, my, fill)[k] == s[k]
  {
  }

  /** A move by (0, 0) changes nothing. */
  lemma MoveByZero(l: ImageLayout, s: seq<byte>, fill: seq<byte>)
    requires CanvasLayout(l) && |s| == l.Size() && |fill| == PixelSize(l.format)
    ensures Moved(l, s, 0, 0, fill) == s
  {
    var r := Moved(l, s, 0, 0, fill);
    forall k | 0 <= k < |s| ensures r[k] == s[k] {
      if IsPixelByte(l, k) {
        PixelByteCompose(l, k);
        var ps := PixelSize(l.format);
        var x := (k % l.stride) / ps;
        var y := k / l.stride;
        MovingAt(l, s, 0, 0, fill, l.height, 0, x, y, (k % l.stride) % ps);
        MovedAreaSource(l, 0, 0, x, y);
      }
    }
  }

  /** A move by the whole width or height (or more) leaves only fill. */
  lemma MoveOffCanvas(l: ImageLayout, s: seq<byte>, mx: int, my: int, fill: seq<byte>, x: int, y: int)
    requires CanvasLayout(l) && |s| == l.Size() && |fill| == PixelSize(l.format) && l.InBounds(x, y)
    requires mx >= l.width || mx <= -l.width || my >= l.height || my <= -l.height
    ensures PixelBytes(l, Moved(l, s, mx, my, fill), x, y) == fill
  {
    MovedPixels(l, s, mx, my, fill, x, y);
  }

  // ---------------------------------------------------------------- entry points

  /** BaseInPlaceFilter.ApplyInPlace(image). */
  method ApplyInPlace(filter: CanvasMove, image: UnmanagedImage) returns (r: Outcome)
    requires image.Valid()
    modifies image.data
    ensures r == CheckSourceFormat(CanvasFormats, image.format)
    ensures r.Failure? ==> image.data[..] == old(image.data[..])
    ensures r.Pass? ==> image.data[..] == Moved(image.Layout(), old(image.data[..]), filter.move.x, filter.move.y,
                                                FillPattern(image.format, filter.fillColor, filter.fillGray))
  {
    r := CheckSourceFormat(CanvasFormats, image.format);
    if r.Pass? {
      ProcessFilter(filter, image);
    }
  }

  /** BaseInPlaceFilter.Apply(source, destination): the rows are copied
      (min(srcStride, dstStride) bytes each), then the copy is processed. */
  method ApplyTo(filter: CanvasMove, source: UnmanagedImage, destination: UnmanagedImage) returns (r: Outcome)
    requires source.Valid() && destination.Valid() && source.data != destination.data
    modifies destination.data
    ensures r == if source.format !in CanvasFormats then Failure(UnsupportedImageFormat)
                 else if destination.format != source.format then Failure(InvalidImageProperties)
                 else if destination.width != source.width || destination.height != source.height
                 then Failure(InvalidImageProperties)
                 else Pass
    ensures r.Failure? ==> destination.data[..] == old(destination.data[..])
    ensures r.Pass? ==>
              destination.data[..] == Moved(destination.Layout(),
                                          RowsCopied(old(destination.data[..]), source.data[..], source.stride,
                                                     destination.stride, source.height),
                                          filter.move.x, filter.move.y, FillPattern(source.format, filter.fillColor, filter.fillGray))
  {
    r := CheckSourceFormat(CanvasFormats, source.format);
    if r.Failure? {
      return;
    }
    if destination.format != source.format {
      return Failure(InvalidImageProperties);
    }
    if destination.width != source.width || destination.height != source.height {
      return Failure(InvalidImageProperties);
    }
    CopyRows(destination.data, source.data, source.stride, destination.stride, source.height);
    ProcessFilter(filter, destination);
  }

  /** A row copy followed by the move shows the source's pixels moved. */
  lemma CopiedThenMoved(src: ImageLayout, s: seq<byte>, dst: ImageLayout, d: seq<byte>,
                        mx: int, my: int, fill: seq<byte>, x: int, y: int)
    requires CanvasLayout(src) && CanvasLayout(dst) && |s| == src.Size() && |d| == dst.Size()
    requires src.width == dst.width && src.height == dst.height && src.format == dst.format
    requires |fill| == PixelSize(src.format) && dst.InBounds(x, y)
    ensures PixelBytes(dst, Moved(dst, RowsCopied(d, s, src.stride, dst.stride, src.height), mx, my, fill), x, y)
            == if src.InBounds(x - mx, y - my) then PixelBytes(src, s, x - mx, y - my) else fill
  {
    var copied := RowsCopied(d, s, src.stride, dst.stride, src.height);
    MovedPixels(dst, copied, mx, my, fill, x, y);
    if src.InBounds(x - mx, y - my) {
      CopyKeepsPixelBytes(src, dst, s, d, x - mx, y - my);
    }
  }

  /** (l, s) is what the filter makes of the image (sl, ss): the same size
      and format; pixel (x, y) is the source pixel the move brings there, or
      the fill where none does. */
  ghost predicate Shifted(filter: CanvasMove, l: ImageLayout, s: seq<byte>, sl: ImageLayout, ss: seq<byte>)
    requires CanvasLayout(sl) && |ss| == sl.Size()
  {
    l.Valid() && |s| == l.Size() && l.width == sl.width && l.height == sl.height && l.format == sl.format
    && forall x, y {:trigger PixelBytes(l, s, x, y)} :: sl.InBounds(x, y) ==>
         PixelBytes(l, s, x, y)
         == if sl.InBounds(x - filter.move.x, y - filter.move.y)
            then PixelBytes(sl, ss, x - filter.move.x, y - filter.move.y)
            else FillPattern(sl.format, filter.fillColor, filter.fillGray)
  }

  /** CopiedThenMoved at every pixel of the canvas. */
  lemma CopiedThenMovedAll(filter: CanvasMove, src: ImageLayout, s: seq<byte>, dst: ImageLayout, d: seq<byte>)
    requires CanvasLayout(src) && CanvasLayout(dst) && |s| == src.Size() && |d| == dst.Size()
    requires src.width == dst.width && src.height == dst.height && src.format == dst.format
    ensures Shifted(filter, dst, Moved(dst, RowsCopied(d, s, src.stride, dst.stride, src.height), filter.move.x, filter.move.y,
                                       FillPattern(src.format, filter.fillColor, filter.fillGray)), src, s)
  {
    var mx, my, fill := filter.move.x, filter.move.y, FillPattern(src.format, filter.fillColor, filter.fillGray);
    forall x, y | src.InBounds(x, y)
      ensures PixelBytes(dst, Moved(dst, RowsCopied(d, s, src.stride, dst.stride, src.height), mx, my, fill), x, y)
              == if src.InBounds(x - mx, y - my) then PixelBytes(src, s, x - mx, y - my) else fill
    {
      CopiedThenMoved(src, s, dst, d, mx, my, fill, x, y);
    }
  }

  /** BaseInPlaceFilter.Apply(image): a processed copy of a new image. */
  method Apply(filter: CanvasMove, image: UnmanagedImage) returns (r: Result<UnmanagedImage>)
    requires image.Valid()
    ensures r.Fail? <==> image.format !in CanvasFormats
    ensures r.Fail? ==> r.error == UnsupportedImageFormat
    ensures r.Ok? ==> fresh(r.value) && fresh(r.value.data) && r.value.Valid()
    ensures r.Ok? ==> Shifted(filter, r.value.Layout(), r.value.data[..], image.Layout(), image.data[..])
  {
    var check := CheckSourceFormat(CanvasFormats, image.format);
    if check.Failure? {
      return Fail(check.error);
    }
    var created := UnmanagedImage.Create(image.width, image.height, image.format);
    var dst := created.value;
    ghost var zeros := dst.data[..];
    var done := ApplyTo(filter, image, dst);
    CopiedThenMovedAll(filter, image.Layout(), image.data[..], dst.Layout(), zeros);
    return Ok(dst);
  }
}
