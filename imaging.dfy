/** The pixel buffer of the recogniser: `UnmanagedImage`, its pixel formats,
    rectangles with .NET `Rectangle.Intersect` semantics, and the byte layout
    (row stride, bytes per pixel) that every filter works on. */
module Imaging {
  import opened Arith

  newtype byte = b: int | 0 <= b < 256

  datatype Option<T> = None | Some(value: T)

  /** The exceptions the core throws. */
  datatype ImageError =
    | UnsupportedImageFormat
    | InvalidImageProperties
    | ArgumentOutOfRange
    | NotProcessed

  datatype Result<T> = Ok(value: T) | Fail(error: ImageError)

  datatype Outcome = Pass | Failure(error: ImageError)

  datatype PixelFormat =
    | Format1bppIndexed | Format4bppIndexed | Format8bppIndexed
    | Format16bppGrayScale | Format16bppRgb555 | Format16bppRgb565 | Format16bppArgb1555
    | Format24bppRgb | Format32bppRgb | Format32bppArgb | Format32bppPArgb
    | Format48bppRgb | Format64bppArgb | Format64bppPArgb

  /** Bitmap.GetPixelFormatSize(format) / 8, the pointer step of every pixel loop. */
  function PixelSize(f: PixelFormat): nat
  {
    match f
    case Format1bppIndexed => 0
    case Format4bppIndexed => 0
    case Format8bppIndexed => 1
    case Format16bppGrayScale => 2
    case Format16bppRgb555 => 2
    case Format16bppRgb565 => 2
    case Format16bppArgb1555 => 2
    case Format24bppRgb => 3
    case Format32bppRgb => 4
    case Format32bppArgb => 4
    case Format32bppPArgb => 4
    case Format48bppRgb => 6
    case Format64bppArgb => 8
    case Format64bppPArgb => 8
  }

  /** The nine formats an UnmanagedImage can be created with. */
  predicate IsCreatable(f: PixelFormat)
  {
    f == Format8bppIndexed || f == Format16bppGrayScale || f == Format24bppRgb
    || f == Format32bppRgb || f == Format32bppArgb || f == Format32bppPArgb
    || f == Format48bppRgb || f == Format64bppArgb || f == Format64bppPArgb
  }

  /** The bytes-per-pixel switch of UnmanagedImage.Create: it agrees with the
      format's own size exactly on the creatable formats. */
  function CreateBytesPerPixel(f: PixelFormat): (r: Option<nat>)
    ensures r.Some? <==> IsCreatable(f)
    ensures r.Some? ==> r.value == PixelSize(f) && r.value >= 1
  {
    match f
    case Format8bppIndexed => Some(1)
    case Format16bppGrayScale => Some(2)
    case Format24bppRgb => Some(3)
    case Format32bppRgb => Some(4)
    case Format32bppArgb => Some(4)
    case Format32bppPArgb => Some(4)
    case Format48bppRgb => Some(6)
    case Format64bppArgb => Some(8)
    case Format64bppPArgb => Some(8)
    case _ => None
  }

  /** The stride UnmanagedImage.Create picks, or the exception it throws:
      the format is checked first, then the size; the stride is the smallest
      multiple of 4 that holds a row. */
  function CreateStride(width: int, height: int, f: PixelFormat): (r: Result<int>)
    ensures !IsCreatable(f) ==> r == Fail(UnsupportedImageFormat)
    ensures IsCreatable(f) && (width <= 0 || height <= 0) ==> r == Fail(InvalidImageProperties)
    ensures r.Ok? <==> IsCreatable(f) && width > 0 && height > 0
    ensures r.Ok? ==> r.value % 4 == 0 && width * PixelSize(f) <= r.value < width * PixelSize(f) + 4
  {
    match CreateBytesPerPixel(f)
    case None => Fail(UnsupportedImageFormat)
    case Some(bpp) =>
      if width <= 0 || height <= 0 then Fail(InvalidImageProperties)
      else
        var s := width * bpp;
        Ok(if s % 4 != 0 then s + (4 - s % 4) else s)
  }

  datatype Color = Color(a: byte, r: byte, g: byte, b: byte)

  datatype IntPoint = IntPoint(x: int, y: int)

  /** A System.Drawing.Rectangle: X, Y, Width, Height. */
  datatype Rect = Rect(x: int, y: int, width: int, height: int)
  {
    function Right(): int { x + width }
    function Bottom(): int { y + height }
    predicate Contains(px: int, py: int) { x <= px < x + width && y <= py < y + height }
    predicate Within(outer: Rect)
    {
      outer.x <= x && x + width <= outer.x + outer.width
      && outer.y <= y && y + height <= outer.y + outer.height
    }
  }

  const EmptyRect := Rect(0, 0, 0, 0)

  /** Rectangle.Intersect: the common part, or the empty rectangle at the
      origin when there is none. */
  function Intersect(a: Rect, b: Rect): (r: Rect)
    ensures r.width >= 0 && r.height >= 0
    ensures forall px, py :: r.Contains(px, py) <==> a.Contains(px, py) && b.Contains(px, py)
    ensures r == EmptyRect || (r.Within(a) && r.Within(b))
  {
    var x1 := Max(a.x, b.x);
    var x2 := Min(a.x + a.width, b.x + b.width);
    var y1 := Max(a.y, b.y);
    var y2 := Min(a.y + a.height, b.y + b.height);
    if x2 >= x1 && y2 >= y1 then Rect(x1, y1, x2 - x1, y2 - y1) else EmptyRect
  }

  /** Where the bytes of an image live: pixel (x, y) starts at
      y * stride + x * PixelSize(format). */
  datatype ImageLayout = ImageLayout(width: int, height: int, stride: int, format: PixelFormat)
  {
    predicate Valid()
    {
      0 < width && 0 < height && 0 < stride && width * PixelSize(format) <= stride
    }
    function Size(): int { stride * height }
    function Bounds(): Rect { Rect(0, 0, width, height) }
    predicate InBounds(x: int, y: int) { 0 <= x < width && 0 <= y < height }
    function Offset(x: int, y: int): int { y * stride + x * PixelSize(format) }
  }

  /** Byte c of pixel (x, y) lies in the buffer, and the flat offset splits
      back into row y, pixel x and channel c. */
  lemma OffsetDecompose(l: ImageLayout, x: int, y: int, c: int)
    requires l.Valid() && l.InBounds(x, y) && 0 <= c < PixelSize(l.format)
    ensures 0 <= l.Offset(x, y) + c < l.Size()
    ensures (l.Offset(x, y) + c) / l.stride == y
    ensures (l.Offset(x, y) + c) % l.stride == x * PixelSize(l.format) + c
    ensures (x * PixelSize(l.format) + c) / PixelSize(l.format) == x
    ensures (x * PixelSize(l.format) + c) % PixelSize(l.format) == c
  {
    OffsetSplit(x, y, c, PixelSize(l.format), l.stride, l.width, l.height);
  }

  /** Two different pixels never share a byte. */
  lemma OffsetsDisjoint(l: ImageLayout, x: int, y: int, c: int, x': int, y': int, c': int)
    requires l.Valid() && l.InBounds(x, y) && 0 <= c < PixelSize(l.format)
    requires l.InBounds(x', y') && 0 <= c' < PixelSize(l.format)
    requires x != x' || y != y'
    ensures l.Offset(x, y) + c != l.Offset(x', y') + c'
  {
    OffsetDecompose(l, x, y, c);
    OffsetDecompose(l, x', y', c');
  }

  /** Whether byte k of a buffer belongs to some pixel (rather than row padding). */
  predicate IsPixelByte(l: ImageLayout, k: int)
    requires l.Valid()
  {
    0 <= k < l.Size() && k % l.stride < l.width * PixelSize(l.format)
  }

  /** A pixel byte is byte (k % stride) % ps of pixel ((k % stride) / ps, k / stride). */
  lemma PixelByteCompose(l: ImageLayout, k: int)
    requires l.Valid() && PixelSize(l.format) > 0 && IsPixelByte(l, k)
    ensures l.InBounds((k % l.stride) / PixelSize(l.format), k / l.stride)
    ensures k == l.Offset((k % l.stride) / PixelSize(l.format), k / l.stride) + (k % l.stride) % PixelSize(l.format)
  {
    OffsetCompose(k, l.stride, PixelSize(l.format), l.width, l.height);
  }

  // ---------------------------------------------------------------- reading

  /** The formats GetPixel decodes. */
  predicate IsReadable(f: PixelFormat)
  {
    f == Format8bppIndexed || f == Format24bppRgb || f == Format32bppRgb || f == Format32bppArgb
  }

  /** The PixelSize(format) bytes of pixel (x, y). */
  function PixelBytes(l: ImageLayout, s: seq<byte>, x: int, y: int): (b: seq<byte>)
    requires l.Valid() && |s| == l.Size() && l.InBounds(x, y)
    ensures |b| == PixelSize(l.format)
    ensures forall c :: 0 <= c < |b| ==> 0 <= l.Offset(x, y) + c < |s| && b[c] == s[l.Offset(x, y) + c]
  {
    if PixelSize(l.format) == 0 then []
    else
      OffsetDecompose(l, x, y, PixelSize(l.format) - 1);
      s[l.Offset(x, y)..l.Offset(x, y) + PixelSize(l.format)]
  }

  /** The colour a readable format stores in a pixel's bytes (blue first). */
  function DecodePixel(f: PixelFormat, b: seq<byte>): Color
    requires IsReadable(f) && |b| == PixelSize(f)
  {
    match f
    case Format8bppIndexed => Color(255, b[0], b[0], b[0])
    case Format24bppRgb => Color(255, b[2], b[1], b[0])
    case Format32bppRgb => Color(255, b[2], b[1], b[0])
    case Format32bppArgb => Color(b[3], b[2], b[1], b[0])
  }

  /** UnmanagedImage.GetPixel: strict about bounds (checked first), then about
      the format; grey pixels read as equal channels, and only 32bpp ARGB
      reports a stored alpha. */
  function GetPixel(l: ImageLayout, s: seq<byte>, x: int, y: int): (r: Result<Color>)
    requires l.Valid() && |s| == l.Size()
    ensures !l.InBounds(x, y) ==> r == Fail(ArgumentOutOfRange)
    ensures l.InBounds(x, y) && !IsReadable(l.format) ==> r == Fail(UnsupportedImageFormat)
    ensures r.Ok? <==> l.InBounds(x, y) && IsReadable(l.format)
    ensures r.Ok? && l.format != Format32bppArgb ==> r.value.a == 255
    ensures r.Ok? && l.format == Format8bppIndexed ==> r.value.r == r.value.g == r.value.b
  {
    if x < 0 || y < 0 then Fail(ArgumentOutOfRange)
    else if x >= l.width || y >= l.height then Fail(ArgumentOutOfRange)
    else if !IsReadable(l.format) then Fail(UnsupportedImageFormat)
    else Ok(DecodePixel(l.format, PixelBytes(l, s, x, y)))
  }

  // ---------------------------------------------------------------- writing

  /** The formats SetPixel and SetPixels write. */
  predicate IsWritable(f: PixelFormat)
  {
    f == Format8bppIndexed || f == Format24bppRgb || f == Format32bppRgb || f == Format32bppArgb
    || f == Format16bppGrayScale || f == Format48bppRgb || f == Format64bppArgb
  }

  /** The bytes SetPixel stores into one pixel, lowest address first; None
      leaves that byte alone. `gray` is the luma the source computes in
      floating point from the colour. 16-bit samples are the 8-bit value
      shifted left by 8, stored little-endian. */
  function WritePattern(f: PixelFormat, c: Color, gray: byte): (p: seq<Option<byte>>)
    requires IsWritable(f)
    ensures |p| == PixelSize(f)
  {
    match f
    case Format8bppIndexed => [Some(gray)]
    case Format24bppRgb => [Some(c.b), Some(c.g), Some(c.r)]
    case Format32bppRgb => [Some(c.b), Some(c.g), Some(c.r), None]
    case Format32bppArgb => [Some(c.b), Some(c.g), Some(c.r), Some(c.a)]
    case Format16bppGrayScale => [Some(0), Some(gray)]
    case Format48bppRgb => [Some(0), Some(c.b), Some(0), Some(c.g), Some(0), Some(c.r)]
    case Format64bppArgb =>
      [Some(0), Some(c.b), Some(0), Some(c.g), Some(0), Some(c.r), Some(0), Some(c.a)]
  }

  /** The buffer after writing pattern p over pixel (x, y). */
  function Paint(l: ImageLayout, s: seq<byte>, x: int, y: int, p: seq<Option<byte>>): (r: seq<byte>)
    requires l.Valid() && |s| == l.Size() && |p| == PixelSize(l.format)
    ensures |r| == |s|
  {
    seq(|s|, k requires 0 <= k < |s| => PaintByte(s, l.Offset(x, y), p, k))
  }

  /** Byte k after writing pattern p from offset o on. */
  function PaintByte(s: seq<byte>, o: int, p: seq<Option<byte>>, k: int): byte
    requires 0 <= k < |s|
  {
    if o <= k < o + |p| && p[k - o].Some? then p[k - o].value else s[k]
  }

  /** SetPixels over a list of points, in list order; points outside the
      image are skipped. */
  function PaintAll(l: ImageLayout, s: seq<byte>, pts: seq<IntPoint>, p: seq<Option<byte>>): (r: seq<byte>)
    requires l.Valid() && |s| == l.Size() && |p| == PixelSize(l.format)
    ensures |r| == |s|
  {
    if pts == [] then s
    else
      var before := PaintAll(l, s, pts[..|pts| - 1], p);
      var last := pts[|pts| - 1];
      if l.InBounds(last.x, last.y) then Paint(l, before, last.x, last.y, p) else before
  }

  /** What GetPixel reads back from a pixel SetPixel wrote. */
  function ReadBack(f: PixelFormat, c: Color, gray: byte): Color
  {
    if f == Format8bppIndexed then Color(255, gray, gray, gray)
    else if f == Format32bppArgb then c
    else Color(255, c.r, c.g, c.b)
  }

  /** Round trip: a pixel written by SetPixel reads back as its colour (the
      luma for grey images, opaque for 24/32bpp RGB). */
  lemma GetAfterSet(l: ImageLayout, s: seq<byte>, x: int, y: int, c: Color, gray: byte)
    requires l.Valid() && |s| == l.Size() && l.InBounds(x, y) && IsReadable(l.format)
    ensures GetPixel(l, Paint(l, s, x, y, WritePattern(l.format, c, gray)), x, y)
      == Ok(ReadBack(l.format, c, gray))
  {
    var p := WritePattern(l.format, c, gray);
    var b := PixelBytes(l, Paint(l, s, x, y, p), x, y);
    forall k | 0 <= k < |b| && p[k].Some? ensures b[k] == p[k].value {
    }
  }

  /** SetPixel changes no byte of any other pixel. */
  lemma PaintLeavesOthers(l: ImageLayout, s: seq<byte>, x: int, y: int, p: seq<Option<byte>>,
                          x': int, y': int, c': int)
    requires l.Valid() && |s| == l.Size() && |p| == PixelSize(l.format)
    requires l.InBounds(x, y) && l.InBounds(x', y') && (x != x' || y != y')
    requires 0 <= c' < PixelSize(l.format)
    ensures 0 <= l.Offset(x', y') + c' < |s|
    ensures Paint(l, s, x, y, p)[l.Offset(x', y') + c'] == s[l.Offset(x', y') + c']
  {
    OffsetDecompose(l, x', y', c');
    var k := l.Offset(x', y') + c';
    var o := l.Offset(x, y);
    if o <= k < o + |p| {
      OffsetDecompose(l, x, y, k - o);
      OffsetsDisjoint(l, x, y, k - o, x', y', c');
    }
  }

  /** The bytes of a pixel once pattern p is written over bytes b. */
  function Overlay(p: seq<Option<byte>>, b: seq<byte>): (r: seq<byte>)
    requires |p| == |b|
    ensures |r| == |b|
  {
    seq(|b|, c requires 0 <= c < |b| => if p[c].Some? then p[c].value else b[c])
  }

  /** Writing pattern p at (x, y) overlays it on that pixel and leaves every
      other pixel as it was. */
  lemma PaintedPixelBytes(l: ImageLayout, s: seq<byte>, x: int, y: int, p: seq<Option<byte>>, x': int, y': int)
    requires l.Valid() && |s| == l.Size() && |p| == PixelSize(l.format)
    requires l.InBounds(x, y) && l.InBounds(x', y')
    ensures PixelBytes(l, Paint(l, s, x, y, p), x', y')
            == if x == x' && y == y' then Overlay(p, PixelBytes(l, s, x, y)) else PixelBytes(l, s, x', y')
  {
    var a := PixelBytes(l, Paint(l, s, x, y, p), x', y');
    var e := if x == x' && y == y' then Overlay(p, PixelBytes(l, s, x, y)) else PixelBytes(l, s, x', y');
    forall c | 0 <= c < |a|
      ensures a[c] == e[c]
    {
      if x == x' && y == y' {
        OffsetDecompose(l, x, y, c);
      } else {
        PaintLeavesOthers(l, s, x, y, p, x', y', c);
      }
    }
  }

  /** Writing a pixel never touches the row padding. */
  lemma PaintKeepsPadding(l: ImageLayout, s: seq<byte>, x: int, y: int, p: seq<Option<byte>>, k: int)
    requires l.Valid() && |s| == l.Size() && |p| == PixelSize(l.format) && l.InBounds(x, y)
    requires 0 <= k < |s| && !IsPixelByte(l, k)
    ensures Paint(l, s, x, y, p)[k] == s[k]
  {
    var o := l.Offset(x, y);
    if o <= k < o + |p| {
      OffsetDecompose(l, x, y, k - o);
    }
  }

  /** After SetPixels, every listed in-bounds point reads back as the colour. */
  lemma {:induction false} SetPixelsReadBack(l: ImageLayout, s: seq<byte>, pts: seq<IntPoint>,
                                             c: Color, gray: byte, i: int)
    requires l.Valid() && |s| == l.Size() && IsReadable(l.format)
    requires 0 <= i < |pts| && l.InBounds(pts[i].x, pts[i].y)
    ensures GetPixel(l, PaintAll(l, s, pts, WritePattern(l.format, c, gray)), pts[i].x, pts[i].y)
      == Ok(ReadBack(l.format, c, gray))
  {
    var p := WritePattern(l.format, c, gray);
    var before := PaintAll(l, s, pts[..|pts| - 1], p);
    var last := pts[|pts| - 1];
    if i == |pts| - 1 {
      GetAfterSet(l, before, last.x, last.y, c, gray);
    } else {
      assert pts[..|pts| - 1][i] == pts[i];
      SetPixelsReadBack(l, s, pts[..|pts| - 1], c, gray, i);
      if l.InBounds(last.x, last.y) {
        if last.x == pts[i].x && last.y == pts[i].y {
          GetAfterSet(l, before, last.x, last.y, c, gray);
        } else {
          var after := Paint(l, before, last.x, last.y, p);
          var ba := PixelBytes(l, after, pts[i].x, pts[i].y);
          var bb := PixelBytes(l, before, pts[i].x, pts[i].y);
          forall k | 0 <= k < |ba| ensures ba[k] == bb[k] {
            PaintLeavesOthers(l, before, last.x, last.y, p, pts[i].x, pts[i].y, k);
          }
          assert ba == bb;
        }
      }
    }
  }

  /** SetPixels leaves every pixel that is not listed exactly as it was. */
  lemma {:induction false} SetPixelsLeavesUnlisted(l: ImageLayout, s: seq<byte>, pts: seq<IntPoint>,
                                                   p: seq<Option<byte>>, x: int, y: int, c: int)
    requires l.Valid() && |s| == l.Size() && |p| == PixelSize(l.format)
    requires l.InBounds(x, y) && 0 <= c < PixelSize(l.format)
    requires IntPoint(x, y) !in pts
    ensures 0 <= l.Offset(x, y) + c < |s|
    ensures PaintAll(l, s, pts, p)[l.Offset(x, y) + c] == s[l.Offset(x, y) + c]
  {
    OffsetDecompose(l, x, y, c);
    if pts != [] {
      var before := PaintAll(l, s, pts[..|pts| - 1], p);
      var last := pts[|pts| - 1];
      assert IntPoint(x, y) !in pts[..|pts| - 1];
      SetPixelsLeavesUnlisted(l, s, pts[..|pts| - 1], p, x, y, c);
      if l.InBounds(last.x, last.y) {
        PaintLeavesOthers(l, before, last.x, last.y, p, x, y, c);
      }
    }
  }

  // ---------------------------------------------------------------- scanning

  /** The test CollectActivePixels applies to one pixel: 16-bit samples are
      read as whole words; RGB pixels are active when any colour channel is. */
  predicate IsActive(l: ImageLayout, s: seq<byte>, x: int, y: int)
    requires l.Valid() && |s| == l.Size() && l.InBounds(x, y) && IsCreatable(l.format)
  {
    var ps := PixelSize(l.format);
    var o := l.Offset(x, y);
    OffsetDecompose(l, x, y, ps - 1);
    if l.format == Format16bppGrayScale || ps > 4 then
      if ps / 2 == 1 then s[o] != 0 || s[o + 1] != 0
      else s[o + 4] != 0 || s[o + 5] != 0 || s[o + 2] != 0 || s[o + 3] != 0 || s[o] != 0 || s[o + 1] != 0
    else if ps == 1 then s[o] != 0
    else s[o + 2] != 0 || s[o + 1] != 0 || s[o] != 0
  }

  /** Row-major order: the order in which the pixel loops visit points. */
  predicate RasterBefore(p: IntPoint, q: IntPoint)
  {
    p.y < q.y || (p.y == q.y && p.x < q.x)
  }

  // ---------------------------------------------------------------- copying

  /** s with the bytes from `at` on replaced by block. */
  function Splice(s: seq<byte>, at: int, block: seq<byte>): (r: seq<byte>)
    requires 0 <= at && at + |block| <= |s|
    ensures |r| == |s|
  {
    s[..at] + block + s[at + |block|..]
  }

  /** SystemTools.CopyUnmanagedMemory, as a copy between two distinct buffers. */
  method CopyMemory(dst: array<byte>, dstOffset: int, src: array<byte>, srcOffset: int, count: int)
    requires dst != src && 0 <= count
    requires 0 <= dstOffset && dstOffset + count <= dst.Length
    requires 0 <= srcOffset && srcOffset + count <= src.Length
    modifies dst
    ensures dst[..] == Splice(old(dst[..]), dstOffset, src[..][srcOffset..srcOffset + count])
  {
    forall k | dstOffset <= k < dstOffset + count {
      dst[k] := src[srcOffset + (k - dstOffset)];
    }
  }

  lemma BlockSourceInside(k: int, srcStride: int, dstStride: int, srcRow: int, dstRow: int,
                          srcCol: int, dstCol: int, rows: int, width: int, srcSize: int)
    requires 0 < srcStride && 0 < dstStride && 0 <= srcRow && 0 <= srcCol && srcCol + width <= srcStride
    requires (srcRow + rows) * srcStride <= srcSize
    requires dstRow <= k / dstStride < dstRow + rows && dstCol <= k % dstStride < dstCol + width
    ensures 0 <= (k / dstStride - dstRow + srcRow) * srcStride + srcCol + (k % dstStride - dstCol) < srcSize
  {
    var q := k / dstStride - dstRow + srcRow;
    MulLe(q + 1, srcRow + rows, srcStride);
    MulLe(0, q, srcStride);
  }

  /** A block of `rows` rows of `width` bytes copied from (srcRow, srcCol) of
      one buffer to (dstRow, dstCol) of another; every other destination byte
      keeps its value. */
  function BlockCopied(dst: seq<byte>, src: seq<byte>, srcStride: int, dstStride: int,
                       srcRow: int, dstRow: int, srcCol: int, dstCol: int, rows: int, width: int): (r: seq<byte>)
    requires 0 < srcStride && 0 < dstStride && 0 <= rows && 0 <= width
    requires 0 <= srcRow && (srcRow + rows) * srcStride <= |src|
    requires 0 <= srcCol && srcCol + width <= srcStride && 0 <= dstCol && dstCol + width <= dstStride
    ensures |r| == |dst|
  {
    seq(|dst|, k requires 0 <= k < |dst| => BlockByte(dst, src, srcStride, dstStride, srcRow, dstRow, srcCol, dstCol, rows, width, k))
  }

  /** Byte k of BlockCopied. */
  function BlockByte(dst: seq<byte>, src: seq<byte>, srcStride: int, dstStride: int,
                     srcRow: int, dstRow: int, srcCol: int, dstCol: int, rows: int, width: int, k: int): byte
    requires 0 < srcStride && 0 < dstStride && 0 <= rows && 0 <= width
    requires 0 <= srcRow && (srcRow + rows) * srcStride <= |src|
    requires 0 <= srcCol && srcCol + width <= srcStride && 0 <= dstCol && dstCol + width <= dstStride
    requires 0 <= k < |dst|
  {
    if dstRow <= k / dstStride < dstRow + rows && dstCol <= k % dstStride < dstCol + width then
      BlockSourceInside(k, srcStride, dstStride, srcRow, dstRow, srcCol, dstCol, rows, width, |src|);
      src[(k / dstStride - dstRow + srcRow) * srcStride + srcCol + (k % dstStride - dstCol)]
    else dst[k]
  }

  /** Byte col of row row of the destination after a block copy. */
  lemma BlockCopiedAt(dst: seq<byte>, src: seq<byte>, srcStride: int, dstStride: int,
                      srcRow: int, dstRow: int, srcCol: int, dstCol: int, rows: int, width: int, row: int, col: int)
    requires 0 < srcStride && 0 < dstStride && 0 <= rows && 0 <= width
    requires 0 <= srcRow && (srcRow + rows) * srcStride <= |src|
    requires 0 <= srcCol && srcCol + width <= srcStride && 0 <= dstCol && dstCol + width <= dstStride
    requires 0 <= row && 0 <= col < dstStride && 0 <= row * dstStride + col < |dst|
    ensures dstRow <= row < dstRow + rows && dstCol <= col < dstCol + width ==>
              0 <= (row - dstRow + srcRow) * srcStride + srcCol + (col - dstCol) < |src|
              && BlockCopied(dst, src, srcStride, dstStride, srcRow, dstRow, srcCol, dstCol, rows, width)[row * dstStride + col]
                 == src[(row - dstRow + srcRow) * srcStride + srcCol + (col - dstCol)]
    ensures !(dstRow <= row < dstRow + rows && dstCol <= col < dstCol + width) ==>
              BlockCopied(dst, src, srcStride, dstStride, srcRow, dstRow, srcCol, dstCol, rows, width)[row * dstStride + col]
              == dst[row * dstStride + col]
  {
    var k := row * dstStride + col;
    DivModOfOffset(row, col, dstStride);
    assert k / dstStride == row && k % dstStride == col;
    if dstRow <= row < dstRow + rows && dstCol <= col < dstCol + width {
      BlockSourceInside(k, srcStride, dstStride, srcRow, dstRow, srcCol, dstCol, rows, width, |src|);
    }
  }

  /** Copying no rows changes nothing. */
  lemma BlockCopiedNothing(dst: seq<byte>, src: seq<byte>, srcStride: int, dstStride: int,
                           srcRow: int, dstRow: int, srcCol: int, dstCol: int, width: int)
    requires 0 < srcStride && 0 < dstStride && 0 <= width
    requires 0 <= srcRow && srcRow * srcStride <= |src|
    requires 0 <= srcCol && srcCol + width <= srcStride && 0 <= dstCol && dstCol + width <= dstStride
    ensures BlockCopied(dst, src, srcStride, dstStride, srcRow, dstRow, srcCol, dstCol, 0, width) == dst
  {
  }

  /** Copying one more row of a block is one contiguous copy of `width` bytes. */
  lemma BlockCopyStep(dst: seq<byte>, src: seq<byte>, srcStride: int, dstStride: int,
                      srcRow: int, dstRow: int, srcCol: int, dstCol: int, i: int, width: int)
    requires 0 < srcStride && 0 < dstStride && 0 <= i && 0 <= width
    requires 0 <= srcRow && (srcRow + i + 1) * srcStride <= |src|
    requires 0 <= dstRow && (dstRow + i + 1) * dstStride <= |dst|
    requires 0 <= srcCol && srcCol + width <= srcStride && 0 <= dstCol && dstCol + width <= dstStride
    ensures (srcRow + i) * srcStride <= |src|
    ensures 0 <= (dstRow + i) * dstStride + dstCol && (dstRow + i) * dstStride + dstCol + width <= |dst|
    ensures 0 <= (srcRow + i) * srcStride + srcCol && (srcRow + i) * srcStride + srcCol + width <= |src|
    ensures BlockCopied(dst, src, srcStride, dstStride, srcRow, dstRow, srcCol, dstCol, i + 1, width)
      == var cur := BlockCopied(dst, src, srcStride, dstStride, srcRow, dstRow, srcCol, dstCol, i, width);
         var from := (srcRow + i) * srcStride + srcCol;
         Splice(cur, (dstRow + i) * dstStride + dstCol, src[from..from + width])
  {
    MulLe(srcRow + i, srcRow + i + 1, srcStride);
    MulLe(dstRow + i, dstRow + i + 1, dstStride);
    MulLe(0, dstRow + i, dstStride);
    MulLe(0, srcRow + i, srcStride);
    var cur := BlockCopied(dst, src, srcStride, dstStride, srcRow, dstRow, srcCol, dstCol, i, width);
    var next := BlockCopied(dst, src, srcStride, dstStride, srcRow, dstRow, srcCol, dstCol, i + 1, width);
    var at := (dstRow + i) * dstStride + dstCol;
    var from := (srcRow + i) * srcStride + srcCol;
    var spliced := cur[..at] + src[from..from + width] + cur[at + width..];
    var rowStart := (dstRow + i) * dstStride;
    forall k | 0 <= k < |dst| ensures next[k] == spliced[k] {
      if k < rowStart {
        RowOfBelow(k, dstRow + i, dstStride);
      } else if k < rowStart + dstStride {
        RowSplit(k, dstRow + i, dstStride);
      } else {
        RowOfAbove(k, dstRow + i + 1, dstStride);
      }
    }
  }

  /** UnmanagedImage.Copy between equal-sized images: the first
      min(srcStride, dstStride) bytes of every row are copied; the rest of
      each destination row keeps its old bytes. */
  function RowsCopied(dst: seq<byte>, src: seq<byte>, srcStride: int, dstStride: int, height: int): (r: seq<byte>)
    requires 0 < srcStride && 0 < dstStride && 0 <= height
    requires |src| == srcStride * height && |dst| == dstStride * height
    ensures |r| == |dst|
  {
    BlockCopied(dst, src, srcStride, dstStride, 0, 0, 0, 0, height, Min(srcStride, dstStride))
  }

  /** The copying part of UnmanagedImage.Copy: one block when the strides
      agree, otherwise min(srcStride, dstStride) bytes per row. */
  method CopyRows(dst: array<byte>, src: array<byte>, srcStride: int, dstStride: int, height: int)
    requires dst != src && 0 < srcStride && 0 < dstStride && 0 <= height
    requires src.Length == srcStride * height && dst.Length == dstStride * height
    modifies dst
    ensures dst[..] == RowsCopied(old(dst[..]), src[..], srcStride, dstStride, height)
  {
    if srcStride == dstStride {
      ghost var before := dst[..];
      CopyMemory(dst, 0, src, 0, srcStride * height);
      assert dst[..] == src[..];
      CopyEqualStrides(src[..], before, srcStride, height);
    } else {
      CopyBlock(dst, src, srcStride, dstStride, 0, 0, 0, 0, height, if srcStride < dstStride then srcStride else dstStride);
    }
  }

  /** The row loop shared by Copy, the in-place filters' Apply and Crop: one
      CopyUnmanagedMemory of `width` bytes per row, both row pointers
      advancing by their own stride. */
  method CopyBlock(dst: array<byte>, src: array<byte>, srcStride: int, dstStride: int,
                   srcRow: int, dstRow: int, srcCol: int, dstCol: int, rows: int, width: int)
    requires dst != src && 0 < srcStride && 0 < dstStride && 0 <= rows && 0 <= width
    requires 0 <= srcRow && (srcRow + rows) * srcStride <= src.Length
    requires 0 <= dstRow && (dstRow + rows) * dstStride <= dst.Length
    requires 0 <= srcCol && srcCol + width <= srcStride && 0 <= dstCol && dstCol + width <= dstStride
    modifies dst
    ensures dst[..] == BlockCopied(old(dst[..]), src[..], srcStride, dstStride, srcRow, dstRow, srcCol, dstCol, rows, width)
  {
    ghost var before := dst[..];
    MulLe(srcRow, srcRow + rows, srcStride);
    BlockCopiedNothing(before, src[..], srcStride, dstStride, srcRow, dstRow, srcCol, dstCol, width);
    var i := 0;
    while i < rows
      invariant 0 <= i <= rows
      invariant (srcRow + i) * srcStride <= src.Length
      invariant dst[..] == BlockCopied(before, src[..], srcStride, dstStride, srcRow, dstRow, srcCol, dstCol, i, width)
    {
      BlockRowBounds(srcStride, dstStride, srcRow, dstRow, srcCol, dstCol, rows, width, src.Length, dst.Length, i);
      var from := (srcRow + i) * srcStride + srcCol;
      var to := (dstRow + i) * dstStride + dstCol;
      ghost var cur := dst[..];
      CopyMemory(dst, to, src, from, width);
      BlockCopyAdvance(before, src[..], srcStride, dstStride, srcRow, dstRow, srcCol, dstCol, rows, width, i, cur, dst[..]);
      i := i + 1;
    }
  }

  /** Row i of a block lies inside both buffers. */
  lemma BlockRowBounds(srcStride: int, dstStride: int, srcRow: int, dstRow: int, srcCol: int, dstCol: int,
                       rows: int, width: int, srcSize: int, dstSize: int, i: int)
    requires 0 < srcStride && 0 < dstStride && 0 <= i < rows && 0 <= width
    requires 0 <= srcRow && (srcRow + rows) * srcStride <= srcSize
    requires 0 <= dstRow && (dstRow + rows) * dstStride <= dstSize
    requires 0 <= srcCol && srcCol + width <= srcStride && 0 <= dstCol && dstCol + width <= dstStride
    ensures 0 <= (srcRow + i) * srcStride + srcCol && (srcRow + i) * srcStride + srcCol + width <= srcSize
    ensures 0 <= (dstRow + i) * dstStride + dstCol && (dstRow + i) * dstStride + dstCol + width <= dstSize
  {
    MulLe(srcRow + i + 1, srcRow + rows, srcStride);
    MulLe(dstRow + i + 1, dstRow + rows, dstStride);
    MulLe(0, srcRow + i, srcStride);
    MulLe(0, dstRow + i, dstStride);
  }

  /** Copying row i of a block onto the first i rows gives the first i + 1. */
  lemma BlockCopyAdvance(before: seq<byte>, src: seq<byte>, srcStride: int, dstStride: int,
                         srcRow: int, dstRow: int, srcCol: int, dstCol: int, rows: int, width: int,
                         i: int, cur: seq<byte>, next: seq<byte>)
    requires 0 < srcStride && 0 < dstStride && 0 <= i < rows && 0 <= width
    requires 0 <= srcRow && (srcRow + rows) * srcStride <= |src|
    requires 0 <= dstRow && (dstRow + rows) * dstStride <= |before|
    requires 0 <= srcCol && srcCol + width <= srcStride && 0 <= dstCol && dstCol + width <= dstStride
    requires (srcRow + i) * srcStride <= |src|
    requires cur == BlockCopied(before, src, srcStride, dstStride, srcRow, dstRow, srcCol, dstCol, i, width)
    requires 0 <= (srcRow + i) * srcStride + srcCol && (srcRow + i) * srcStride + srcCol + width <= |src|
    requires 0 <= (dstRow + i) * dstStride + dstCol && (dstRow + i) * dstStride + dstCol + width <= |cur|
    requires next == Splice(cur, (dstRow + i) * dstStride + dstCol,
                            src[(srcRow + i) * srcStride + srcCol..(srcRow + i) * srcStride + srcCol + width])
    ensures (srcRow + i + 1) * srcStride <= |src|
    ensures next == BlockCopied(before, src, srcStride, dstStride, srcRow, dstRow, srcCol, dstCol, i + 1, width)
  {
    MulLe(srcRow + i + 1, srcRow + rows, srcStride);
    MulLe(dstRow + i + 1, dstRow + rows, dstStride);
    BlockCopyStep(before, src, srcStride, dstStride, srcRow, dstRow, srcCol, dstCol, i, width);
  }

  /** Copy transfers every byte of every pixel, whatever the two strides. */
  lemma CopyKeepsPixels(src: ImageLayout, dst: ImageLayout, s: seq<byte>, d: seq<byte>, x: int, y: int, c: int)
    requires src.Valid() && dst.Valid() && |s| == src.Size() && |d| == dst.Size()
    requires src.width == dst.width && src.height == dst.height && src.format == dst.format
    requires src.InBounds(x, y) && 0 <= c < PixelSize(src.format)
    ensures 0 <= dst.Offset(x, y) + c < |d| && 0 <= src.Offset(x, y) + c < |s|
    ensures RowsCopied(d, s, src.stride, dst.stride, src.height)[dst.Offset(x, y) + c] == s[src.Offset(x, y) + c]
  {
    OffsetDecompose(src, x, y, c);
    OffsetDecompose(dst, x, y, c);
    var ps := PixelSize(src.format);
    MulLe(x + 1, src.width, ps);
    assert x * ps + c < Min(src.stride, dst.stride);
  }

  /** So a pixel of the copy holds the source pixel's bytes. */
  lemma CopyKeepsPixelBytes(src: ImageLayout, dst: ImageLayout, s: seq<byte>, d: seq<byte>, x: int, y: int)
    requires src.Valid() && dst.Valid() && |s| == src.Size() && |d| == dst.Size()
    requires src.width == dst.width && src.height == dst.height && src.format == dst.format
    requires src.InBounds(x, y)
    ensures |RowsCopied(d, s, src.stride, dst.stride, src.height)| == dst.Size()
    ensures PixelBytes(dst, RowsCopied(d, s, src.stride, dst.stride, src.height), x, y) == PixelBytes(src, s, x, y)
  {
    var a := PixelBytes(dst, RowsCopied(d, s, src.stride, dst.stride, src.height), x, y);
    var b := PixelBytes(src, s, x, y);
    forall c | 0 <= c < PixelSize(src.format) ensures a[c] == b[c] {
      CopyKeepsPixels(src, dst, s, d, x, y, c);
    }
  }

  /** Copy between images with equal strides reproduces the source exactly. */
  lemma CopyEqualStrides(s: seq<byte>, d: seq<byte>, stride: int, height: int)
    requires 0 < stride && 0 <= height && |s| == stride * height && |d| == stride * height
    ensures RowsCopied(d, s, stride, stride, height) == s
  {
    var r := RowsCopied(d, s, stride, stride, height);
    forall k | 0 <= k < |s| ensures r[k] == s[k] {
      DivMod(k, stride);
      assert Min(stride, stride) == stride;
    }
  }

  // ---------------------------------------------------------------- the buffer

  class UnmanagedImage {
    const width: int
    const height: int
    const stride: int
    const format: PixelFormat
    const data: array<byte>

    function Layout(): ImageLayout { ImageLayout(width, height, stride, format) }

    ghost predicate Valid()
    {
      Layout().Valid() && data.Length == Layout().Size()
    }

    /** Wraps an existing buffer; nothing is checked. */
    constructor (data: array<byte>, width: int, height: int, stride: int, format: PixelFormat)
      ensures this.data == data && this.width == width && this.height == height
      ensures this.stride == stride && this.format == format
    {
      this.data := data;
      this.width := width;
      this.height := height;
      this.stride := stride;
      this.format := format;
    }

    /** UnmanagedImage.Create: a zero-filled buffer with the padded stride. */
    static method Create(width: int, height: int, format: PixelFormat) returns (r: Result<UnmanagedImage>)
      ensures r.Fail? ==> CreateStride(width, height, format) == Fail(r.error)
      ensures r.Ok? ==> CreateStride(width, height, format) == Ok(r.value.stride)
      ensures r.Ok? ==> fresh(r.value) && fresh(r.value.data) && r.value.Valid()
      ensures r.Ok? ==> r.value.width == width && r.value.height == height && r.value.format == format
      ensures r.Ok? ==> forall k :: 0 <= k < r.value.data.Length ==> r.value.data[k] == 0
    {
      var st := CreateStride(width, height, format);
      if st.Fail? {
        return Fail(st.error);
      }
      var buffer := new byte[st.value * height](_ => 0);
      var image := new UnmanagedImage(buffer, width, height, st.value, format);
      return Ok(image);
    }

    /** UnmanagedImage.Copy: refuses a destination of another size or format;
        otherwise one block copy when the strides agree, else row by row. */
    method Copy(dest: UnmanagedImage) returns (r: Outcome)
      requires Valid() && dest.Valid() && dest.data != data
      modifies dest.data
      ensures r == if width != dest.width || height != dest.height || format != dest.format
                   then Failure(InvalidImageProperties) else Pass
      ensures r.Failure? ==> dest.data[..] == old(dest.data[..])
      ensures r.Pass? ==> dest.data[..] == RowsCopied(old(dest.data[..]), data[..], stride, dest.stride, height)
    {
      if width != dest.width || height != dest.height || format != dest.format {
        return Failure(InvalidImageProperties);
      }
      CopyRows(dest.data, data, stride, dest.stride, height);
      return Pass;
    }

    function GetPixelAt(x: int, y: int): (r: Result<Color>)
      reads data
      requires Valid()
      ensures r.Ok? <==> Layout().InBounds(x, y) && IsReadable(format)
    {
      GetPixel(Layout(), data[..], x, y)
    }

    /** The private SetPixel(x, y, r, g, b, a): out-of-bounds points are
        ignored before the format is looked at. */
    method SetPixel(x: int, y: int, c: Color, gray: byte) returns (r: Outcome)
      requires Valid()
      modifies data
      ensures r == if Layout().InBounds(x, y) && !IsWritable(format) then Failure(UnsupportedImageFormat) else Pass
      ensures data[..] == if Layout().InBounds(x, y) && IsWritable(format)
                          then Paint(Layout(), old(data[..]), x, y, WritePattern(format, c, gray))
                          else old(data[..])
    {
      if !(x >= 0 && y >= 0 && x < width && y < height) {
        return Pass;
      }
      if !IsWritable(format) {
        return Failure(UnsupportedImageFormat);
      }
      WritePixel(x, y, WritePattern(format, c, gray));
      return Pass;
    }

    /** Stores the given bytes of one in-bounds pixel. */
    method WritePixel(x: int, y: int, p: seq<Option<byte>>)
      requires Valid() && Layout().InBounds(x, y) && |p| == PixelSize(format)
      modifies data
      ensures data[..] == Paint(Layout(), old(data[..]), x, y, p)
    {
      var o := y * stride + x * PixelSize(format);
      if |p| > 0 {
        OffsetDecompose(Layout(), x, y, |p| - 1);
      }
      forall k | o <= k < o + |p| && p[k - o].Some? {
        data[k] := p[k - o].value;
      }
    }

    /** UnmanagedImage.SetPixels: an unsupported format throws before any
        point is looked at; otherwise each in-bounds point is painted. */
    method SetPixels(points: seq<IntPoint>, c: Color, gray: byte) returns (r: Outcome)
      requires Valid()
      modifies data
      ensures r == if IsWritable(format) then Pass else Failure(UnsupportedImageFormat)
      ensures data[..] == if IsWritable(format)
                          then PaintAll(Layout(), old(data[..]), points, WritePattern(format, c, gray))
                          else old(data[..])
    {
      if !IsWritable(format) {
        return Failure(UnsupportedImageFormat);
      }
      var p := WritePattern(format, c, gray);
      var i := 0;
      while i < |points|
        invariant 0 <= i <= |points|
        invariant data[..] == PaintAll(Layout(), old(data[..]), points[..i], p)
      {
        assert points[..i + 1][..i] == points[..i];
        var pt := points[i];
        if pt.x >= 0 && pt.y >= 0 && pt.x < width && pt.y < height {
          WritePixel(pt.x, pt.y, p);
        }
        i := i + 1;
      }
      assert points[..|points|] == points;
      return Pass;
    }

    /** UnmanagedImage.CollectActivePixels: the rectangle is clipped to the
        image, then every active pixel in it is listed in row-major order. */
    method CollectActivePixels(rect: Rect) returns (pixels: seq<IntPoint>)
      requires Valid() && IsCreatable(format)
      ensures forall p :: p in pixels <==>
        Intersect(rect, Layout().Bounds()).Contains(p.x, p.y) && IsActive(Layout(), data[..], p.x, p.y)
      ensures forall i, j :: 0 <= i < j < |pixels| ==> RasterBefore(pixels[i], pixels[j])
    {
      var clip := Intersect(rect, Rect(0, 0, width, height));
      var startX, startY := clip.x, clip.y;
      var stopX, stopY := clip.x + clip.width, clip.y + clip.height;
      pixels := [];
      var y := startY;
      while y < stopY
        invariant startY <= y <= stopY || (stopY <= startY && y == startY)
        invariant forall p :: p in pixels <==>
          clip.Contains(p.x, p.y) && IsActive(Layout(), data[..], p.x, p.y) && p.y < y
        invariant forall i, j :: 0 <= i < j < |pixels| ==> RasterBefore(pixels[i], pixels[j])
        invariant forall i :: 0 <= i < |pixels| ==> pixels[i].y < y
      {
        var x := startX;
        while x < stopX
          invariant startX <= x <= stopX
          invariant forall p :: p in pixels <==>
            clip.Contains(p.x, p.y) && IsActive(Layout(), data[..], p.x, p.y)
            && RasterBefore(p, IntPoint(x, y))
          invariant forall i, j :: 0 <= i < j < |pixels| ==> RasterBefore(pixels[i], pixels[j])
          invariant forall i :: 0 <= i < |pixels| ==> RasterBefore(pixels[i], IntPoint(x, y))
        {
          if IsActive(Layout(), data[..], x, y) {
            pixels := pixels + [IntPoint(x, y)];
          }
          x := x + 1;
        }
        y := y + 1;
      }
    }
  }
}
