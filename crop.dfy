// The Crop transformation filter (AForge.Imaging.Filters.Crop over
// BaseTransformationFilter): the destination has the crop rectangle's size;
// the part of the rectangle that overlaps the source is copied row by row,
// shifted so that source pixel (x, y) lands at (x - rect.x, y - rect.y).
// Destination bytes outside the overlap keep their value (zero for a newly
// created image).

module CropFilter {
  import opened Arith
  import opened Imaging
  import opened Filters

  /** Every format the filter accepts is kept as it is. */
  const CropFormats: map<PixelFormat, PixelFormat> :=
    map[Format8bppIndexed := Format8bppIndexed, Format24bppRgb := Format24bppRgb,
        Format32bppRgb := Format32bppRgb, Format32bppArgb := Format32bppArgb,
        Format16bppGrayScale := Format16bppGrayScale, Format48bppRgb := Format48bppRgb,
        Format64bppArgb := Format64bppArgb]

  lemma CropFormatsKept()
    ensures forall f :: f in CropFormats ==> CropFormats[f] == f && IsCreatable(f)
  {
  }

  /** The part of the crop rectangle that lies on the source image. */
  function Clip(rect: Rect, src: ImageLayout): Rect
  {
    Intersect(rect, src.Bounds())
  }

  /** First destination row and column (in pixels) that receives source data. */
  function DestRow(rect: Rect): int { if rect.y < 0 then -rect.y else 0 }
  function DestColumn(rect: Rect): int { if rect.x < 0 then -rect.x else 0 }

  /** Source and destination of one crop: same format, destination of the
      rectangle's size. */
  predicate CropPair(rect: Rect, src: ImageLayout, dst: ImageLayout)
  {
    src.Valid() && dst.Valid() && src.format == dst.format
    && dst.width == rect.width && dst.height == rect.height
  }

  /** A non-empty overlap starts at the rectangle's corner clipped to the
      image, and its shifted copy fits inside the destination. */
  lemma ClipPlacement(rect: Rect, src: ImageLayout, dst: ImageLayout)
    requires CropPair(rect, src, dst)
    requires Clip(rect, src).width > 0 && Clip(rect, src).height > 0
    ensures Clip(rect, src).x == DestColumn(rect) + rect.x && Clip(rect, src).y == DestRow(rect) + rect.y
    ensures 0 <= DestRow(rect) && DestRow(rect) + Clip(rect, src).height <= dst.height
    ensures 0 <= DestColumn(rect) && DestColumn(rect) + Clip(rect, src).width <= dst.width
    ensures Clip(rect, src).Bottom() <= src.height && Clip(rect, src).Right() <= src.width
  {
  }

  /** The byte block of a non-empty overlap lies inside both buffers. */
  lemma ClipBlockBounds(rect: Rect, src: ImageLayout, dst: ImageLayout, ps: int)
    requires CropPair(rect, src, dst) && ps == PixelSize(src.format)
    requires Clip(rect, src).width > 0 && Clip(rect, src).height > 0
    ensures var clip := Clip(rect, src);
            0 <= clip.y && (clip.y + clip.height) * src.stride <= src.Size()
            && 0 <= DestRow(rect) && (DestRow(rect) + clip.height) * dst.stride <= dst.Size()
            && 0 <= clip.x * ps && clip.x * ps + clip.width * ps <= src.stride
            && 0 <= DestColumn(rect) * ps && DestColumn(rect) * ps + clip.width * ps <= dst.stride
  {
    var clip := Clip(rect, src);
    ClipPlacement(rect, src, dst);
    MulLe(clip.y + clip.height, src.height, src.stride);
    MulLe(DestRow(rect) + clip.height, dst.height, dst.stride);
    MulLe(clip.x + clip.width, src.width, ps);
    MulLe(DestColumn(rect) + clip.width, dst.width, ps);
    MulLe(0, clip.x, ps);
    MulLe(0, DestColumn(rect), ps);
  }

  /** The destination buffer after the crop. */
  function Cropped(rect: Rect, src: ImageLayout, s: seq<byte>, dst: ImageLayout, d: seq<byte>): (r: seq<byte>)
    requires CropPair(rect, src, dst) && |s| == src.Size() && |d| == dst.Size()
    ensures |r| == |d|
  {
    var clip := Clip(rect, src);
    var ps := PixelSize(src.format);
    if clip.width > 0 && clip.height > 0 then
      ClipBlockBounds(rect, src, dst, ps);
      BlockCopied(d, s, src.stride, dst.stride, clip.y, DestRow(rect), clip.x * ps, DestColumn(rect) * ps,
                  clip.height, clip.width * ps)
    else d
  }

  /** Crop.ProcessFilter: one copy of copyWidth * pixelSize bytes per row of
      the overlap. An overlap without area copies nothing. */
  method ProcessFilter(rect: Rect, source: UnmanagedImage, destination: UnmanagedImage)
    requires source.data != destination.data && source.Valid() && destination.Valid()
    requires CropPair(rect, source.Layout(), destination.Layout())
    modifies destination.data
    ensures destination.data[..] == Cropped(rect, source.Layout(), source.data[..], destination.Layout(),
                                            old(destination.data[..]))
  {
    var clip := Intersect(rect, Rect(0, 0, source.width, source.height));
    var pixelSize := PixelSize(source.format);
    var dstRow := 0;
    if rect.y < 0 {
      dstRow := -rect.y;
    }
    var dstColumn := 0;
    if rect.x < 0 {
      dstColumn := -rect.x;
    }
    if clip.width > 0 && clip.height > 0 {
      ClipBlockBounds(rect, source.Layout(), destination.Layout(), pixelSize);
      CopyBlock(destination.data, source.data, source.stride, destination.stride,
                clip.y, dstRow, clip.x * pixelSize, dstColumn * pixelSize, clip.height, clip.width * pixelSize);
    }
  }

  // ---------------------------------------------------------------- properties

  /** lo * ps <= u * ps + c < hi * ps exactly when lo <= u < hi. */
  lemma ScaledColumn(u: int, c: int, ps: int, lo: int, hi: int)
    requires 0 <= c < ps
    ensures lo * ps <= u * ps + c < hi * ps <==> lo <= u < hi
  {
    if lo <= u {
      MulLe(lo, u, ps);
    } else {
      MulLe(u + 1, lo, ps);
    }
    if u < hi {
      MulLe(u + 1, hi, ps);
    } else {
      MulLe(hi, u, ps);
    }
  }

  /** The source byte the block copy reads for byte c of destination pixel
      (u, v) is byte c of the shifted source pixel. */
  lemma ShiftedIndex(u: int, v: int, c: int, ps: int, srcStride: int,
                     srcRow: int, srcColumn: int, dstRow: int, dstColumn: int, dx: int, dy: int)
    requires srcRow == dstRow + dy && srcColumn == dstColumn + dx
    ensures (v - dstRow + srcRow) * srcStride + srcColumn * ps + (u * ps + c - dstColumn * ps)
            == (v + dy) * srcStride + (u + dx) * ps + c
  {
    assert srcColumn * ps == dstColumn * ps + dx * ps;
    assert (u + dx) * ps == u * ps + dx * ps;
  }

  /** Byte c of destination pixel (u, v) after the crop, when the shifted
      source pixel exists: the source's byte. */
  lemma CroppedInside(rect: Rect, src: ImageLayout, s: seq<byte>, dst: ImageLayout, d: seq<byte>,
                      u: int, v: int, c: int, ps: int)
    requires CropPair(rect, src, dst) && |s| == src.Size() && |d| == dst.Size() && dst.InBounds(u, v)
    requires ps == PixelSize(src.format) && 0 <= c < ps && src.InBounds(u + rect.x, v + rect.y)
    ensures 0 <= dst.Offset(u, v) + c < |d| && 0 <= src.Offset(u + rect.x, v + rect.y) + c < |s|
    ensures Cropped(rect, src, s, dst, d)[dst.Offset(u, v) + c] == s[src.Offset(u + rect.x, v + rect.y) + c]
  {
    var clip := Clip(rect, src);
    assert clip.Contains(u + rect.x, v + rect.y);
    OffsetDecompose(dst, u, v, c);
    OffsetDecompose(src, u + rect.x, v + rect.y, c);
    ClipPlacement(rect, src, dst);
    ClipBlockBounds(rect, src, dst, ps);
    var col := u * ps + c;
    assert dst.Offset(u, v) + c == v * dst.stride + col;
    ScaledColumn(u, c, ps, DestColumn(rect), DestColumn(rect) + clip.width);
    MulAdd(DestColumn(rect), clip.width, ps);
    assert DestColumn(rect) * ps <= col < DestColumn(rect) * ps + clip.width * ps;
    assert DestRow(rect) <= v < DestRow(rect) + clip.height;
    BlockCopiedAt(d, s, src.stride, dst.stride, clip.y, DestRow(rect), clip.x * ps, DestColumn(rect) * ps,
                  clip.height, clip.width * ps, v, col);
    ShiftedIndex(u, v, c, ps, src.stride, clip.y, clip.x, DestRow(rect), DestColumn(rect), rect.x, rect.y);
  }

  /** Byte c of destination pixel (u, v) after the crop, when the shifted
      source pixel does not exist: unchanged. */
  lemma CroppedOutside(rect: Rect, src: ImageLayout, s: seq<byte>, dst: ImageLayout, d: seq<byte>,
                       u: int, v: int, c: int, ps: int)
    requires CropPair(rect, src, dst) && |s| == src.Size() && |d| == dst.Size() && dst.InBounds(u, v)
    requires ps == PixelSize(src.format) && 0 <= c < ps && !src.InBounds(u + rect.x, v + rect.y)
    ensures 0 <= dst.Offset(u, v) + c < |d|
    ensures Cropped(rect, src, s, dst, d)[dst.Offset(u, v) + c] == d[dst.Offset(u, v) + c]
  {
    var clip := Clip(rect, src);
    OffsetDecompose(dst, u, v, c);
    if clip.width > 0 && clip.height > 0 {
      ClipPlacement(rect, src, dst);
      ClipBlockBounds(rect, src, dst, ps);
      var col := u * ps + c;
      assert dst.Offset(u, v) + c == v * dst.stride + col;
      ScaledColumn(u, c, ps, DestColumn(rect), DestColumn(rect) + clip.width);
      MulAdd(DestColumn(rect), clip.width, ps);
      BlockCopiedAt(d, s, src.stride, dst.stride, clip.y, DestRow(rect), clip.x * ps, DestColumn(rect) * ps,
                    clip.height, clip.width * ps, v, col);
    }
  }

  /** Destination pixel (u, v) shows source pixel (u + rect.x, v + rect.y)
      when that pixel exists, and keeps its old bytes otherwise. */
  lemma CroppedPixel(rect: Rect, src: ImageLayout, s: seq<byte>, dst: ImageLayout, d: seq<byte>, u: int, v: int)
    requires CropPair(rect, src, dst) && |s| == src.Size() && |d| == dst.Size() && dst.InBounds(u, v)
    ensures src.InBounds(u + rect.x, v + rect.y) ==>
              PixelBytes(dst, Cropped(rect, src, s, dst, d), u, v) == PixelBytes(src, s, u + rect.x, v + rect.y)
    ensures !src.InBounds(u + rect.x, v + rect.y) ==>
              PixelBytes(dst, Cropped(rect, src, s, dst, d), u, v) == PixelBytes(dst, d, u, v)
  {
    var ps := PixelSize(src.format);
    var after := PixelBytes(dst, Cropped(rect, src, s, dst, d), u, v);
    if src.InBounds(u + rect.x, v + rect.y) {
      var from := PixelBytes(src, s, u + rect.x, v + rect.y);
      forall c | 0 <= c < ps ensures after[c] == from[c] {
        CroppedInside(rect, src, s, dst, d, u, v, c, ps);
      }
    } else {
      var before := PixelBytes(dst, d, u, v);
      forall c | 0 <= c < ps ensures after[c] == before[c] {
        CroppedOutside(rect, src, s, dst, d, u, v, c, ps);
      }
    }
  }

  /** The padding at the end of each destination row is never written. */
  lemma CroppedKeepsPadding(rect: Rect, src: ImageLayout, s: seq<byte>, dst: ImageLayout, d: seq<byte>, k: int)
    requires CropPair(rect, src, dst) && |s| == src.Size() && |d| == dst.Size()
    requires 0 <= k < |d| && !IsPixelByte(dst, k)
    ensures Cropped(rect, src, s, dst, d)[k] == d[k]
  {
    var clip := Clip(rect, src);
    var ps := PixelSize(src.format);
    if clip.width > 0 && clip.height > 0 {
      ClipPlacement(rect, src, dst);
      ClipBlockBounds(rect, src, dst, ps);
      MulLe(DestColumn(rect) + clip.width, dst.width, ps);
      MulAdd(DestColumn(rect), clip.width, ps);
    }
  }

  // ---------------------------------------------------------------- entry points

  /** BaseTransformationFilter.Apply(source, destination). */
  method ApplyTo(rect: Rect, source: UnmanagedImage, destination: UnmanagedImage) returns (r: Outcome)
    requires source.Valid() && destination.Valid() && source.data != destination.data
    modifies destination.data
    ensures r == if source.format !in CropFormats then Failure(UnsupportedImageFormat)
                 else if destination.format != CropFormats[source.format] then Failure(InvalidImageProperties)
                 else if destination.width != rect.width || destination.height != rect.height
                 then Failure(InvalidImageProperties)
                 else Pass
    ensures r.Failure? ==> destination.data[..] == old(destination.data[..])
    ensures r.Pass? ==> destination.data[..] == Cropped(rect, source.Layout(), source.data[..],
                                                        destination.Layout(), old(destination.data[..]))
  {
    r := CheckSourceFormat(CropFormats, source.format);
    if r.Failure? {
      return;
    }
    if destination.format != CropFormats[source.format] {
      return Failure(InvalidImageProperties);
    }
    if destination.width != rect.width || destination.height != rect.height {
      return Failure(InvalidImageProperties);
    }
    ProcessFilter(rect, source, destination);
  }

  /** (l, s) is what Crop(rect) makes of the image (sl, ss): the rectangle's
      size and the source's format; pixel (u, v) is the source pixel at
      (u + rect.x, v + rect.y), or zero bytes where that is off the source. */
  ghost predicate CropOf(l: ImageLayout, s: seq<byte>, sl: ImageLayout, ss: seq<byte>, rect: Rect)
    requires sl.Valid() && |ss| == sl.Size()
  {
    l.Valid() && |s| == l.Size() && l.width == rect.width && l.height == rect.height && l.format == sl.format
    && forall u, v {:trigger PixelBytes(l, s, u, v)} :: l.InBounds(u, v) ==>
         PixelBytes(l, s, u, v)
         == if sl.InBounds(u + rect.x, v + rect.y) then PixelBytes(sl, ss, u + rect.x, v + rect.y)
            else seq(PixelSize(sl.format), _ => 0)
  }

  /** img is what Crop(rect).Apply(src) returns. */
  ghost predicate IsCrop(img: UnmanagedImage, src: UnmanagedImage, rect: Rect)
    requires src.Valid()
    reads img.data, src.data
  {
    img.Valid() && CropOf(img.Layout(), img.data[..], src.Layout(), src.data[..], rect)
  }

  /** BaseTransformationFilter.Apply(image): a new image of the rectangle's
      size, black where the rectangle leaves the source. */
  method Apply(rect: Rect, image: UnmanagedImage) returns (r: Result<UnmanagedImage>)
    requires image.Valid()
    ensures image.format !in CropFormats ==> r == Fail(UnsupportedImageFormat)
    ensures image.format in CropFormats && (rect.width <= 0 || rect.height <= 0) ==> r == Fail(InvalidImageProperties)
    ensures r.Ok? <==> image.format in CropFormats && rect.width > 0 && rect.height > 0
    ensures r.Ok? ==> fresh(r.value) && fresh(r.value.data) && IsCrop(r.value, image, rect)
  {
    var check := CheckSourceFormat(CropFormats, image.format);
    if check.Failure? {
      return Fail(check.error);
    }
    var created := UnmanagedImage.Create(rect.width, rect.height, CropFormats[image.format]);
    if created.Fail? {
      return Fail(created.error);
    }
    var dst := created.value;
    ghost var zeros := dst.data[..];
    ProcessFilter(rect, image, dst);
    forall u, v | dst.Layout().InBounds(u, v)
      ensures PixelBytes(dst.Layout(), dst.data[..], u, v)
              == if image.Layout().InBounds(u + rect.x, v + rect.y)
                 then PixelBytes(image.Layout(), image.data[..], u + rect.x, v + rect.y)
                 else seq(PixelSize(image.format), _ => 0)
    {
      CroppedPixel(rect, image.Layout(), image.data[..], dst.Layout(), zeros, u, v);
    }
    return Ok(dst);
  }
}
