/** Grayscale (a BaseFilter): colour to grey with 16.16 fixed-point
    coefficients, into a new 8bpp image. */
module GrayscaleFilter {
  import opened Arith
  import opened Imaging
  import opened Filters

  /** The coefficients as the 8-bit path uses them: (int)(0x10000 * c). */
  datatype Grayscale = Grayscale(rc: int, gc: int, bc: int)

  /** Grayscale.CommonAlgorithms.BT709: 0.2125, 0.7154, 0.0721 scaled by
      65536 and truncated. The recogniser's PreProcess uses these. */
  const BT709 := Grayscale(13926, 46884, 4725)

  const GrayscaleFormats: map<PixelFormat, PixelFormat> :=
    map[Format24bppRgb := Format8bppIndexed, Format32bppRgb := Format8bppIndexed,
        Format32bppArgb := Format8bppIndexed, Format48bppRgb := Format16bppGrayScale,
        Format64bppArgb := Format16bppGrayScale]

  /** The formats ProcessFilter handles with integer arithmetic. */
  predicate IsEightBitPath(f: PixelFormat)
  {
    f == Format24bppRgb || f == Format32bppRgb || f == Format32bppArgb
  }

  /** `(byte)((rc * R + gc * G + bc * B) >> 16)`: the shift of a value is
      floor division by 65536 and the cast keeps the low byte. */
  function Luma(g: Grayscale, r: byte, gr: byte, b: byte): byte
  {
    ((g.rc * r as int + g.gc * gr as int + g.bc * b as int) / 65536 % 256) as byte
  }

  /** The grey value of a colour pixel's bytes (blue first). */
  function PixelLuma(g: Grayscale, b: seq<byte>): byte
    requires |b| >= 3
  {
    Luma(g, b[2], b[1], b[0])
  }

  /** A source and destination layout the 8-bit path accepts. */
  predicate GrayPair(src: ImageLayout, dst: ImageLayout)
  {
    src.Valid() && dst.Valid() && IsEightBitPath(src.format) && dst.format == Format8bppIndexed
    && src.width == dst.width && src.height == dst.height
  }

  /** The destination after the 8-bit loop has converted the pixels of rows
      0 .. y - 1 and pixels 0 .. x - 1 of row y. */
  function Grayed(g: Grayscale, src: ImageLayout, s: seq<byte>, dst: ImageLayout, d: seq<byte>, y: int, x: int): (r: seq<byte>)
    requires GrayPair(src, dst) && |s| == src.Size() && |d| == dst.Size()
    ensures |r| == |d|
  {
    seq(|d|, k requires 0 <= k < |d| => GrayedByte(g, src, s, dst, d, y, x, k))
  }

  /** Byte k of Grayed. */
  function GrayedByte(g: Grayscale, src: ImageLayout, s: seq<byte>, dst: ImageLayout, d: seq<byte>, y: int, x: int, k: int): byte
    requires GrayPair(src, dst) && |s| == src.Size() && |d| == dst.Size() && 0 <= k < |d|
  {
    if k % dst.stride < dst.width && (k / dst.stride < y || (k / dst.stride == y && k % dst.stride < x)) then
      DivMod(k, dst.stride);
      RowOfBelow(k, dst.height, dst.stride);
      PixelLuma(g, PixelBytes(src, s, k % dst.stride, k / dst.stride))
    else d[k]
  }

  /** Before the first row nothing is converted. */
  lemma GrayedNothing(g: Grayscale, src: ImageLayout, s: seq<byte>, dst: ImageLayout, d: seq<byte>)
    requires GrayPair(src, dst) && |s| == src.Size() && |d| == dst.Size()
    ensures Grayed(g, src, s, dst, d, 0, 0) == d
  {
    var r := Grayed(g, src, s, dst, d, 0, 0);
    forall k | 0 <= k < |d| ensures r[k] == d[k] {
      RowOfAbove(k, 0, dst.stride);
    }
  }

  /** One more pixel of row y. */
  lemma GrayedStep(g: Grayscale, src: ImageLayout, s: seq<byte>, dst: ImageLayout, d: seq<byte>, y: int, x: int)
    requires GrayPair(src, dst) && |s| == src.Size() && |d| == dst.Size()
    requires dst.InBounds(x, y)
    ensures 0 <= y * dst.stride + x < |d|
    ensures Grayed(g, src, s, dst, d, y, x + 1)
         == Grayed(g, src, s, dst, d, y, x)[y * dst.stride + x := PixelLuma(g, PixelBytes(src, s, x, y))]
  {
    var p := y * dst.stride + x;
    OffsetDecompose(dst, x, y, 0);
    var a := Grayed(g, src, s, dst, d, y, x + 1);
    var b := Grayed(g, src, s, dst, d, y, x)[p := PixelLuma(g, PixelBytes(src, s, x, y))];
    forall k | 0 <= k < |d| ensures a[k] == b[k] {
      if k != p && k / dst.stride == y && k % dst.stride == x {
        DivMod(k, dst.stride);
      }
    }
  }

  /** A finished row is the start of the next one. */
  lemma GrayedRowEnd(g: Grayscale, src: ImageLayout, s: seq<byte>, dst: ImageLayout, d: seq<byte>, y: int)
    requires GrayPair(src, dst) && |s| == src.Size() && |d| == dst.Size()
    ensures Grayed(g, src, s, dst, d, y, dst.width) == Grayed(g, src, s, dst, d, y + 1, 0)
  {
  }

  /** The 8-bit path of Grayscale.ProcessFilter: one destination byte per
      source pixel, both pointers stepping to the next row at its end. */
  method ProcessFilter(g: Grayscale, source: UnmanagedImage, destination: UnmanagedImage)
    requires source.Valid() && destination.Valid() && source.data != destination.data
    requires GrayPair(source.Layout(), destination.Layout())
    modifies destination.data
    ensures destination.data[..] == Grayed(g, source.Layout(), source.data[..], destination.Layout(),
                                           old(destination.data[..]), source.height, 0)
  {
    ghost var d := destination.data[..];
    GrayedNothing(g, source.Layout(), source.data[..], destination.Layout(), d);
    var y := 0;
    while y < source.height
      invariant 0 <= y <= source.height
      invariant destination.data[..] == Grayed(g, source.Layout(), source.data[..], destination.Layout(), d, y, 0)
    {
      GrayRow(g, source, destination, d, y);
      GrayedRowEnd(g, source.Layout(), source.data[..], destination.Layout(), d, y);
      y := y + 1;
    }
  }

  /** The inner loop of ProcessFilter: row y. */
  method GrayRow(g: Grayscale, source: UnmanagedImage, destination: UnmanagedImage, ghost d: seq<byte>, y: int)
    requires source.Valid() && destination.Valid() && source.data != destination.data
    requires GrayPair(source.Layout(), destination.Layout())
    requires |d| == destination.Layout().Size() && 0 <= y < source.height
    requires destination.data[..] == Grayed(g, source.Layout(), source.data[..], destination.Layout(), d, y, 0)
    modifies destination.data
    ensures destination.data[..] == Grayed(g, source.Layout(), source.data[..], destination.Layout(), d, y, source.width)
  {
    var pixelSize := if source.format == Format24bppRgb then 3 else 4;
    assert pixelSize == PixelSize(source.format);
    var x := 0;
    while x < source.width
      invariant 0 <= x <= source.width
      invariant destination.data[..] == Grayed(g, source.Layout(), source.data[..], destination.Layout(), d, y, x)
    {
      GrayedStep(g, source.Layout(), source.data[..], destination.Layout(), d, y, x);
      var v := ReadLuma(g, source, x, y, pixelSize);
      destination.data[y * destination.stride + x] := v;
      x := x + 1;
    }
  }

  /** Reads the three colour bytes of pixel (x, y) and combines them. */
  method ReadLuma(g: Grayscale, source: UnmanagedImage, x: int, y: int, pixelSize: int) returns (v: byte)
    requires source.Valid() && IsEightBitPath(source.format) && source.Layout().InBounds(x, y)
    requires pixelSize == PixelSize(source.format)
    ensures v == PixelLuma(g, PixelBytes(source.Layout(), source.data[..], x, y))
  {
    OffsetDecompose(source.Layout(), x, y, 2);
    var src := y * source.stride + x * pixelSize;
    v := Luma(g, source.data[src + 2], source.data[src + 1], source.data[src]);
  }

  // ---------------------------------------------------------------- properties

  /** Every destination pixel holds the grey value of the source pixel at
      the same place; the row padding keeps its bytes. */
  lemma GrayedPixel(g: Grayscale, src: ImageLayout, s: seq<byte>, dst: ImageLayout, d: seq<byte>, x: int, y: int)
    requires GrayPair(src, dst) && |s| == src.Size() && |d| == dst.Size() && dst.InBounds(x, y)
    ensures PixelBytes(dst, Grayed(g, src, s, dst, d, dst.height, 0), x, y) == [PixelLuma(g, PixelBytes(src, s, x, y))]
  {
    OffsetDecompose(dst, x, y, 0);
  }

  lemma GrayedKeepsPadding(g: Grayscale, src: ImageLayout, s: seq<byte>, dst: ImageLayout, d: seq<byte>, k: int)
    requires GrayPair(src, dst) && |s| == src.Size() && |d| == dst.Size()
    requires 0 <= k < |d| && !IsPixelByte(dst, k)
    ensures Grayed(g, src, s, dst, d, dst.height, 0)[k] == d[k]
  {
  }

  /** With non-negative coefficients summing to at most 1.0 (65536) the
      byte cast never wraps: the grey value is the weighted sum, truncated,
      and lies between the smallest and the largest channel. */
  lemma LumaNoWrap(g: Grayscale, r: byte, gr: byte, b: byte)
    requires 0 <= g.rc && 0 <= g.gc && 0 <= g.bc && g.rc + g.gc + g.bc <= 65536
    ensures Luma(g, r, gr, b) as int == (g.rc * r as int + g.gc * gr as int + g.bc * b as int) / 65536
  {
    var sum := g.rc * r as int + g.gc * gr as int + g.bc * b as int;
    MulLe(r as int, 255, g.rc);
    MulLe(gr as int, 255, g.gc);
    MulLe(b as int, 255, g.bc);
    MulLe(g.rc + g.gc + g.bc, 65536, 255);
    MulLe(0, r as int, g.rc);
    MulLe(0, gr as int, g.gc);
    MulLe(0, b as int, g.bc);
    assert 0 <= sum <= 255 * 65536;
    DivMod(sum, 65536);
  }

  /** BT709's truncated coefficients sum to 65535, one short of 1.0. */
  lemma BT709Sum()
    ensures BT709.rc + BT709.gc + BT709.bc == 65535
  {
  }

  /** Hence BT709 maps a grey pixel of level v to v - 1 (black stays 0):
      white becomes 254, never 255. */
  lemma BT709GreyLevel(v: byte)
    ensures Luma(BT709, v, v, v) as int == if v == 0 then 0 else v as int - 1
  {
    LumaNoWrap(BT709, v, v, v);
    if v > 0 {
      DivModOfOffset(v as int - 1, 65536 - v as int, 65536);
    }
  }

  /** BT709 grey values are monotone in each channel. */
  lemma BT709Monotone(r: byte, gr: byte, b: byte, r': byte, gr': byte, b': byte)
    requires r <= r' && gr <= gr' && b <= b'
    ensures Luma(BT709, r, gr, b) <= Luma(BT709, r', gr', b')
  {
    LumaNoWrap(BT709, r, gr, b);
    LumaNoWrap(BT709, r', gr', b');
    var s := 13926 * r as int + 46884 * gr as int + 4725 * b as int;
    var s' := 13926 * r' as int + 46884 * gr' as int + 4725 * b' as int;
    DivMod(s, 65536);
    DivMod(s', 65536);
  }

  // ---------------------------------------------------------------- entry points

  /** BaseFilter.Apply(source, destination): the destination must have the
      translated format and the source's size. */
  method ApplyTo(g: Grayscale, source: UnmanagedImage, destination: UnmanagedImage) returns (r: Outcome)
    requires source.Valid() && destination.Valid() && source.data != destination.data
    modifies destination.data
    ensures r == if source.format !in GrayscaleFormats then Failure(UnsupportedImageFormat)
                 else if destination.format != GrayscaleFormats[source.format] then Failure(InvalidImageProperties)
                 else if destination.width != source.width || destination.height != source.height
                 then Failure(InvalidImageProperties)
                 else Pass
    ensures r.Failure? || !IsEightBitPath(source.format) ==> destination.data[..] == old(destination.data[..])
    ensures r.Pass? && IsEightBitPath(source.format) ==>
              destination.data[..] == Grayed(g, source.Layout(), source.data[..], destination.Layout(),
                                             old(destination.data[..]), source.height, 0)
  {
    r := CheckSourceFormat(GrayscaleFormats, source.format);
    if r.Failure? {
      return;
    }
    if destination.format != GrayscaleFormats[source.format] {
      return Failure(InvalidImageProperties);
    }
    if destination.width != source.width || destination.height != source.height {
      return Failure(InvalidImageProperties);
    }
    if IsEightBitPath(source.format) {
      ProcessFilter(g, source, destination);
    }
  }

  /** BaseFilter.Apply(image): a new image of the translated format. */
  method Apply(g: Grayscale, image: UnmanagedImage) returns (r: Result<UnmanagedImage>)
    requires image.Valid()
    ensures r.Fail? <==> image.format !in GrayscaleFormats
    ensures r.Fail? ==> r.error == UnsupportedImageFormat
    ensures r.Ok? ==> fresh(r.value) && fresh(r.value.data) && r.value.Valid()
    ensures r.Ok? ==> r.value.width == image.width && r.value.height == image.height
                      && r.value.format == GrayscaleFormats[image.format]
    ensures r.Ok? && IsEightBitPath(image.format) ==> forall x, y :: image.Layout().InBounds(x, y) ==>
              PixelBytes(r.value.Layout(), r.value.data[..], x, y)
              == [PixelLuma(g, PixelBytes(image.Layout(), image.data[..], x, y))]
  {
    var check := CheckSourceFormat(GrayscaleFormats, image.format);
    if check.Failure? {
      return Fail(check.error);
    }
    var created := UnmanagedImage.Create(image.width, image.height, GrayscaleFormats[image.format]);
    var dst := created.value;
    ghost var zeros := dst.data[..];
    var done := ApplyTo(g, image, dst);
    if IsEightBitPath(image.format) {
      forall x, y | image.Layout().InBounds(x, y)
        ensures PixelBytes(dst.Layout(), dst.data[..], x, y) == [PixelLuma(g, PixelBytes(image.Layout(), image.data[..], x, y))]
      {
        GrayedPixel(g, image.Layout(), image.data[..], dst.Layout(), zeros, x, y);
      }
    }
    return Ok(dst);
  }
}
