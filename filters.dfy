/** The point filters of the recogniser that work in place on part of an
    image (BaseInPlacePartialFilter: Threshold and Invert), their format
    tables, and the Apply / ApplyInPlace entry points that check formats and
    sizes before running the pixel loop. */
module Filters {
  import opened Arith
  import opened Imaging
  import opened Spans

  /** BaseXxxFilter.CheckSourceFormat: the source format must be a key of
      the filter's format-translation table. */
  function CheckSourceFormat(translations: map<PixelFormat, PixelFormat>, f: PixelFormat): (r: Outcome)
    ensures r == Pass <==> f in translations
    ensures r != Pass ==> r == Failure(UnsupportedImageFormat)
  {
    if f in translations then Pass else Failure(UnsupportedImageFormat)
  }

  /** A filter derived from BaseInPlacePartialFilter, with its settings. */
  datatype PartialFilter = Threshold(threshold: int) | Invert

  /** `new Threshold()`. */
  const DefaultThreshold := Threshold(128)

  function Translations(filter: PartialFilter): (m: map<PixelFormat, PixelFormat>)
    ensures forall f :: f in m ==> m[f] == f && IsCreatable(f)
  {
    match filter
    case Threshold(_) =>
      map[Format8bppIndexed := Format8bppIndexed, Format16bppGrayScale := Format16bppGrayScale]
    case Invert =>
      map[Format8bppIndexed := Format8bppIndexed, Format24bppRgb := Format24bppRgb,
          Format16bppGrayScale := Format16bppGrayScale, Format48bppRgb := Format48bppRgb]
  }

  function ThresholdByte(t: int): byte -> byte
  {
    b => if b as int >= t then 255 else 0
  }

  function ThresholdWord(t: int): int -> int
  {
    w => if w >= t then 65535 else 0
  }

  function InvertByte(b: byte): byte { 255 - b }

  function InvertWord(w: int): int { 65535 - w }

  /** Invert's pointer step: 1 sample per pixel for grey images, 3 for RGB. */
  function InvertSamples(f: PixelFormat): int
  {
    if f == Format8bppIndexed || f == Format16bppGrayScale then 1 else 3
  }

  /** A rectangle of pixels ProcessFilter may be given: inside the image. */
  predicate FitsIn(rect: Rect, l: ImageLayout)
  {
    0 <= rect.width && 0 <= rect.height && rect.Within(l.Bounds())
  }

  /** The rows and byte columns of a fitting rectangle lie inside the buffer. */
  lemma FitsInBuffer(l: ImageLayout, rect: Rect, ps: int)
    requires l.Valid() && FitsIn(rect, l) && ps == PixelSize(l.format)
    ensures rect.Bottom() * l.stride <= l.Size()
    ensures rect.Right() * ps <= l.width * ps <= l.stride
  {
    MulLe(rect.Bottom(), l.height, l.stride);
    MulLe(rect.Right(), l.width, ps);
  }

  /** The buffer after ProcessFilter(image, rect). */
  function Processed(filter: PartialFilter, l: ImageLayout, s: seq<byte>, rect: Rect): (r: seq<byte>)
    requires l.Valid() && |s| == l.Size() && l.format in Translations(filter) && FitsIn(rect, l)
    ensures |r| == |s|
  {
    FitsInBuffer(l, rect, PixelSize(l.format));
    match filter
    case Threshold(t) =>
      if l.format == Format8bppIndexed then
        BytesMapped(s, l.stride, rect.y, rect.Bottom(), rect.x, rect.Right(), ThresholdByte(t))
      else
        WordsMapped(s, l.stride, rect.y, rect.Bottom(), rect.x, rect.Right(), ThresholdWord(t))
    case Invert =>
      var ps := InvertSamples(l.format);
      if l.format == Format8bppIndexed || l.format == Format24bppRgb then
        BytesMapped(s, l.stride, rect.y, rect.Bottom(), rect.x * ps, rect.x * ps + rect.width * ps, InvertByte)
      else
        WordsMapped(s, l.stride, rect.y, rect.Bottom(), rect.x * ps, rect.x * ps + rect.width * ps, InvertWord)
  }

  /** Threshold.ProcessFilter and Invert.ProcessFilter. */
  method ProcessFilter(filter: PartialFilter, image: UnmanagedImage, rect: Rect)
    requires image.Valid() && image.format in Translations(filter) && FitsIn(rect, image.Layout())
    modifies image.data
    ensures image.data[..] == Processed(filter, image.Layout(), old(image.data[..]), rect)
  {
    var startY := rect.y;
    var stopY := startY + rect.height;
    FitsInBuffer(image.Layout(), rect, PixelSize(image.format));
    match filter
    case Threshold(t) =>
      var startX := rect.x;
      var stopX := startX + rect.width;
      if image.format == Format8bppIndexed {
        MapBytes(image.data, image.stride, startY, stopY, startX, stopX, ThresholdByte(t));
      } else {
        MapWords(image.data, image.stride, startY, stopY, startX, stopX, ThresholdWord(t));
      }
    case Invert =>
      var pixelSize := if image.format == Format8bppIndexed || image.format == Format16bppGrayScale then 1 else 3;
      var startX := rect.x * pixelSize;
      var stopX := startX + rect.width * pixelSize;
      if image.format == Format8bppIndexed || image.format == Format24bppRgb {
        MapBytes(image.data, image.stride, startY, stopY, startX, stopX, InvertByte);
      } else {
        MapWords(image.data, image.stride, startY, stopY, startX, stopX, InvertWord);
      }
  }

  // ---------------------------------------------------------------- what a pixel becomes

  /** What ProcessFilter makes of the bytes of one pixel inside the
      rectangle: Threshold stores 255 / 65535 for samples at or above the
      threshold and 0 below it; Invert complements every byte (for 16-bit
      samples, 65535 - v complements both halves). */
  function PixelMap(filter: PartialFilter, f: PixelFormat, b: seq<byte>): seq<byte>
    requires f in Translations(filter) && |b| == PixelSize(f)
  {
    match filter
    case Threshold(t) =>
      if f == Format8bppIndexed then [ThresholdByte(t)(b[0])]
      else SampleBytes(ThresholdWord(t)(b[0] as int + 256 * b[1] as int))
    case Invert => MapEach(b, InvertByte)
  }

  /** ProcessFilter, pixel by pixel: each pixel inside the rectangle becomes
      PixelMap of itself, every other pixel keeps its bytes. */
  lemma ProcessedPixel(filter: PartialFilter, l: ImageLayout, s: seq<byte>, rect: Rect, x: int, y: int)
    requires l.Valid() && |s| == l.Size() && l.format in Translations(filter) && FitsIn(rect, l)
    requires l.InBounds(x, y)
    ensures PixelBytes(l, Processed(filter, l, s, rect), x, y)
         == if rect.Contains(x, y) then PixelMap(filter, l.format, PixelBytes(l, s, x, y)) else PixelBytes(l, s, x, y)
  {
    FitsInBuffer(l, rect, PixelSize(l.format));
    match filter
    case Threshold(t) =>
      if l.format == Format8bppIndexed {
        BytesMappedPixel(l, s, rect, ThresholdByte(t), rect.x, rect.Right(), x, y);
      } else {
        WordsMappedPixel(l, s, rect, ThresholdWord(t), x, y);
      }
    case Invert =>
      InvertAsBytes(l, s, rect);
      BytesMappedPixel(l, s, rect, InvertByte, rect.x * PixelSize(l.format), rect.Right() * PixelSize(l.format), x, y);
  }

  /** Invert, in every format, complements the bytes of the rectangle's pixels. */
  lemma InvertAsBytes(l: ImageLayout, s: seq<byte>, rect: Rect)
    requires l.Valid() && |s| == l.Size() && l.format in Translations(Invert) && FitsIn(rect, l)
    ensures Processed(Invert, l, s, rect)
         == BytesMapped(s, l.stride, rect.y, rect.Bottom(), rect.x * PixelSize(l.format), rect.Right() * PixelSize(l.format), InvertByte)
  {
    FitsInBuffer(l, rect, PixelSize(l.format));
    var ps := InvertSamples(l.format);
    var x0, x1 := rect.x * ps, rect.x * ps + rect.width * ps;
    if l.format == Format16bppGrayScale || l.format == Format48bppRgb {
      WordsComplementBytes(s, l.stride, rect.y, rect.Bottom(), x0, x1, InvertWord, InvertByte);
      assert 2 * x0 == rect.x * PixelSize(l.format) && 2 * x1 == rect.Right() * PixelSize(l.format);
    }
  }

  /** ProcessFilter never touches the padding at the end of a row. */
  lemma ProcessedKeepsPadding(filter: PartialFilter, l: ImageLayout, s: seq<byte>, rect: Rect, k: int)
    requires l.Valid() && |s| == l.Size() && l.format in Translations(filter) && FitsIn(rect, l)
    requires 0 <= k < |s| && !IsPixelByte(l, k)
    ensures Processed(filter, l, s, rect)[k] == s[k]
  {
    FitsInBuffer(l, rect, PixelSize(l.format));
    match filter
    case Threshold(t) =>
      if l.format == Format8bppIndexed {
        BytesMappedPadding(l, s, rect.y, rect.Bottom(), rect.x, rect.Right(), ThresholdByte(t), k);
      } else {
        WordsMappedPadding(l, s, rect.y, rect.Bottom(), rect.x, rect.Right(), ThresholdWord(t), k);
      }
    case Invert =>
      InvertAsBytes(l, s, rect);
      BytesMappedPadding(l, s, rect.y, rect.Bottom(), rect.x * PixelSize(l.format), rect.Right() * PixelSize(l.format),
                         InvertByte, k);
  }

  /** Thresholding a thresholded rectangle again changes nothing, whatever
      the threshold: every sample is already 0 or the maximum, and the
      maximum passes any threshold that let something through. */
  lemma ThresholdIdempotent(t: int, l: ImageLayout, s: seq<byte>, rect: Rect)
    requires l.Valid() && |s| == l.Size() && l.format in Translations(Threshold(t)) && FitsIn(rect, l)
    ensures Processed(Threshold(t), l, Processed(Threshold(t), l, s, rect), rect) == Processed(Threshold(t), l, s, rect)
  {
    FitsInBuffer(l, rect, PixelSize(l.format));
    if l.format == Format8bppIndexed {
      var f := ThresholdByte(t);
      var once := BytesMapped(s, l.stride, rect.y, rect.Bottom(), rect.x, rect.Right(), f);
      var twice := BytesMapped(once, l.stride, rect.y, rect.Bottom(), rect.x, rect.Right(), f);
      forall k | 0 <= k < |s| ensures twice[k] == once[k] {
        if InSpan(k, l.stride, rect.y, rect.Bottom(), rect.x, rect.Right()) {
          assert f(f(s[k])) == f(s[k]);
        }
      }
    } else {
      WordsMappedTwice(s, l.stride, rect.y, rect.Bottom(), rect.x, rect.Right(), ThresholdWord(t));
    }
  }

  /** Inverting a rectangle twice restores it. */
  lemma InvertInvolution(l: ImageLayout, s: seq<byte>, rect: Rect)
    requires l.Valid() && |s| == l.Size() && l.format in Translations(Invert) && FitsIn(rect, l)
    ensures Processed(Invert, l, Processed(Invert, l, s, rect), rect) == s
  {
    var once := Processed(Invert, l, s, rect);
    InvertAsBytes(l, s, rect);
    InvertAsBytes(l, once, rect);
    var twice := Processed(Invert, l, once, rect);
    var P := PixelSize(l.format);
    forall k | 0 <= k < |s| ensures twice[k] == s[k] {
      if InSpan(k, l.stride, rect.y, rect.Bottom(), rect.x * P, rect.Right() * P) {
        assert once[k] == InvertByte(s[k]);
        assert twice[k] == InvertByte(once[k]);
      }
    }
  }

  // ---------------------------------------------------------------- entry points

  /** A rectangle clipped to the image always fits it. */
  lemma ClipFits(rect: Rect, l: ImageLayout)
    requires l.Valid()
    ensures FitsIn(Intersect(rect, l.Bounds()), l)
  {
  }

  /** BaseInPlacePartialFilter.ApplyInPlace(image): the whole image. */
  method ApplyInPlace(filter: PartialFilter, image: UnmanagedImage) returns (r: Outcome)
    requires image.Valid()
    modifies image.data
    ensures r == CheckSourceFormat(Translations(filter), image.format)
    ensures image.data[..] == if r.Pass? then Processed(filter, image.Layout(), old(image.data[..]), image.Layout().Bounds())
                              else old(image.data[..])
  {
    r := CheckSourceFormat(Translations(filter), image.format);
    if r.Pass? {
      ProcessFilter(filter, image, Rect(0, 0, image.width, image.height));
    }
  }

  /** BaseInPlacePartialFilter.ApplyInPlace(image, rect): the rectangle is
      clipped to the image, and nothing is done when the clip has neither
      width nor height. */
  method ApplyInPlaceRect(filter: PartialFilter, image: UnmanagedImage, rect: Rect) returns (r: Outcome)
    requires image.Valid()
    modifies image.data
    ensures r == CheckSourceFormat(Translations(filter), image.format)
    ensures var clip := Intersect(rect, image.Layout().Bounds());
            image.data[..] == if r.Pass? && (clip.width != 0 || clip.height != 0)
                              then Processed(filter, image.Layout(), old(image.data[..]), clip)
                              else old(image.data[..])
  {
    r := CheckSourceFormat(Translations(filter), image.format);
    if r.Failure? {
      return;
    }
    var clip := Intersect(rect, Rect(0, 0, image.width, image.height));
    ClipFits(rect, image.Layout());
    if clip.width != 0 || clip.height != 0 {
      ProcessFilter(filter, image, clip);
    }
  }

  /** BaseInPlacePartialFilter.Apply(source, destination): the destination
      must have the source's format and size; the source's rows are copied
      into it (min of the two strides per row) and the filter runs there. */
  method ApplyTo(filter: PartialFilter, src: UnmanagedImage, dst: UnmanagedImage) returns (r: Outcome)
    requires src.Valid() && dst.Valid() && src.data != dst.data
    modifies dst.data
    ensures r == if src.format !in Translations(filter) then Failure(UnsupportedImageFormat)
                 else if dst.format != src.format then Failure(InvalidImageProperties)
                 else if dst.width != src.width || dst.height != src.height then Failure(InvalidImageProperties)
                 else Pass
    ensures r.Failure? ==> dst.data[..] == old(dst.data[..])
    ensures r.Pass? ==> dst.data[..] == Processed(filter, dst.Layout(),
                          RowsCopied(old(dst.data[..]), src.data[..], src.stride, dst.stride, src.height),
                          dst.Layout().Bounds())
  {
    r := CheckSourceFormat(Translations(filter), src.format);
    if r.Failure? {
      return;
    }
    if dst.format != src.format {
      return Failure(InvalidImageProperties);
    }
    if dst.width != src.width || dst.height != src.height {
      return Failure(InvalidImageProperties);
    }
    var lineSize := if src.stride < dst.stride then src.stride else dst.stride;
    CopyBlock(dst.data, src.data, src.stride, dst.stride, 0, 0, 0, 0, src.height, lineSize);
    ProcessFilter(filter, dst, Rect(0, 0, dst.width, dst.height));
  }

  /** (l, s) is what the filter makes of the image (sl, ss): the same size
      and format, every pixel PixelMap of the source pixel. */
  ghost predicate Mapped(filter: PartialFilter, l: ImageLayout, s: seq<byte>, sl: ImageLayout, ss: seq<byte>)
    requires sl.Valid() && |ss| == sl.Size() && sl.format in Translations(filter)
  {
    l.Valid() && |s| == l.Size() && l.width == sl.width && l.height == sl.height && l.format == sl.format
    && forall x, y {:trigger PixelBytes(l, s, x, y)} :: sl.InBounds(x, y) ==>
         PixelBytes(l, s, x, y) == PixelMap(filter, sl.format, PixelBytes(sl, ss, x, y))
  }

  /** BaseInPlacePartialFilter.Apply(image): a new image of the same size and
      format, filled by ApplyTo. */
  method Apply(filter: PartialFilter, image: UnmanagedImage) returns (r: Result<UnmanagedImage>)
    requires image.Valid()
    ensures r.Fail? <==> image.format !in Translations(filter)
    ensures r.Fail? ==> r.error == UnsupportedImageFormat
    ensures r.Ok? ==> fresh(r.value) && fresh(r.value.data) && r.value.Valid()
    ensures r.Ok? ==> Mapped(filter, r.value.Layout(), r.value.data[..], image.Layout(), image.data[..])
  {
    var check := CheckSourceFormat(Translations(filter), image.format);
    if check.Failure? {
      return Fail(check.error);
    }
    var created := UnmanagedImage.Create(image.width, image.height, image.format);
    var dst := created.value;
    ghost var zeros := dst.data[..];
    var done := ApplyTo(filter, image, dst);
    forall x, y | image.Layout().InBounds(x, y)
      ensures PixelBytes(dst.Layout(), dst.data[..], x, y)
              == PixelMap(filter, image.format, PixelBytes(image.Layout(), image.data[..], x, y))
    {
      ApplyAgreesWithInPlace(filter, image.Layout(), dst.Layout(), image.data[..], zeros, x, y);
    }
    return Ok(dst);
  }

  /** Filtering a copy is filtering the original: every pixel of the
      destination of Apply(source, destination) is PixelMap of the same
      source pixel, whatever the two strides. */
  lemma ApplyAgreesWithInPlace(filter: PartialFilter, src: ImageLayout, dst: ImageLayout, s: seq<byte>, d: seq<byte>,
                               x: int, y: int)
    requires src.Valid() && dst.Valid() && |s| == src.Size() && |d| == dst.Size()
    requires src.width == dst.width && src.height == dst.height && src.format == dst.format
    requires src.format in Translations(filter) && src.InBounds(x, y)
    ensures PixelBytes(dst, Processed(filter, dst, RowsCopied(d, s, src.stride, dst.stride, src.height), dst.Bounds()), x, y)
         == PixelMap(filter, src.format, PixelBytes(src, s, x, y))
  {
    var copied := RowsCopied(d, s, src.stride, dst.stride, src.height);
    ProcessedPixel(filter, dst, copied, dst.Bounds(), x, y);
    CopyKeepsPixelBytes(src, dst, s, d, x, y);
  }
}
