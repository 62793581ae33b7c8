// BlobsFiltering (AForgeCore.cs): an in-place filter that runs its own
// BlobCounter over the image, with filtering switched on, and then blacks out
// every pixel whose final label is 0 (background, or a blob the limits
// removed): the grey byte of an 8bpp image, the red, green and blue bytes of
// a colour one; the alpha byte is kept.

module BlobsFilteringFilter {
  import opened Arith
  import opened Imaging
  import opened Labelling
  import opened Components
  import opened BlobInfo
  import opened BlobFilter
  import opened BlobExtract
  import opened BlobCounting
  import BlobSort
  import Filters

  /** The filter's format translations: each accepted format maps to itself. */
  const ErasableFormats: map<PixelFormat, PixelFormat> :=
    map[Format8bppIndexed := Format8bppIndexed, Format24bppRgb := Format24bppRgb,
        Format32bppArgb := Format32bppArgb, Format32bppPArgb := Format32bppPArgb]

  /** The accepted formats can all be counted. */
  lemma ErasableCountable(f: PixelFormat)
    requires f in ErasableFormats
    ensures IsCountable(f)
  {
  }

  /** What is stored over a pixel of label 0: a zero grey byte, or zero red,
      green and blue bytes (byte offsets 2, 1, 0) with the alpha byte kept. */
  function Blank(f: PixelFormat): (p: seq<Option<byte>>)
    requires f in ErasableFormats
    ensures |p| == PixelSize(f)
  {
    if f == Format8bppIndexed then [Some(0)]
    else if f == Format24bppRgb then [Some(0), Some(0), Some(0)]
    else [Some(0), Some(0), Some(0), None]
  }

  /** A buffer of layout l with its object map F. */
  predicate Erasable(l: ImageLayout, s: seq<byte>, F: seq<int>)
  {
    l.Valid() && |s| == l.Size() && |F| == l.width * l.height && l.format in ErasableFormats
  }

  /** The inner step: pixel (x, y) is blanked when its label is 0. */
  function ErasePixel(l: ImageLayout, s: seq<byte>, F: seq<int>, x: int, y: int): (r: seq<byte>)
    requires Erasable(l, s, F) && l.InBounds(x, y)
    ensures |r| == |s|
  {
    if F[Cell(l, x, y)] == 0 then Paint(l, s, x, y, Blank(l.format)) else s
  }

  /** The first n pixels of row y, left to right. */
  function EraseRow(l: ImageLayout, s: seq<byte>, F: seq<int>, y: int, n: int): (r: seq<byte>)
    requires Erasable(l, s, F) && 0 <= y < l.height && 0 <= n <= l.width
    ensures |r| == |s|
    decreases n
  {
    if n == 0 then s else ErasePixel(l, EraseRow(l, s, F, y, n - 1), F, n - 1, y)
  }

  /** The first `rows` rows, top to bottom. */
  function EraseRows(l: ImageLayout, s: seq<byte>, F: seq<int>, rows: int): (r: seq<byte>)
    requires Erasable(l, s, F) && 0 <= rows <= l.height
    ensures |r| == |s|
    decreases rows
  {
    if rows == 0 then s else EraseRow(l, EraseRows(l, s, F, rows - 1), F, rows - 1, l.width)
  }

  /** The buffer after BlobsFiltering.ProcessFilter's scan over object map F. */
  function Erased(l: ImageLayout, s: seq<byte>, F: seq<int>): (r: seq<byte>)
    requires Erasable(l, s, F)
    ensures |r| == |s|
  {
    EraseRows(l, s, F, l.height)
  }

  // ------------------------------------------------------------ what the scan leaves

  /** The pixel a step visits is blanked when its label is 0; every other
      pixel is unchanged. */
  lemma ErasePixelStep(l: ImageLayout, s: seq<byte>, F: seq<int>, x: int, y: int, x': int, y': int)
    requires Erasable(l, s, F) && l.InBounds(x, y) && l.InBounds(x', y')
    ensures PixelBytes(l, ErasePixel(l, s, F, x, y), x', y')
            == if x == x' && y == y' && F[Cell(l, x, y)] == 0 then Overlay(Blank(l.format), PixelBytes(l, s, x, y))
               else PixelBytes(l, s, x', y')
  {
    if F[Cell(l, x, y)] == 0 {
      PaintedPixelBytes(l, s, x, y, Blank(l.format), x', y');
    }
  }

  /** After the first n pixels of row y, exactly those of them with label 0
      are blanked, each once. */
  lemma {:induction false} EraseRowPixel(l: ImageLayout, s: seq<byte>, F: seq<int>, y: int, n: int, x': int, y': int)
    requires Erasable(l, s, F) && 0 <= y < l.height && 0 <= n <= l.width && l.InBounds(x', y')
    ensures PixelBytes(l, EraseRow(l, s, F, y, n), x', y')
            == if y' == y && x' < n && F[Cell(l, x', y')] == 0 then Overlay(Blank(l.format), PixelBytes(l, s, x', y'))
               else PixelBytes(l, s, x', y')
    decreases n
  {
    if n > 0 {
      var before := EraseRow(l, s, F, y, n - 1);
      assert EraseRow(l, s, F, y, n) == ErasePixel(l, before, F, n - 1, y);
      EraseRowPixel(l, s, F, y, n - 1, x', y');
      ErasePixelStep(l, before, F, n - 1, y, x', y');
    }
  }

  /** After the first `rows` rows, exactly their pixels with label 0 are
      blanked. */
  lemma {:induction false} EraseRowsPixel(l: ImageLayout, s: seq<byte>, F: seq<int>, rows: int, x': int, y': int)
    requires Erasable(l, s, F) && 0 <= rows <= l.height && l.InBounds(x', y')
    ensures PixelBytes(l, EraseRows(l, s, F, rows), x', y')
            == if y' < rows && F[Cell(l, x', y')] == 0 then Overlay(Blank(l.format), PixelBytes(l, s, x', y'))
               else PixelBytes(l, s, x', y')
    decreases rows
  {
    if rows > 0 {
      EraseRowsPixel(l, s, F, rows - 1, x', y');
      EraseRowsStep(l, s, F, rows, x', y');
    }
  }

  lemma EraseRowsStep(l: ImageLayout, s: seq<byte>, F: seq<int>, rows: int, x': int, y': int)
    requires Erasable(l, s, F) && 0 < rows <= l.height && l.InBounds(x', y')
    requires PixelBytes(l, EraseRows(l, s, F, rows - 1), x', y')
            == if y' < rows - 1 && F[Cell(l, x', y')] == 0 then Overlay(Blank(l.format), PixelBytes(l, s, x', y'))
               else PixelBytes(l, s, x', y')
    ensures PixelBytes(l, EraseRows(l, s, F, rows), x', y')
            == if y' < rows && F[Cell(l, x', y')] == 0 then Overlay(Blank(l.format), PixelBytes(l, s, x', y'))
               else PixelBytes(l, s, x', y')
  {
    EraseRowPixel(l, EraseRows(l, s, F, rows - 1), F, rows - 1, l.width, x', y');
  }

  /** BlobsFiltering blanks exactly the pixels of label 0 and leaves every
      other pixel as it was. */
  lemma ErasedPixel(l: ImageLayout, s: seq<byte>, F: seq<int>, x: int, y: int)
    requires Erasable(l, s, F) && l.InBounds(x, y)
    ensures PixelBytes(l, Erased(l, s, F), x, y)
            == if F[Cell(l, x, y)] == 0 then Overlay(Blank(l.format), PixelBytes(l, s, x, y)) else PixelBytes(l, s, x, y)
  {
    EraseRowsPixel(l, s, F, l.height, x, y);
  }

  lemma {:induction false} EraseRowPadding(l: ImageLayout, s: seq<byte>, F: seq<int>, y: int, n: int, k: int)
    requires Erasable(l, s, F) && 0 <= y < l.height && 0 <= n <= l.width && 0 <= k < |s| && !IsPixelByte(l, k)
    ensures EraseRow(l, s, F, y, n)[k] == s[k]
    decreases n
  {
    if n > 0 {
      EraseRowPadding(l, s, F, y, n - 1, k);
      var before := EraseRow(l, s, F, y, n - 1);
      if F[Cell(l, n - 1, y)] == 0 {
        PaintKeepsPadding(l, before, n - 1, y, Blank(l.format), k);
      }
    }
  }

  lemma {:induction false} EraseRowsPadding(l: ImageLayout, s: seq<byte>, F: seq<int>, rows: int, k: int)
    requires Erasable(l, s, F) && 0 <= rows <= l.height && 0 <= k < |s| && !IsPixelByte(l, k)
    ensures EraseRows(l, s, F, rows)[k] == s[k]
    decreases rows
  {
    if rows > 0 {
      EraseRowsPadding(l, s, F, rows - 1, k);
      EraseRowPadding(l, EraseRows(l, s, F, rows - 1), F, rows - 1, l.width, k);
    }
  }

  /** The row padding is never written. */
  lemma ErasedPadding(l: ImageLayout, s: seq<byte>, F: seq<int>, k: int)
    requires Erasable(l, s, F) && 0 <= k < |s| && !IsPixelByte(l, k)
    ensures Erased(l, s, F)[k] == s[k]
  {
    EraseRowsPadding(l, s, F, l.height, k);
  }

  /** Over the filtered object map, a pixel is blanked exactly when it was
      background or its blob failed the criterion. */
  lemma ErasedRemoved(l: ImageLayout, s: seq<byte>, c: Criterion, blobs: seq<Blob>, F: seq<int>, x: int, y: int)
    requires forall q :: 0 <= q < |F| ==> 0 <= F[q] <= |blobs|
    requires Erasable(l, s, F) && l.InBounds(x, y)
    ensures 0 <= F[Cell(l, x, y)] <= |blobs|
    ensures PixelBytes(l, Erased(l, s, Filtered(c, blobs, F)), x, y)
            == if F[Cell(l, x, y)] == 0 || Removed(c, blobs[F[Cell(l, x, y)] - 1])
               then Overlay(Blank(l.format), PixelBytes(l, s, x, y)) else PixelBytes(l, s, x, y)
  {
    ErasedPixel(l, s, Filtered(c, blobs, F), x, y);
    FilteredPixels(c, blobs, F, Cell(l, x, y));
  }

  /** With the limits PreProcess uses (1 x 1 up to the image size,
      decoupled) the filtering step keeps every blob of an object map, so
      the map is unchanged. */
  lemma ImageSizedFilteringKeepsMap(blobs: seq<Blob>, F: seq<int>, w: int, h: int)
    requires w > 0 && |F| == w * h && Describe(blobs, F, w, h) && Inside(blobs, w, h)
    requires forall q :: 0 <= q < |F| ==> 0 <= F[q] <= |blobs|
    requires forall k :: 1 <= k <= |blobs| ==> Used(F, k)
    ensures Filtered(BySize(SizeLimits(false, 1, 1, w, h)), blobs, F) == F
  {
    forall b | b in blobs
      ensures !Removed(BySize(SizeLimits(false, 1, 1, w, h)), b)
    {
      var k :| 0 <= k < |blobs| && blobs[k] == b;
      assert Used(F, k + 1);
      var q :| 0 <= q < |F| && F[q] == k + 1;
      assert q in Pixels(F, k + 1, |F|);
      BlobIsBoundingBox(F, w, h, k + 1);
    }
    NothingRemovedKeepsMap(BySize(SizeLimits(false, 1, 1, w, h)), blobs, F);
  }

  /** Against the default black background, a pixel of an 8bpp image that
      the object map leaves unlabelled is already 0: blanking it changes
      nothing. */
  lemma BackgroundIsBlank(l: ImageLayout, s: seq<byte>, F: seq<int>, count: int, x: int, y: int)
    requires l.Valid() && |s| == l.Size() && l.format == Format8bppIndexed && l.InBounds(x, y)
    requires ObjectMap(l.width, Mask(l, s, Color(255, 0, 0, 0)), FirstForeground(l, s, Color(255, 0, 0, 0)), F, count)
    ensures |F| == l.width * l.height
    ensures F[Cell(l, x, y)] == 0 ==> Overlay(Blank(l.format), PixelBytes(l, s, x, y)) == PixelBytes(l, s, x, y)
  {
    var q := Cell(l, x, y);
    DivModOfOffset(y, x, l.width);
    assert 0 % l.width == 0 && 0 / l.width == 0;
  }

  // ------------------------------------------------------------ the scan

  /** The scan of ProcessFilter: p walks the object map (y * width + x) and
      every pixel of label 0 is blanked. */
  method EraseInto(image: UnmanagedImage, labels: array<int>)
    requires image.Valid() && image.format in ErasableFormats && labels.Length == image.width * image.height
    modifies image.data
    ensures image.data[..] == Erased(image.Layout(), old(image.data[..]), labels[..])
  {
    ghost var l, s, F := image.Layout(), image.data[..], labels[..];
    var p := 0;
    var y := 0;
    while y < image.height
      invariant 0 <= y <= image.height && p == y * image.width
      invariant image.data[..] == EraseRows(l, s, F, y)
    {
      p := EraseRowInto(image, labels, y, p);
      y := y + 1;
    }
  }

  method EraseRowInto(image: UnmanagedImage, labels: array<int>, y: int, p0: int) returns (p: int)
    requires image.Valid() && image.format in ErasableFormats && labels.Length == image.width * image.height
    requires 0 <= y < image.height && p0 == y * image.width
    modifies image.data
    ensures p == p0 + image.width
    ensures image.data[..] == EraseRow(image.Layout(), old(image.data[..]), labels[..], y, image.width)
  {
    ghost var l, s, F := image.Layout(), image.data[..], labels[..];
    p := p0;
    var x := 0;
    while x < image.width
      invariant 0 <= x <= image.width && p == y * image.width + x
      invariant image.data[..] == EraseRow(l, s, F, y, x)
    {
      assert p == Cell(l, x, y);
      if labels[p] == 0 {
        image.WritePixel(x, y, Blank(image.format));
      }
      p := p + 1;
      x := x + 1;
    }
  }

  // ------------------------------------------------------------ the filter object

  class BlobsFiltering {
    const counter: BlobCounter

    /** The counter filters its blobs. */
    ghost predicate Valid()
      reads this, counter, counter.objectLabels
    {
      counter.Valid() && counter.filterBlobs
    }

    /** BlobsFiltering(minWidth, minHeight, maxWidth, maxHeight,
        coupledSizeFiltering): a fresh counter with filtering on and these
        limits. BlobsFiltering() is this with 1, 1, int.MaxValue,
        int.MaxValue, false, and the four-argument form this with false. */
    constructor BySize(minWidth: int, minHeight: int, maxWidth: int, maxHeight: int, coupled: bool)
      ensures Valid() && fresh(counter) && counter.objectLabels == null
      ensures counter.limits == SizeLimits(coupled, minWidth, minHeight, maxWidth, maxHeight) && counter.filter == None
      ensures counter.objectsOrder == BlobSort.None && counter.backgroundThreshold == Color(255, 0, 0, 0)
    {
      var c := new BlobCounter();
      c.filterBlobs := true;
      c.limits := SizeLimits(coupled, minWidth, minHeight, maxWidth, maxHeight);
      counter := c;
    }

    /** BlobsFiltering(IBlobsFilter): the default limits, with the filter's
        Check deciding the removals. */
    constructor ByFilter(check: Blob -> bool)
      ensures Valid() && fresh(counter) && counter.objectLabels == null
      ensures counter.limits == DefaultLimits && counter.filter == Some(check)
      ensures counter.objectsOrder == BlobSort.None && counter.backgroundThreshold == Color(255, 0, 0, 0)
    {
      var c := new BlobCounter();
      c.filterBlobs := true;
      c.filter := Some(check);
      counter := c;
    }

    /** ProcessFilter: the counter processes the image (which fails, leaving
        the image alone, for one-pixel-wide images), then the pixels of label
        0 in the filtered map are blanked. The ghost results are the
        unfiltered map and its blob list. */
    method ProcessFilter(image: UnmanagedImage) returns (r: Outcome, ghost F0: seq<int>, ghost collected: seq<Blob>)
      requires Valid() && image.Valid() && image.format in ErasableFormats
      modifies counter, image.data
      ensures Valid()
      ensures counter.limits == old(counter.limits) && counter.filter == old(counter.filter)
      ensures counter.backgroundThreshold == old(counter.backgroundThreshold)
      ensures r == if image.width == 1 then Failure(InvalidImageProperties) else Pass
      ensures r.Failure? ==> image.data[..] == old(image.data[..])
      ensures r.Pass? ==>
        var l := image.Layout();
        var t := counter.backgroundThreshold;
        counter.objectLabels != null && counter.objectLabels.Length == l.width * l.height
        && ObjectMap(l.width, Mask(l, old(image.data[..]), t), FirstForeground(l, old(image.data[..]), t), F0, |collected|)
        && Describe(collected, F0, l.width, l.height) && Inside(collected, l.width, l.height)
        && counter.objectLabels[..] == Filtered(CriterionOf(counter.limits, counter.filter), collected, F0)
        && image.data[..] == Erased(l, old(image.data[..]), counter.objectLabels[..])
    {
      ErasableCountable(image.format);
      ghost var listed;
      r, F0, collected, listed := counter.ProcessImage(image);
      if r.Failure? {
        return;
      }
      DescribedInside(collected, F0, image.width, image.height);
      EraseInto(image, counter.objectLabels);
    }

    /** BaseInPlaceFilter.ApplyInPlace(image): the format check, then
        ProcessFilter. */
    method ApplyInPlace(image: UnmanagedImage) returns (r: Outcome, ghost F0: seq<int>, ghost collected: seq<Blob>)
      requires Valid() && image.Valid()
      modifies counter, image.data
      ensures Valid()
      ensures counter.limits == old(counter.limits) && counter.filter == old(counter.filter)
      ensures counter.backgroundThreshold == old(counter.backgroundThreshold)
      ensures r == if image.format !in ErasableFormats then Failure(UnsupportedImageFormat)
                   else if image.width == 1 then Failure(InvalidImageProperties)
                   else Pass
      ensures r.Failure? ==> image.data[..] == old(image.data[..])
      ensures r.Pass? ==>
        var l := image.Layout();
        var t := counter.backgroundThreshold;
        counter.objectLabels != null && counter.objectLabels.Length == l.width * l.height
        && ObjectMap(l.width, Mask(l, old(image.data[..]), t), FirstForeground(l, old(image.data[..]), t), F0, |collected|)
        && Describe(collected, F0, l.width, l.height) && Inside(collected, l.width, l.height)
        && counter.objectLabels[..] == Filtered(CriterionOf(counter.limits, counter.filter), collected, F0)
        && image.data[..] == Erased(l, old(image.data[..]), counter.objectLabels[..])
    {
      F0, collected := [], [];
      r := Filters.CheckSourceFormat(ErasableFormats, image.format);
      if r.Pass? {
        r, F0, collected := ProcessFilter(image);
      }
    }

    /** BaseInPlaceFilter.Apply(source, destination): the checks, the row
        copy (min(srcStride, dstStride) bytes each), then ProcessFilter on the
        destination; a one-pixel-wide image leaves the destination holding
        the copy. */
    method ApplyTo(source: UnmanagedImage, destination: UnmanagedImage)
      returns (r: Outcome, ghost F0: seq<int>, ghost collected: seq<Blob>)
      requires Valid() && source.Valid() && destination.Valid() && source.data != destination.data
      modifies counter, destination.data
      ensures Valid()
      ensures counter.limits == old(counter.limits) && counter.filter == old(counter.filter)
      ensures counter.backgroundThreshold == old(counter.backgroundThreshold)
      ensures r == if source.format !in ErasableFormats then Failure(UnsupportedImageFormat)
                   else if destination.format != source.format then Failure(InvalidImageProperties)
                   else if destination.width != source.width || destination.height != source.height
                   then Failure(InvalidImageProperties)
                   else if source.width == 1 then Failure(InvalidImageProperties)
                   else Pass
      ensures r.Failure? && source.width != 1 ==> destination.data[..] == old(destination.data[..])
      ensures r.Pass? ==>
        var l := destination.Layout();
        var t := counter.backgroundThreshold;
        var copied := RowsCopied(old(destination.data[..]), source.data[..], source.stride, destination.stride, source.height);
        counter.objectLabels != null && counter.objectLabels.Length == l.width * l.height
        && ObjectMap(l.width, Mask(source.Layout(), source.data[..], t), FirstForeground(source.Layout(), source.data[..], t),
                     F0, |collected|)
        && Describe(collected, F0, l.width, l.height) && Inside(collected, l.width, l.height)
        && counter.objectLabels[..] == Filtered(CriterionOf(counter.limits, counter.filter), collected, F0)
        && destination.data[..] == Erased(l, copied, counter.objectLabels[..])
    {
      F0, collected := [], [];
      r := Filters.CheckSourceFormat(ErasableFormats, source.format);
      if r.Failure? {
        return;
      }
      if destination.format != source.format {
        r := Failure(InvalidImageProperties);
        return;
      }
      if destination.width != source.width || destination.height != source.height {
        r := Failure(InvalidImageProperties);
        return;
      }
      CopyRows(destination.data, source.data, source.stride, destination.stride, source.height);
      ErasableCountable(source.format);
      CopyKeepsMask(source.Layout(), destination.Layout(), source.data[..], old(destination.data[..]),
                    counter.backgroundThreshold);
      r, F0, collected := ProcessFilter(destination);
    }

    /** BaseInPlaceFilter.Apply(image): a new image of the same size and
        format, filled by ApplyTo; every pixel of label 0 is blanked and every
        other pixel is the source's. */
    method Apply(image: UnmanagedImage) returns (r: Result<UnmanagedImage>, ghost F: seq<int>,
                                                 ghost F0: seq<int>, ghost collected: seq<Blob>)
      requires Valid() && image.Valid()
      modifies counter
      ensures Valid()
      ensures counter.limits == old(counter.limits) && counter.filter == old(counter.filter)
      ensures counter.backgroundThreshold == old(counter.backgroundThreshold)
      ensures r.Fail? <==> image.format !in ErasableFormats || image.width == 1
      ensures r.Fail? ==> r.error == if image.format !in ErasableFormats then UnsupportedImageFormat
                                     else InvalidImageProperties
      ensures r.Ok? ==> fresh(r.value) && fresh(r.value.data) && r.value.Valid()
      ensures r.Ok? ==> r.value.width == image.width && r.value.height == image.height && r.value.format == image.format
      ensures r.Ok? ==>
        var l := image.Layout();
        var t := counter.backgroundThreshold;
        Erasable(l, image.data[..], F)
        && ObjectMap(l.width, Mask(l, image.data[..], t), FirstForeground(l, image.data[..], t), F0, |collected|)
        && Describe(collected, F0, l.width, l.height) && Inside(collected, l.width, l.height)
        && F == Filtered(CriterionOf(counter.limits, counter.filter), collected, F0)
        && forall x, y :: l.InBounds(x, y) ==>
             PixelBytes(r.value.Layout(), r.value.data[..], x, y)
             == if F[Cell(l, x, y)] == 0 then Overlay(Blank(l.format), PixelBytes(l, image.data[..], x, y))
                else PixelBytes(l, image.data[..], x, y)
    {
      F, F0, collected := [], [], [];
      var check := Filters.CheckSourceFormat(ErasableFormats, image.format);
      if check.Failure? {
        return Fail(check.error), F, F0, collected;
      }
      var created := UnmanagedImage.Create(image.width, image.height, image.format);
      var dst := created.value;
      ghost var zeros := dst.data[..];
      var done;
      done, F0, collected := ApplyTo(image, dst);
      if done.Failure? {
        return Fail(done.error), F, F0, collected;
      }
      F := counter.objectLabels[..];
      CopiedThenErasedAll(image.Layout(), image.data[..], dst.Layout(), zeros, F);
      return Ok(dst), F, F0, collected;
    }
  }

  /** A row copy followed by the scan shows the source's pixels, blanked where
      the label is 0. */
  lemma CopiedThenErasedAll(src: ImageLayout, s: seq<byte>, dst: ImageLayout, d: seq<byte>, F: seq<int>)
    requires Erasable(src, s, F) && dst.Valid() && |d| == dst.Size()
    requires src.width == dst.width && src.height == dst.height && src.format == dst.format
    ensures |RowsCopied(d, s, src.stride, dst.stride, src.height)| == dst.Size()
    ensures forall x, y :: src.InBounds(x, y) ==>
              PixelBytes(dst, Erased(dst, RowsCopied(d, s, src.stride, dst.stride, src.height), F), x, y)
              == if F[Cell(src, x, y)] == 0 then Overlay(Blank(src.format), PixelBytes(src, s, x, y))
                 else PixelBytes(src, s, x, y)
  {
    var copied := RowsCopied(d, s, src.stride, dst.stride, src.height);
    CopyKeepsPixelBytes(src, dst, s, d, 0, 0);
    forall x, y | src.InBounds(x, y)
      ensures PixelBytes(dst, Erased(dst, copied, F), x, y)
              == if F[Cell(src, x, y)] == 0 then Overlay(Blank(src.format), PixelBytes(src, s, x, y))
                 else PixelBytes(src, s, x, y)
    {
      ErasedPixel(dst, copied, F, x, y);
      CopyKeepsPixelBytes(src, dst, s, d, x, y);
    }
  }

  /** A row copy keeps the foreground mask: it depends on pixel bytes only. */
  lemma CopyKeepsMask(src: ImageLayout, dst: ImageLayout, s: seq<byte>, d: seq<byte>, t: Color)
    requires src.Valid() && dst.Valid() && |s| == src.Size() && |d| == dst.Size() && IsCountable(src.format)
    requires src.width == dst.width && src.height == dst.height && src.format == dst.format
    ensures |RowsCopied(d, s, src.stride, dst.stride, src.height)| == dst.Size()
    ensures Mask(dst, RowsCopied(d, s, src.stride, dst.stride, src.height), t) == Mask(src, s, t)
    ensures FirstForeground(dst, RowsCopied(d, s, src.stride, dst.stride, src.height), t) == FirstForeground(src, s, t)
  {
    var copied := RowsCopied(d, s, src.stride, dst.stride, src.height);
    CopyKeepsPixelBytes(src, dst, s, d, 0, 0);
    var a, b := Mask(dst, copied, t), Mask(src, s, t);
    forall q | 0 <= q < |a|
      ensures a[q] == b[q]
    {
      CopyKeepsPixelBytes(src, dst, s, d, q % src.width, q / src.width);
    }
  }
}
