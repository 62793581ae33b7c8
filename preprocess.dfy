// Main.PreProcess (Main.cs): the filter chain every CAPTCHA image goes
// through before it is cut into glyphs: BT709 greyscale, Threshold(50), and
// BlobsFiltering with limits 1 x 1 up to the image size.

module Preprocess {
  import opened Imaging
  import opened Components
  import opened BlobInfo
  import opened BlobFilter
  import opened BlobExtract
  import opened BlobCounting
  import opened BlobsFilteringFilter
  import Filters
  import GrayscaleFilter

  /** What PreProcess makes of one pixel: its BT709 grey level, thresholded
      at 50. */
  function Binarised(b: seq<byte>): byte
    requires |b| >= 3
  {
    Filters.ThresholdByte(50)(GrayscaleFilter.PixelLuma(GrayscaleFilter.BT709, b))
  }

  /** PreProcess's BlobsFiltering keeps every pixel of a thresholded image:
      the pixels it blanks are background, already 0. */
  lemma SizedFilteringKeepsPixel(l: ImageLayout, s: seq<byte>, F: seq<int>, F0: seq<int>, collected: seq<Blob>,
                                 x: int, y: int)
    requires l.Valid() && |s| == l.Size() && l.format == Format8bppIndexed && l.InBounds(x, y)
    requires ObjectMap(l.width, Mask(l, s, Color(255, 0, 0, 0)), FirstForeground(l, s, Color(255, 0, 0, 0)), F0, |collected|)
    requires Describe(collected, F0, l.width, l.height) && Inside(collected, l.width, l.height)
    requires F == Filtered(BySize(SizeLimits(false, 1, 1, l.width, l.height)), collected, F0)
    requires Erasable(l, s, F)
    ensures (if F[Cell(l, x, y)] == 0 then Overlay(Blank(l.format), PixelBytes(l, s, x, y)) else PixelBytes(l, s, x, y))
            == PixelBytes(l, s, x, y)
  {
    ImageSizedFilteringKeepsMap(collected, F0, l.width, l.height);
    BackgroundIsBlank(l, s, F0, |collected|, x, y);
  }

  /** PreProcess on the 24bpp copy of the loaded bitmap: fails only for a
      one-pixel-wide image (BlobsFiltering's counter refuses it); otherwise
      an 8bpp image of the same size holding, per pixel, the thresholded
      BT709 grey level. */
  method PreProcess(image: UnmanagedImage) returns (r: Result<UnmanagedImage>)
    requires image.Valid() && image.format == Format24bppRgb
    ensures r.Fail? <==> image.width == 1
    ensures r.Fail? ==> r.error == InvalidImageProperties
    ensures r.Ok? ==> fresh(r.value.data) && r.value.Valid() && r.value.format == Format8bppIndexed
                      && r.value.width == image.width && r.value.height == image.height
    ensures r.Ok? ==> forall x, y :: image.Layout().InBounds(x, y) ==>
              PixelBytes(r.value.Layout(), r.value.data[..], x, y) == [Binarised(PixelBytes(image.Layout(), image.data[..], x, y))]
  {
    var t := Binarise(image);
    r := RemoveNoBlobs(t);
  }

  /** Grayscale(0.2125, 0.7154, 0.0721).Apply, then Threshold(50).Apply. */
  method Binarise(image: UnmanagedImage) returns (t: UnmanagedImage)
    requires image.Valid() && image.format == Format24bppRgb
    ensures fresh(t.data) && t.Valid() && t.format == Format8bppIndexed
    ensures t.width == image.width && t.height == image.height
    ensures forall x, y :: image.Layout().InBounds(x, y) ==>
              PixelBytes(t.Layout(), t.data[..], x, y) == [Binarised(PixelBytes(image.Layout(), image.data[..], x, y))]
  {
    var gray := GrayscaleFilter.Apply(GrayscaleFilter.BT709, image);
    var g := gray.value;
    var thresholded := Filters.Apply(Filters.Threshold(50), g);
    t := thresholded.value;
  }

  /** new BlobsFiltering(1, 1, Width, Height).Apply on the thresholded
      image: a copy of it, or a failure for a one-pixel-wide image. */
  method RemoveNoBlobs(t: UnmanagedImage) returns (r: Result<UnmanagedImage>)
    requires t.Valid() && t.format == Format8bppIndexed
    ensures r.Fail? <==> t.width == 1
    ensures r.Fail? ==> r.error == InvalidImageProperties
    ensures r.Ok? ==> fresh(r.value.data) && r.value.Valid() && r.value.format == Format8bppIndexed
                      && r.value.width == t.width && r.value.height == t.height
    ensures r.Ok? ==> forall x, y :: t.Layout().InBounds(x, y) ==>
              PixelBytes(r.value.Layout(), r.value.data[..], x, y) == PixelBytes(t.Layout(), t.data[..], x, y)
  {
    assert t.format in ErasableFormats;
    var filter := new BlobsFiltering.BySize(1, 1, t.width, t.height, false);
    var filtered, F, F0, collected := filter.Apply(t);
    if filtered.Fail? {
      return Fail(filtered.error);
    }
    forall x, y | t.Layout().InBounds(x, y)
      ensures PixelBytes(filtered.value.Layout(), filtered.value.data[..], x, y) == PixelBytes(t.Layout(), t.data[..], x, y)
    {
      SizedFilteringKeepsPixel(t.Layout(), t.data[..], F, F0, collected, x, y);
    }
    return filtered;
  }
}
