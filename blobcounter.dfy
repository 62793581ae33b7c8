// BlobCounter / BlobCounterBase (AForgeCore.cs): the object that labels an
// image, keeps its object map and blob list, and answers questions about
// them afterwards. The labelling itself works on the foreground mask the
// background thresholds give; the mask is computed here from the buffer.

module BlobCounting {
  import opened Arith
  import opened Imaging
  import opened Labelling
  import opened Components
  import opened BlobInfo
  import opened BlobFilter
  import opened BlobExtract
  import BlobSort
  import BlobEdges

  /** The formats BlobCounter.BuildObjectsMap accepts. */
  predicate IsCountable(f: PixelFormat)
  {
    f == Format8bppIndexed || f == Format24bppRgb || f == Format32bppRgb
    || f == Format32bppArgb || f == Format32bppPArgb
  }

  /** A pixel is foreground when one of its samples exceeds its background
      threshold: the grey byte against the green threshold for 8bpp images,
      red, green and blue (stored at byte offsets 2, 1, 0) otherwise. */
  predicate Foreground(l: ImageLayout, s: seq<byte>, t: Color, x: int, y: int)
    requires l.Valid() && |s| == l.Size() && l.InBounds(x, y) && IsCountable(l.format)
  {
    var b := PixelBytes(l, s, x, y);
    if l.format == Format8bppIndexed then b[0] > t.g
    else b[2] > t.r || b[1] > t.g || b[0] > t.b
  }

  /** The test BuildObjectsMap applies to the very first pixel: the same as
      every other pixel for 8bpp images, but for colour images any non-zero
      sample makes it foreground, whatever the thresholds. */
  predicate FirstForeground(l: ImageLayout, s: seq<byte>, t: Color)
    requires l.Valid() && |s| == l.Size() && IsCountable(l.format)
  {
    var b := PixelBytes(l, s, 0, 0);
    if l.format == Format8bppIndexed then b[0] > t.g
    else b[2] != 0 || b[1] != 0 || b[0] != 0
  }

  /** The foreground mask in raster order. */
  function Mask(l: ImageLayout, s: seq<byte>, t: Color): (fg: seq<bool>)
    requires l.Valid() && |s| == l.Size() && IsCountable(l.format)
    ensures |fg| == l.width * l.height
    ensures forall q :: 0 <= q < |fg| ==> l.InBounds(q % l.width, q / l.width)
    ensures forall q :: 0 <= q < |fg| ==> fg[q] == Foreground(l, s, t, q % l.width, q / l.width)
  {
    forall q | 0 <= q < l.width * l.height
      ensures l.InBounds(q % l.width, q / l.width)
    {
      CellOf(q, l.width, l.height);
    }
    seq(l.width * l.height, q requires 0 <= q < l.width * l.height =>
      Foreground(l, s, t, q % l.width, q / l.width))
  }

  /** The first-pixel test never drops a pixel the thresholds call
      foreground, so the labelling pass may run on any image two or more
      pixels wide; for 8bpp images it agrees with the mask. */
  lemma MaskRaster(l: ImageLayout, s: seq<byte>, t: Color)
    requires l.Valid() && |s| == l.Size() && IsCountable(l.format) && l.width >= 2
    ensures Raster(l.width, Mask(l, s, t), FirstForeground(l, s, t))
    ensures l.format == Format8bppIndexed ==> (FirstForeground(l, s, t) <==> Mask(l, s, t)[0])
  {
    assert 0 % l.width == 0 && 0 / l.width == 0;
  }

  /** With zero thresholds the first-pixel quirk vanishes: the first pixel is
      foreground exactly when the mask says so. */
  lemma ZeroThresholdFirstPixel(l: ImageLayout, s: seq<byte>)
    requires l.Valid() && |s| == l.Size() && IsCountable(l.format)
    ensures FirstForeground(l, s, Color(255, 0, 0, 0)) <==> Mask(l, s, Color(255, 0, 0, 0))[0]
  {
    assert 0 % l.width == 0 && 0 / l.width == 0;
  }

  /** A colour image whose first pixel lies at or below the thresholds but is
      not black still has that pixel labelled as an object. */
  lemma FirstPixelQuirk(l: ImageLayout, s: seq<byte>, t: Color)
    requires l.Valid() && |s| == l.Size() && l.format == Format24bppRgb && l.width >= 2
    requires PixelBytes(l, s, 0, 0) == [t.b, t.g, t.r] && t.r > 0
    ensures !Mask(l, s, t)[0] && Marked(Mask(l, s, t), FirstForeground(l, s, t), 0)
  {
    assert 0 % l.width == 0 && 0 / l.width == 0;
  }

  /** Which blobs the filtering step removes: the IBlobsFilter when one is
      set, the size limits otherwise. */
  function CriterionOf(limits: SizeLimits, filter: Option<Blob -> bool>): Criterion
  {
    if filter.Some? then ByCheck(filter.value) else BySize(limits)
  }

  /** Every blob's rectangle lies inside a w-by-h image. */
  predicate Inside(blobs: seq<Blob>, w: int, h: int)
  {
    forall b :: b in blobs ==> Placed(b.rect, w, h)
  }

  /** The blobs that describe an object map whose every id is used lie
      inside the image. */
  lemma DescribedInside(blobs: seq<Blob>, F: seq<int>, w: int, h: int)
    requires w > 0 && |F| == w * h && Describe(blobs, F, w, h)
    requires forall k :: 1 <= k <= |blobs| ==> Used(F, k)
    ensures Inside(blobs, w, h)
  {
    forall b | b in blobs
      ensures Placed(b.rect, w, h)
    {
      var k :| 0 <= k < |blobs| && blobs[k] == b;
      assert Used(F, k + 1);
      var q :| 0 <= q < |F| && F[q] == k + 1;
      assert q in Pixels(F, k + 1, |F|);
      BlobIsBoundingBox(F, w, h, k + 1);
      BlobInside(F, w, h, k + 1);
    }
  }

  /** Filtering and renumbering keep the blobs inside the image. */
  lemma KeptInside(c: Criterion, s: seq<Blob>, w: int, h: int)
    requires Inside(s, w, h)
    ensures Inside(Renamed(Kept(c, s)), w, h)
  {
    KeptMembers(c, s);
    var r := Renamed(Kept(c, s));
    forall b | b in r
      ensures Placed(b.rect, w, h)
    {
      var k :| 0 <= k < |r| && r[k] == b;
      assert Kept(c, s)[k] in Kept(c, s);
    }
  }

  class BlobCounter {
    var objectLabels: array?<int>
    var objectsCount: int
    var imageWidth: int
    var imageHeight: int
    var blobs: seq<Blob>
    var objectsOrder: BlobSort.ObjectsOrder
    var filterBlobs: bool
    var limits: SizeLimits
    var filter: Option<Blob -> bool>
    var backgroundThreshold: Color

    /** The blob list has one entry per object, and every label of the
        object map is 0 or an object's id. */
    ghost predicate Valid()
      reads this, objectLabels
    {
      0 <= objectsCount == |blobs|
      && (objectLabels != null ==>
            forall q :: 0 <= q < objectLabels.Length ==> 0 <= objectLabels[q] <= objectsCount)
    }

    /** new BlobCounter(): nothing processed, no filtering, no ordering,
        1 x 1 up to int.MaxValue decoupled limits, black background. */
    constructor ()
      ensures Valid() && objectLabels == null && objectsCount == 0 && blobs == []
      ensures objectsOrder == BlobSort.None && !filterBlobs && filter == None
      ensures limits == DefaultLimits && backgroundThreshold == Color(255, 0, 0, 0)
    {
      objectLabels := null;
      objectsCount := 0;
      imageWidth := 0;
      imageHeight := 0;
      blobs := [];
      objectsOrder := BlobSort.None;
      filterBlobs := false;
      limits := DefaultLimits;
      filter := None;
      backgroundThreshold := Color(255, 0, 0, 0);
    }

    /** ProcessImage(UnmanagedImage): records the image size, builds the
        object map (refusing unsupported formats and one-pixel-wide images
        before anything else changes), collects the blobs, filters and
        renumbers them when asked, and sorts them when an order is set.
        The ghost results name the unfiltered map, its blob list, and the
        list before sorting. */
    method ProcessImage(image: UnmanagedImage) returns (r: Outcome, ghost F0: seq<int>, ghost collected: seq<Blob>,
                                                          ghost listed: seq<Blob>)
      requires Valid() && image.Valid()
      modifies this
      ensures Valid()
      ensures imageWidth == image.width && imageHeight == image.height
      ensures objectsOrder == old(objectsOrder) && filterBlobs == old(filterBlobs) && limits == old(limits)
      ensures filter == old(filter) && backgroundThreshold == old(backgroundThreshold)
      ensures r == if !IsCountable(image.format) then Failure(UnsupportedImageFormat)
                   else if image.width == 1 then Failure(InvalidImageProperties)
                   else Pass
      ensures r.Failure? ==>
        objectLabels == old(objectLabels) && objectsCount == old(objectsCount) && blobs == old(blobs)
      ensures r.Pass? ==>
        var l := image.Layout();
        var c := CriterionOf(limits, filter);
        fresh(objectLabels) && objectLabels.Length == l.width * l.height
        && ObjectMap(l.width, Mask(l, image.data[..], backgroundThreshold),
                     FirstForeground(l, image.data[..], backgroundThreshold), F0, |collected|)
        && Describe(collected, F0, l.width, l.height)
        && objectLabels[..] == (if filterBlobs then Filtered(c, collected, F0) else F0)
        && listed == (if filterBlobs then Renamed(Kept(c, collected)) else collected)
        && Describe(listed, objectLabels[..], l.width, l.height)
        && (objectsOrder == BlobSort.None ==> blobs == listed)
        && (objectsOrder != BlobSort.None ==>
              BlobSort.Sorted(objectsOrder, blobs) && multiset(blobs) == multiset(listed))
      ensures r.Pass? ==> Inside(blobs, image.width, image.height)
    {
      imageWidth := image.width;
      imageHeight := image.height;
      F0, collected, listed := [], [], [];
      r := BuildObjectsMap(image);
      if r.Failure? {
        return;
      }
      F0 := objectLabels[..];
      collected, listed := Summarise();
    }

    /** The rest of ProcessImage once the object map exists: the blobs are
        collected from it, filtered (map and list together) when filtering is
        on, and ordered when an order is set. */
    method Summarise() returns (ghost collected: seq<Blob>, ghost listed: seq<Blob>)
      requires objectLabels != null && imageWidth > 0 && imageHeight > 0 && objectsCount >= 0
      requires objectLabels.Length == imageWidth * imageHeight
      requires forall q :: 0 <= q < objectLabels.Length ==> 0 <= objectLabels[q] <= objectsCount
      requires forall k :: 1 <= k <= objectsCount ==> Used(objectLabels[..], k)
      modifies this, objectLabels
      ensures Valid() && objectLabels == old(objectLabels)
      ensures imageWidth == old(imageWidth) && imageHeight == old(imageHeight)
      ensures objectsOrder == old(objectsOrder) && filterBlobs == old(filterBlobs) && limits == old(limits)
      ensures filter == old(filter) && backgroundThreshold == old(backgroundThreshold)
      ensures |collected| == old(objectsCount) && Describe(collected, old(objectLabels[..]), imageWidth, imageHeight)
      ensures var c := CriterionOf(limits, filter);
        objectLabels[..] == (if filterBlobs then Filtered(c, collected, old(objectLabels[..])) else old(objectLabels[..]))
        && listed == (if filterBlobs then Renamed(Kept(c, collected)) else collected)
      ensures Describe(listed, objectLabels[..], imageWidth, imageHeight)
      ensures objectsOrder == BlobSort.None ==> blobs == listed
      ensures objectsOrder != BlobSort.None ==> BlobSort.Sorted(objectsOrder, blobs) && multiset(blobs) == multiset(listed)
      ensures Inside(blobs, imageWidth, imageHeight)
    {
      forall k | 1 <= k <= objectsCount
        ensures Occurs(objectLabels[..], k)
      {
        assert Used(objectLabels[..], k);
      }
      var info := CollectObjectsInfo(objectLabels, imageWidth, imageHeight, objectsCount);
      collected := info;
      blobs := info;
      if filterBlobs {
        FilterObjects(CriterionOf(limits, filter));
        FilteredDescribe(CriterionOf(limits, filter), collected, old(objectLabels[..]), imageWidth, imageHeight);
      }
      DescribedInside(collected, old(objectLabels[..]), imageWidth, imageHeight);
      if filterBlobs {
        KeptInside(CriterionOf(limits, filter), collected, imageWidth, imageHeight);
      }
      listed := blobs;
      if objectsOrder != BlobSort.None {
        blobs := BlobSort.SortBlobs(objectsOrder, blobs);
        assert |blobs| == |multiset(blobs)| == |multiset(listed)| == |listed|;
        forall b | b in blobs
          ensures b in listed
        {
          assert b in multiset(blobs);
        }
      }
    }

    /** BlobCounter.BuildObjectsMap: refuses unsupported formats, then images
        one pixel wide; otherwise a fresh object map of the image's
        foreground with its number of objects. */
    method BuildObjectsMap(image: UnmanagedImage) returns (r: Outcome)
      requires image.Valid() && imageWidth == image.width && imageHeight == image.height
      modifies this
      ensures r == if !IsCountable(image.format) then Failure(UnsupportedImageFormat)
                   else if image.width == 1 then Failure(InvalidImageProperties)
                   else Pass
      ensures r.Failure? ==> objectLabels == old(objectLabels) && objectsCount == old(objectsCount)
      ensures r.Pass? ==>
        var l := image.Layout();
        fresh(objectLabels) && objectLabels.Length == l.width * l.height
        && ObjectMap(l.width, Mask(l, image.data[..], backgroundThreshold),
                     FirstForeground(l, image.data[..], backgroundThreshold), objectLabels[..], objectsCount)
      ensures r.Pass? ==> objectsCount >= 0 && forall q :: 0 <= q < objectLabels.Length ==> 0 <= objectLabels[q] <= objectsCount
      ensures r.Pass? ==> forall k :: 1 <= k <= objectsCount ==> Used(objectLabels[..], k)
      ensures imageWidth == old(imageWidth) && imageHeight == old(imageHeight) && blobs == old(blobs)
      ensures objectsOrder == old(objectsOrder) && filterBlobs == old(filterBlobs) && limits == old(limits)
      ensures filter == old(filter) && backgroundThreshold == old(backgroundThreshold)
    {
      if !IsCountable(image.format) {
        return Failure(UnsupportedImageFormat);
      }
      if imageWidth == 1 {
        return Failure(InvalidImageProperties);
      }
      var l := image.Layout();
      var fg := Mask(l, image.data[..], backgroundThreshold);
      var first := FirstForeground(l, image.data[..], backgroundThreshold);
      MaskRaster(l, image.data[..], backgroundThreshold);
      objectLabels, objectsCount := Components.BuildObjectsMap(fg, first, imageWidth, imageHeight);
      return Pass;
    }

    /** The filtering block of ProcessImage: removal, dense renumbering of the
        label table, relabelling of the map, the count, and the new ids. */
    method FilterObjects(c: Criterion)
      requires Valid() && objectLabels != null
      modifies this, objectLabels
      ensures Valid() && objectLabels == old(objectLabels)
      ensures objectLabels[..] == Filtered(c, old(blobs), old(objectLabels[..]))
      ensures blobs == Renamed(Kept(c, old(blobs))) && objectsCount == |blobs|
      ensures imageWidth == old(imageWidth) && imageHeight == old(imageHeight)
      ensures objectsOrder == old(objectsOrder) && filterBlobs == old(filterBlobs) && limits == old(limits)
      ensures filter == old(filter) && backgroundThreshold == old(backgroundThreshold)
    {
      ghost var F := objectLabels[..];
      ghost var before := blobs;
      var kept, table, removed := RemoveFailing(c, blobs);
      table := Renumber(c, blobs, table);
      Relabel(objectLabels, table);
      objectsCount := objectsCount - removed;
      blobs := SetIds(kept);
      assert objectLabels[..] == Filtered(c, before, F);
      forall q | 0 <= q < objectLabels.Length
        ensures 0 <= objectLabels[q] <= objectsCount
      {
        FilteredPixels(c, before, F, q);
      }
    }

    /** GetObjectsRectangles: every blob's rectangle, in list order. */
    method GetObjectsRectangles() returns (r: Result<seq<Rect>>)
      requires Valid()
      ensures objectLabels == null ==> r == Fail(NotProcessed)
      ensures objectLabels != null ==>
        r.Ok? && |r.value| == objectsCount && forall i :: 0 <= i < objectsCount ==> r.value[i] == blobs[i].rect
    {
      if objectLabels == null {
        return Fail(NotProcessed);
      }
      var rects := [];
      var i := 0;
      while i < objectsCount
        invariant 0 <= i <= objectsCount && |rects| == i
        invariant forall k :: 0 <= k < i ==> rects[k] == blobs[k].rect
      {
        rects := rects + [blobs[i].rect];
        i := i + 1;
      }
      return Ok(rects);
    }

    /** GetObjectsInformation: a copy of every blob, in list order. */
    method GetObjectsInformation() returns (r: Result<seq<Blob>>)
      requires Valid()
      ensures objectLabels == null ==> r == Fail(NotProcessed)
      ensures objectLabels != null ==> r == Ok(blobs)
    {
      if objectLabels == null {
        return Fail(NotProcessed);
      }
      var copies := [];
      var k := 0;
      while k < objectsCount
        invariant 0 <= k <= objectsCount && copies == blobs[..k]
      {
        copies := copies + [blobs[k]];
        k := k + 1;
      }
      assert blobs[..objectsCount] == blobs;
      return Ok(copies);
    }

    /** GetObjects(UnmanagedImage, bool): refuses to run before an image was
        processed, then formats it cannot count; otherwise one blob image per
        blob, in list order, each a fresh buffer, stopping at the first blob
        image that cannot be created. The image must be the one whose object
        map is kept. */
    method GetObjects(image: UnmanagedImage, original: bool) returns (r: Result<seq<BlobImage>>)
      requires Valid() && image.Valid()
      requires objectLabels != null ==>
        objectLabels.Length == image.width * image.height && Inside(blobs, image.width, image.height)
      ensures objectLabels == null ==> r == Fail(NotProcessed)
      ensures objectLabels != null && !IsCountable(image.format) ==> r == Fail(UnsupportedImageFormat)
      ensures objectLabels != null && IsCountable(image.format) ==>
        (r.Ok? <==> forall k :: 0 <= k < |blobs| ==> Creatable(image, blobs[k].rect, original))
      ensures objectLabels != null && IsCountable(image.format) && r.Fail? ==>
        exists k :: 0 <= k < |blobs| && CreateOf(image, blobs[k].rect, original) == Fail(r.error)
      ensures r.Ok? ==>
        |r.value| == |blobs|
        && (forall k :: 0 <= k < |blobs| ==>
              r.value[k].blob == blobs[k] && fresh(r.value[k].image.data)
              && Extracts(r.value[k], image, objectLabels[..], original))
        && (forall i, j :: 0 <= i < j < |blobs| ==> r.value[i].image.data != r.value[j].image.data)
    {
      if objectLabels == null {
        return Fail(NotProcessed);
      }
      if !IsCountable(image.format) {
        return Fail(UnsupportedImageFormat);
      }
      var objects: seq<BlobImage> := [];
      var k := 0;
      while k < objectsCount
        invariant 0 <= k <= objectsCount && |objects| == k
        invariant forall j :: 0 <= j < k ==> Creatable(image, blobs[j].rect, original)
        invariant forall j :: 0 <= j < k ==>
          objects[j].blob == blobs[j] && fresh(objects[j].image.data)
          && Extracts(objects[j], image, objectLabels[..], original)
        invariant forall i, j :: 0 <= i < j < k ==> objects[i].image.data != objects[j].image.data
      {
        assert blobs[k] in blobs;
        var extracted := ExtractBlob(image, objectLabels, blobs[k], original);
        if extracted.Fail? {
          return Fail(extracted.error);
        }
        objects := objects + [extracted.value];
        k := k + 1;
      }
      return Ok(objects);
    }

    /** ExtractBlobsImage(UnmanagedImage, Blob, bool): the same extraction for
        one blob given by the caller, after the same two refusals. */
    method ExtractBlobsImage(image: UnmanagedImage, blob: Blob, original: bool) returns (r: Result<BlobImage>)
      requires Valid() && image.Valid()
      requires objectLabels != null ==>
        objectLabels.Length == image.width * image.height && Placed(blob.rect, image.width, image.height)
      ensures objectLabels == null ==> r == Fail(NotProcessed)
      ensures objectLabels != null && !IsCountable(image.format) ==> r == Fail(UnsupportedImageFormat)
      ensures objectLabels != null && IsCountable(image.format) ==>
        (r.Ok? <==> Creatable(image, blob.rect, original))
        && (r.Fail? ==> CreateOf(image, blob.rect, original) == Fail(r.error))
      ensures r.Ok? ==> r.value.blob == blob && fresh(r.value.image.data)
                        && Extracts(r.value, image, objectLabels[..], original)
    {
      if objectLabels == null {
        return Fail(NotProcessed);
      }
      if !IsCountable(image.format) {
        return Fail(UnsupportedImageFormat);
      }
      r := ExtractBlob(image, objectLabels, blob, original);
    }

    /** The scans below index the map with the recorded image width; a
        rectangle inside the recorded image keeps them inside the map. */
    lemma PlacedFits(rect: Rect)
      requires objectLabels != null && objectLabels.Length == imageWidth * imageHeight && imageWidth > 0
      requires Placed(rect, imageWidth, imageHeight)
      ensures BlobEdges.Fits(objectLabels[..], imageWidth, rect)
    {
      BlobEdges.RowStartIsProduct(imageWidth, rect.y + rect.height);
      MulLe(rect.y + rect.height, imageHeight, imageWidth);
    }

    /** GetBlobsLeftAndRightEdges: per row of the blob's rectangle, the first
        pixel carrying its id from the left and from the right. */
    method GetBlobsLeftAndRightEdges(blob: Blob) returns (r: Result<(seq<IntPoint>, seq<IntPoint>)>)
      requires Valid()
      requires objectLabels != null ==>
        objectLabels.Length == imageWidth * imageHeight && imageWidth > 0 && Placed(blob.rect, imageWidth, imageHeight)
      ensures objectLabels == null ==> r == Fail(NotProcessed)
      ensures objectLabels != null ==>
        BlobEdges.Fits(objectLabels[..], imageWidth, blob.rect) && r.Ok?
        && r.value.0 == BlobEdges.Edge(objectLabels[..], imageWidth, blob.id, blob.rect, BlobEdges.FromLeft)
        && r.value.1 == BlobEdges.Edge(objectLabels[..], imageWidth, blob.id, blob.rect, BlobEdges.FromRight)
    {
      if objectLabels == null {
        return Fail(NotProcessed);
      }
      PlacedFits(blob.rect);
      var left, right := BlobEdges.LeftAndRightEdges(objectLabels[..], imageWidth, blob.id, blob.rect);
      return Ok((left, right));
    }

    /** GetBlobsTopAndBottomEdges: per column of the blob's rectangle, the
        first pixel carrying its id from the top and from the bottom. */
    method GetBlobsTopAndBottomEdges(blob: Blob) returns (r: Result<(seq<IntPoint>, seq<IntPoint>)>)
      requires Valid()
      requires objectLabels != null ==>
        objectLabels.Length == imageWidth * imageHeight && imageWidth > 0 && Placed(blob.rect, imageWidth, imageHeight)
      ensures objectLabels == null ==> r == Fail(NotProcessed)
      ensures objectLabels != null ==>
        BlobEdges.Fits(objectLabels[..], imageWidth, blob.rect) && r.Ok?
        && r.value.0 == BlobEdges.Edge(objectLabels[..], imageWidth, blob.id, blob.rect, BlobEdges.FromTop)
        && r.value.1 == BlobEdges.Edge(objectLabels[..], imageWidth, blob.id, blob.rect, BlobEdges.FromBottom)
    {
      if objectLabels == null {
        return Fail(NotProcessed);
      }
      PlacedFits(blob.rect);
      var top, bottom := BlobEdges.TopAndBottomEdges(objectLabels[..], imageWidth, blob.id, blob.rect);
      return Ok((top, bottom));
    }

    /** GetBlobsEdgePoints: the row scans' points, then the column scans'
        points that neither row scan of their row already found. */
    method GetBlobsEdgePoints(blob: Blob) returns (r: Result<seq<IntPoint>>)
      requires Valid()
      requires objectLabels != null ==>
        objectLabels.Length == imageWidth * imageHeight && imageWidth > 0 && Placed(blob.rect, imageWidth, imageHeight)
      ensures objectLabels == null ==> r == Fail(NotProcessed)
      ensures objectLabels != null ==>
        BlobEdges.Fits(objectLabels[..], imageWidth, blob.rect) && r.Ok?
        && r.value == BlobEdges.EdgePoints(objectLabels[..], imageWidth, blob.id, blob.rect)
    {
      if objectLabels == null {
        return Fail(NotProcessed);
      }
      PlacedFits(blob.rect);
      var points := BlobEdges.EdgePointsOf(objectLabels[..], imageWidth, blob.id, blob.rect);
      return Ok(points);
    }
  }
}
