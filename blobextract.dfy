// The blob image extraction of BlobCounterBase (AForgeCore.cs): GetObjects
// and ExtractBlobsImage walk a blob's rectangle row by row and copy every
// pixel that carries the blob's id into a fresh zero-filled image, either at
// the same place (original size) or relative to the rectangle.

module BlobExtract {
  import opened Arith
  import opened Imaging
  import opened BlobInfo

  /** Where pixel (x, y) of the source lands in the blob image. */
  function Target(rect: Rect, original: bool, x: int, y: int): IntPoint
  {
    if original then IntPoint(x, y) else IntPoint(x - rect.x, y - rect.y)
  }

  /** The source pixel that lands on pixel (tx, ty) of the blob image. */
  function SourceOf(rect: Rect, original: bool, tx: int, ty: int): (p: IntPoint)
    ensures Target(rect, original, p.x, p.y) == IntPoint(tx, ty)
  {
    if original then IntPoint(tx, ty) else IntPoint(tx + rect.x, ty + rect.y)
  }

  /** The shapes an extraction works with: source layout l with object map F
      (one id per pixel, row-major), a rectangle inside the image, and a blob
      image of the image's size (original) or the rectangle's size, in the
      image's format. */
  predicate Shapes(l: ImageLayout, F: seq<int>, rect: Rect, original: bool, dl: ImageLayout)
  {
    l.Valid() && dl.Valid() && dl.format == l.format && |F| == l.width * l.height
    && Placed(rect, l.width, l.height)
    && (if original then dl.width == l.width && dl.height == l.height
        else dl.width == rect.width && dl.height == rect.height)
  }

  /** A rectangle of non-negative size inside a w-by-h image. */
  predicate Placed(rect: Rect, w: int, h: int)
  {
    0 <= rect.width && 0 <= rect.height && rect.Within(Rect(0, 0, w, h))
  }

  /** A pixel's bytes as a write pattern that stores every one of them. */
  function Copied(b: seq<byte>): (p: seq<Option<byte>>)
    ensures |p| == |b| && forall i :: 0 <= i < |b| ==> p[i] == Some(b[i])
  {
    seq(|b|, i requires 0 <= i < |b| => Some(b[i]))
  }

  /** Index of pixel (x, y) in the row-major object map of layout l. */
  function Cell(l: ImageLayout, x: int, y: int): (q: int)
    requires l.InBounds(x, y)
    ensures 0 <= q < l.width * l.height
  {
    CellIndex(x, y, l.width, l.height);
    y * l.width + x
  }

  /** Pixel p of the source image carries id in the object map F. */
  predicate Carries(l: ImageLayout, F: seq<int>, id: int, p: IntPoint)
    requires |F| == l.width * l.height
  {
    l.InBounds(p.x, p.y) && F[Cell(l, p.x, p.y)] == id
  }

  /** The rectangle's pixel i of row `row` lies in both images. */
  lemma CellsInside(l: ImageLayout, F: seq<int>, rect: Rect, original: bool, dl: ImageLayout, row: int, i: int)
    requires Shapes(l, F, rect, original, dl) && 0 <= row < rect.height && 0 <= i < rect.width
    ensures l.InBounds(rect.x + i, rect.y + row)
    ensures dl.InBounds(Target(rect, original, rect.x + i, rect.y + row).x, Target(rect, original, rect.x + i, rect.y + row).y)
  {
  }

  /** The inner step: pixel i of row `row` is copied when it carries id. */
  function CopyPixel(l: ImageLayout, s: seq<byte>, F: seq<int>, id: int, rect: Rect, original: bool,
                     dl: ImageLayout, d: seq<byte>, row: int, i: int): (r: seq<byte>)
    requires Shapes(l, F, rect, original, dl) && |s| == l.Size() && |d| == dl.Size()
    requires 0 <= row < rect.height && 0 <= i < rect.width
    ensures |r| == |d|
  {
    CellsInside(l, F, rect, original, dl, row, i);
    var x, y := rect.x + i, rect.y + row;
    var t := Target(rect, original, x, y);
    if Carries(l, F, id, IntPoint(x, y)) then Paint(dl, d, t.x, t.y, Copied(PixelBytes(l, s, x, y))) else d
  }
  /** The first n pixels of row `row` of the rectangle, left to right. */
  function ExtractRow(l: ImageLayout, s: seq<byte>, F: seq<int>, id: int, rect: Rect, original: bool,
                      dl: ImageLayout, d: seq<byte>, row: int, n: int): (r: seq<byte>)
    requires Shapes(l, F, rect, original, dl) && |s| == l.Size() && |d| == dl.Size()
    requires 0 <= row < rect.height && 0 <= n <= rect.width
    ensures |r| == |d|
    decreases n
  {
    if n == 0 then d
    else CopyPixel(l, s, F, id, rect, original, dl, ExtractRow(l, s, F, id, rect, original, dl, d, row, n - 1), row, n - 1)
  }

  /** The first `rows` rows of the rectangle, top to bottom. */
  function ExtractRows(l: ImageLayout, s: seq<byte>, F: seq<int>, id: int, rect: Rect, original: bool,
                       dl: ImageLayout, d: seq<byte>, rows: int): (r: seq<byte>)
    requires Shapes(l, F, rect, original, dl) && |s| == l.Size() && |d| == dl.Size()
    requires 0 <= rows <= rect.height
    ensures |r| == |d|
    decreases rows
  {
    if rows == 0 then d
    else
      var before := ExtractRows(l, s, F, id, rect, original, dl, d, rows - 1);
      ExtractRow(l, s, F, id, rect, original, dl, before, rows - 1, rect.width)
  }

  /** The blob image: the zero-filled buffer after the whole rectangle. */
  function Extracted(l: ImageLayout, s: seq<byte>, F: seq<int>, id: int, rect: Rect, original: bool,
                     dl: ImageLayout): (r: seq<byte>)
    requires Shapes(l, F, rect, original, dl) && |s| == l.Size()
    ensures |r| == dl.Size()
  {
    ExtractRows(l, s, F, id, rect, original, dl, seq(dl.Size(), _ => 0 as byte), rect.height)
  }


  // ------------------------------------------------------------ what a blob image holds

  /** Writing a pixel's bytes at (x, y) shows them there and nowhere else. */
  lemma PaintedPixel(dl: ImageLayout, d: seq<byte>, x: int, y: int, b: seq<byte>, x': int, y': int)
    requires dl.Valid() && |d| == dl.Size() && |b| == PixelSize(dl.format)
    requires dl.InBounds(x, y) && dl.InBounds(x', y')
    ensures PixelBytes(dl, Paint(dl, d, x, y, Copied(b)), x', y')
            == if x == x' && y == y' then b else PixelBytes(dl, d, x', y')
  {
    PaintedPixelBytes(dl, d, x, y, Copied(b), x', y');
    assert Overlay(Copied(b), PixelBytes(dl, d, x, y)) == b;
  }

  /** After the first n pixels of row `row`, pixel (tx, ty) of the blob image
      holds its source pixel when that pixel is one of them and carries id,
      and what it held before otherwise. */
  lemma {:induction false} RowPixel(l: ImageLayout, s: seq<byte>, F: seq<int>, id: int, rect: Rect, original: bool,
                                    dl: ImageLayout, d: seq<byte>, row: int, n: int, tx: int, ty: int)
    requires Shapes(l, F, rect, original, dl) && |s| == l.Size() && |d| == dl.Size()
    requires 0 <= row < rect.height && 0 <= n <= rect.width && dl.InBounds(tx, ty)
    ensures var p := SourceOf(rect, original, tx, ty);
      PixelBytes(dl, ExtractRow(l, s, F, id, rect, original, dl, d, row, n), tx, ty)
      == if p.y == rect.y + row && rect.x <= p.x < rect.x + n && Carries(l, F, id, p)
         then PixelBytes(l, s, p.x, p.y) else PixelBytes(dl, d, tx, ty)
    decreases n
  {
    if n > 0 {
      var before := ExtractRow(l, s, F, id, rect, original, dl, d, row, n - 1);
      assert ExtractRow(l, s, F, id, rect, original, dl, d, row, n) == CopyPixel(l, s, F, id, rect, original, dl, before, row, n - 1);
      RowPixel(l, s, F, id, rect, original, dl, d, row, n - 1, tx, ty);
      RowPixelStep(l, s, F, id, rect, original, dl, before, row, n - 1, tx, ty);
      var p := SourceOf(rect, original, tx, ty);
      if p == IntPoint(rect.x + n - 1, rect.y + row) {
        assert p.y == rect.y + row && rect.x <= p.x < rect.x + n;
      }
    }
  }

  /** One pixel of the row: the target it copies to shows the source pixel,
      every other pixel of the blob image is unchanged. */
  lemma RowPixelStep(l: ImageLayout, s: seq<byte>, F: seq<int>, id: int, rect: Rect, original: bool,
                     dl: ImageLayout, d: seq<byte>, row: int, i: int, tx: int, ty: int)
    requires Shapes(l, F, rect, original, dl) && |s| == l.Size() && |d| == dl.Size()
    requires 0 <= row < rect.height && 0 <= i < rect.width && dl.InBounds(tx, ty)
    ensures var p := SourceOf(rect, original, tx, ty);
      PixelBytes(dl, CopyPixel(l, s, F, id, rect, original, dl, d, row, i), tx, ty)
      == if p == IntPoint(rect.x + i, rect.y + row) && Carries(l, F, id, p)
         then PixelBytes(l, s, p.x, p.y) else PixelBytes(dl, d, tx, ty)
  {
    CellsInside(l, F, rect, original, dl, row, i);
    var x, y := rect.x + i, rect.y + row;
    var t := Target(rect, original, x, y);
    var p := SourceOf(rect, original, tx, ty);
    assert t == IntPoint(tx, ty) <==> p == IntPoint(x, y);
    if Carries(l, F, id, IntPoint(x, y)) {
      var b := PixelBytes(l, s, x, y);
      assert CopyPixel(l, s, F, id, rect, original, dl, d, row, i) == Paint(dl, d, t.x, t.y, Copied(b));
      PaintedPixel(dl, d, t.x, t.y, b, tx, ty);
    } else {
      assert CopyPixel(l, s, F, id, rect, original, dl, d, row, i) == d;
    }
  }

  /** After the first `rows` rows, pixel (tx, ty) of the blob image holds its
      source pixel when that pixel lies in those rows of the rectangle and
      carries id, and what it held before otherwise. */
  lemma {:induction false} RowsPixel(l: ImageLayout, s: seq<byte>, F: seq<int>, id: int, rect: Rect, original: bool,
                                     dl: ImageLayout, d: seq<byte>, rows: int, tx: int, ty: int)
    requires Shapes(l, F, rect, original, dl) && |s| == l.Size() && |d| == dl.Size()
    requires 0 <= rows <= rect.height && dl.InBounds(tx, ty)
    ensures var p := SourceOf(rect, original, tx, ty);
      PixelBytes(dl, ExtractRows(l, s, F, id, rect, original, dl, d, rows), tx, ty)
      == if rect.y <= p.y < rect.y + rows && rect.x <= p.x < rect.Right() && Carries(l, F, id, p)
         then PixelBytes(l, s, p.x, p.y) else PixelBytes(dl, d, tx, ty)
    decreases rows
  {
    if rows > 0 {
      RowsPixel(l, s, F, id, rect, original, dl, d, rows - 1, tx, ty);
      var before := ExtractRows(l, s, F, id, rect, original, dl, d, rows - 1);
      RowPixel(l, s, F, id, rect, original, dl, before, rows - 1, rect.width, tx, ty);
    }
  }

  /** The blob image: each pixel holds its source pixel when that pixel lies
      in the rectangle and carries the blob's id, and zeros otherwise. */
  lemma ExtractedPixel(l: ImageLayout, s: seq<byte>, F: seq<int>, id: int, rect: Rect, original: bool,
                       dl: ImageLayout, tx: int, ty: int)
    requires Shapes(l, F, rect, original, dl) && |s| == l.Size() && dl.InBounds(tx, ty)
    ensures var p := SourceOf(rect, original, tx, ty);
      PixelBytes(dl, Extracted(l, s, F, id, rect, original, dl), tx, ty)
      == if rect.Contains(p.x, p.y) && Carries(l, F, id, p)
         then PixelBytes(l, s, p.x, p.y) else seq(PixelSize(dl.format), _ => 0 as byte)
  {
    var zeros := seq(dl.Size(), _ => 0 as byte);
    RowsPixel(l, s, F, id, rect, original, dl, zeros, rect.height, tx, ty);
    assert PixelBytes(dl, zeros, tx, ty) == seq(PixelSize(dl.format), _ => 0 as byte);
  }

  lemma {:induction false} RowPadding(l: ImageLayout, s: seq<byte>, F: seq<int>, id: int, rect: Rect, original: bool,
                                      dl: ImageLayout, d: seq<byte>, row: int, n: int, k: int)
    requires Shapes(l, F, rect, original, dl) && |s| == l.Size() && |d| == dl.Size()
    requires 0 <= row < rect.height && 0 <= n <= rect.width && 0 <= k < |d| && !IsPixelByte(dl, k)
    ensures ExtractRow(l, s, F, id, rect, original, dl, d, row, n)[k] == d[k]
    decreases n
  {
    if n > 0 {
      RowPadding(l, s, F, id, rect, original, dl, d, row, n - 1, k);
      RowPaddingStep(l, s, F, id, rect, original, dl, ExtractRow(l, s, F, id, rect, original, dl, d, row, n - 1), row, n - 1, k);
    }
  }

  lemma RowPaddingStep(l: ImageLayout, s: seq<byte>, F: seq<int>, id: int, rect: Rect, original: bool,
                       dl: ImageLayout, d: seq<byte>, row: int, i: int, k: int)
    requires Shapes(l, F, rect, original, dl) && |s| == l.Size() && |d| == dl.Size()
    requires 0 <= row < rect.height && 0 <= i < rect.width && 0 <= k < |d| && !IsPixelByte(dl, k)
    ensures CopyPixel(l, s, F, id, rect, original, dl, d, row, i)[k] == d[k]
  {
    CellsInside(l, F, rect, original, dl, row, i);
    var x, y := rect.x + i, rect.y + row;
    var t := Target(rect, original, x, y);
    if Carries(l, F, id, IntPoint(x, y)) {
      PaintKeepsPadding(dl, d, t.x, t.y, Copied(PixelBytes(l, s, x, y)), k);
    }
  }

  lemma {:induction false} RowsPadding(l: ImageLayout, s: seq<byte>, F: seq<int>, id: int, rect: Rect, original: bool,
                                       dl: ImageLayout, d: seq<byte>, rows: int, k: int)
    requires Shapes(l, F, rect, original, dl) && |s| == l.Size() && |d| == dl.Size()
    requires 0 <= rows <= rect.height && 0 <= k < |d| && !IsPixelByte(dl, k)
    ensures ExtractRows(l, s, F, id, rect, original, dl, d, rows)[k] == d[k]
    decreases rows
  {
    if rows > 0 {
      RowsPadding(l, s, F, id, rect, original, dl, d, rows - 1, k);
      var before := ExtractRows(l, s, F, id, rect, original, dl, d, rows - 1);
      RowPadding(l, s, F, id, rect, original, dl, before, rows - 1, rect.width, k);
    }
  }

  /** The row padding of a blob image stays zero. */
  lemma ExtractedPadding(l: ImageLayout, s: seq<byte>, F: seq<int>, id: int, rect: Rect, original: bool,
                         dl: ImageLayout, k: int)
    requires Shapes(l, F, rect, original, dl) && |s| == l.Size() && 0 <= k < dl.Size() && !IsPixelByte(dl, k)
    ensures Extracted(l, s, F, id, rect, original, dl)[k] == 0
  {
    RowsPadding(l, s, F, id, rect, original, dl, seq(dl.Size(), _ => 0 as byte), rect.height, k);
  }

  // ------------------------------------------------------------ the copy loop

  /** The copy loop of GetObjects / ExtractBlobsImage: p walks the object map
      (y * width + x), and each pixel carrying id is copied to its target. */
  method ExtractInto(dst: UnmanagedImage, image: UnmanagedImage, labels: array<int>, id: int, rect: Rect, original: bool)
    requires dst.Valid() && image.Valid() && dst.data != image.data
    requires Shapes(image.Layout(), labels[..], rect, original, dst.Layout())
    modifies dst.data
    ensures dst.data[..] == ExtractRows(image.Layout(), image.data[..], labels[..], id, rect, original,
                                        dst.Layout(), old(dst.data[..]), rect.height)
  {
    ghost var l, s, F, dl, d := image.Layout(), image.data[..], labels[..], dst.Layout(), dst.data[..];
    var width := image.width;
    var p := rect.y * width + rect.x;
    var y := rect.y;
    while y < rect.y + rect.height
      invariant rect.y <= y <= rect.y + rect.height && p == y * width + rect.x
      invariant dst.data[..] == ExtractRows(l, s, F, id, rect, original, dl, d, y - rect.y)
    {
      p := ExtractRowInto(dst, image, labels, id, rect, original, y, p);
      p := p + (width - rect.width);
      MulAdd(y, 1, width);
      y := y + 1;
    }
  }

  /** One row of the copy loop, from map index p = y * width + rect.x on;
      returns the index just past the row's last pixel. */
  method ExtractRowInto(dst: UnmanagedImage, image: UnmanagedImage, labels: array<int>, id: int, rect: Rect, original: bool,
                        y: int, p0: int) returns (p: int)
    requires dst.Valid() && image.Valid() && dst.data != image.data
    requires Shapes(image.Layout(), labels[..], rect, original, dst.Layout())
    requires rect.y <= y < rect.y + rect.height && p0 == y * image.width + rect.x
    modifies dst.data
    ensures p == p0 + rect.width
    ensures dst.data[..] == ExtractRow(image.Layout(), image.data[..], labels[..], id, rect, original,
                                       dst.Layout(), old(dst.data[..]), y - rect.y, rect.width)
  {
    ghost var l, s, F, dl, d := image.Layout(), image.data[..], labels[..], dst.Layout(), dst.data[..];
    p := p0;
    var x := rect.x;
    while x < rect.x + rect.width
      invariant rect.x <= x <= rect.x + rect.width && p == y * image.width + x
      invariant dst.data[..] == ExtractRow(l, s, F, id, rect, original, dl, d, y - rect.y, x - rect.x)
    {
      ExtractPixel(dst, image, labels, id, rect, original, x, y, p);
      x, p := x + 1, p + 1;
    }
  }

  /** The body of the inner loop: pixel (x, y), at map index p, is copied to
      its target when it carries id. */
  method ExtractPixel(dst: UnmanagedImage, image: UnmanagedImage, labels: array<int>, id: int, rect: Rect, original: bool,
                      x: int, y: int, p: int)
    requires dst.Valid() && image.Valid() && dst.data != image.data
    requires Shapes(image.Layout(), labels[..], rect, original, dst.Layout())
    requires rect.Contains(x, y) && p == y * image.width + x
    modifies dst.data
    ensures dst.data[..] == CopyPixel(image.Layout(), image.data[..], labels[..], id, rect, original,
                                      dst.Layout(), old(dst.data[..]), y - rect.y, x - rect.x)
  {
    CellsInside(image.Layout(), labels[..], rect, original, dst.Layout(), y - rect.y, x - rect.x);
    assert p == Cell(image.Layout(), x, y);
    var t := Target(rect, original, x, y);
    if labels[p] == id {
      dst.WritePixel(t.x, t.y, Copied(PixelBytes(image.Layout(), image.data[..], x, y)));
    }
  }

  // ------------------------------------------------------------ blob images

  /** A blob together with the image extracted for it (Blob.Image and
      Blob.OriginalSize). */
  datatype BlobImage = BlobImage(blob: Blob, image: UnmanagedImage, originalSize: bool)

  /** bi is the extraction of its blob from image with object map F: a blob
      image of the right shape whose bytes are those of Extracted. */
  ghost predicate Extracts(bi: BlobImage, image: UnmanagedImage, F: seq<int>, original: bool)
    reads bi.image.data, image.data
  {
    bi.image.Valid() && image.Valid() && bi.originalSize == original
    && Shapes(image.Layout(), F, bi.blob.rect, original, bi.image.Layout())
    && bi.image.data[..] == Extracted(image.Layout(), image.data[..], F, bi.blob.id, bi.blob.rect, original,
                                      bi.image.Layout())
  }

  /** The size of a blob's image: the source image's, or the rectangle's. */
  function BlobImageSize(image: UnmanagedImage, rect: Rect, original: bool): (int, int)
  {
    if original then (image.width, image.height) else (rect.width, rect.height)
  }

  /** What UnmanagedImage.Create answers for a blob image of that size. */
  function CreateOf(image: UnmanagedImage, rect: Rect, original: bool): Result<int>
  {
    var size := BlobImageSize(image, rect, original);
    CreateStride(size.0, size.1, image.format)
  }

  predicate Creatable(image: UnmanagedImage, rect: Rect, original: bool)
  {
    CreateOf(image, rect, original).Ok?
  }

  /** The extraction of one blob into a fresh image: Create, then the copy.
      A creation failure is passed on. */
  method ExtractBlob(image: UnmanagedImage, labels: array<int>, blob: Blob, original: bool) returns (r: Result<BlobImage>)
    requires image.Valid() && labels.Length == image.width * image.height
    requires Placed(blob.rect, image.width, image.height)
    ensures r.Ok? <==> Creatable(image, blob.rect, original)
    ensures r.Fail? ==> CreateOf(image, blob.rect, original) == Fail(r.error)
    ensures r.Ok? ==> r.value.blob == blob && fresh(r.value.image.data)
                      && Extracts(r.value, image, labels[..], original)
  {
    var size := BlobImageSize(image, blob.rect, original);
    var created := UnmanagedImage.Create(size.0, size.1, image.format);
    if created.Fail? {
      return Fail(created.error);
    }
    var dst := created.value;
    assert dst.data[..] == seq(dst.Layout().Size(), _ => 0 as byte);
    ExtractInto(dst, image, labels, blob.id, blob.rect, original);
    return Ok(BlobImage(blob, dst, original));
  }
}
