// The glyph segmentation of Main.cs: Crop_Y cuts the preprocessed image
// into vertical strips along runs of columns holding black pixels, Crop_X
// trims every strip to its runs of rows, and ToResizeAndCenterIt pads or
// cuts every glyph to w x h and centres it on a white canvas.
// Bitmap.GetPixel(x, y).R is read from the buffer as UnmanagedImage.GetPixel
// decodes it.

module Segmentation {
  import opened Arith
  import opened Imaging
  import opened ProjectionRuns
  import Filters
  import CropFilter
  import CanvasMoveFilter

  // ---------------------------------------------------------------- projections

  /** A pixel whose red channel is 0. */
  predicate IsBlack(l: ImageLayout, s: seq<byte>, x: int, y: int)
    requires l.Valid() && |s| == l.Size() && IsReadable(l.format) && l.InBounds(x, y)
  {
    GetPixel(l, s, x, y).value.r == 0
  }

  /** Columns are counted down their height, rows along their width. */
  datatype Axis = Columns | Rows

  function Lines(l: ImageLayout, axis: Axis): int
  {
    if axis == Columns then l.width else l.height
  }

  function LineLength(l: ImageLayout, axis: Axis): int
  {
    if axis == Columns then l.height else l.width
  }

  /** Pixel j of line `line`. */
  predicate BlackOn(l: ImageLayout, s: seq<byte>, axis: Axis, line: int, j: int)
    requires l.Valid() && |s| == l.Size() && IsReadable(l.format)
    requires 0 <= line < Lines(l, axis) && 0 <= j < LineLength(l, axis)
  {
    if axis == Columns then IsBlack(l, s, line, j) else IsBlack(l, s, j, line)
  }

  /** Black pixels among the first n pixels of a line. */
  function Count(l: ImageLayout, s: seq<byte>, axis: Axis, line: int, n: int): (c: int)
    requires l.Valid() && |s| == l.Size() && IsReadable(l.format)
    requires 0 <= line < Lines(l, axis) && 0 <= n <= LineLength(l, axis)
    ensures 0 <= c <= n
  {
    if n == 0 then 0 else Count(l, s, axis, line, n - 1) + (if BlackOn(l, s, axis, line, n - 1) then 1 else 0)
  }

  /** The count array Crop_Y (columns) or Crop_X (rows) builds. */
  function Counts(l: ImageLayout, s: seq<byte>, axis: Axis): (counts: seq<int>)
    requires l.Valid() && |s| == l.Size() && IsReadable(l.format)
    ensures |counts| == Lines(l, axis)
  {
    seq(Lines(l, axis), line requires 0 <= line < Lines(l, axis) => Count(l, s, axis, line, LineLength(l, axis)))
  }

  /** A count is positive exactly when the line holds a black pixel. */
  lemma {:induction false} CountPositive(l: ImageLayout, s: seq<byte>, axis: Axis, line: int, n: int)
    requires l.Valid() && |s| == l.Size() && IsReadable(l.format)
    requires 0 <= line < Lines(l, axis) && 0 <= n <= LineLength(l, axis)
    ensures Count(l, s, axis, line, n) > 0 <==> exists j :: 0 <= j < n && BlackOn(l, s, axis, line, j)
  {
    if n > 0 {
      CountPositive(l, s, axis, line, n - 1);
    }
  }

  /** The first loop of Crop_Y: black pixels per column. */
  method CountColumns(b: UnmanagedImage) returns (cols: array<int>)
    requires b.Valid() && IsReadable(b.format)
    ensures fresh(cols) && cols[..] == Counts(b.Layout(), b.data[..], Columns)
  {
    ghost var l, s := b.Layout(), b.data[..];
    cols := new int[b.width](_ => 0);
    for x := 0 to b.width
      invariant forall x' :: 0 <= x' < b.width ==> cols[x'] == if x' < x then Count(l, s, Columns, x', b.height) else 0
    {
      for y := 0 to b.height
        invariant cols[x] == Count(l, s, Columns, x, y)
        invariant forall x' :: 0 <= x' < b.width && x' != x ==>
                    cols[x'] == if x' < x then Count(l, s, Columns, x', b.height) else 0
      {
        var pixel := b.GetPixelAt(x, y);
        if pixel.value.r == 0 {
          cols[x] := cols[x] + 1;
        }
      }
    }
  }

  /** The first loop of Crop_X: black pixels per row. */
  method CountRows(b: UnmanagedImage) returns (rows: array<int>)
    requires b.Valid() && IsReadable(b.format)
    ensures fresh(rows) && rows[..] == Counts(b.Layout(), b.data[..], Rows)
  {
    ghost var l, s := b.Layout(), b.data[..];
    rows := new int[b.height](_ => 0);
    for y := 0 to b.height
      invariant forall y' :: 0 <= y' < b.height ==> rows[y'] == if y' < y then Count(l, s, Rows, y', b.width) else 0
    {
      for x := 0 to b.width
        invariant rows[y] == Count(l, s, Rows, y, x)
        invariant forall y' :: 0 <= y' < b.height && y' != y ==>
                    rows[y'] == if y' < y then Count(l, s, Rows, y', b.width) else 0
      {
        var pixel := b.GetPixelAt(x, y);
        if pixel.value.r == 0 {
          rows[y] := rows[y] + 1;
        }
      }
    }
  }

  // ---------------------------------------------------------------- crops

  /** The strip Crop_Y cuts for a run of columns. */
  function ColumnRect(run: Run, height: int): Rect
  {
    Rect(run.0, 0, run.1 - run.0 + 1, height)
  }

  /** The band Crop_X cuts for a run of rows. */
  function RowRect(run: Run, width: int): Rect
  {
    Rect(0, run.0, width, run.1 - run.0 + 1)
  }

  /** A closed run with its last line recorded cuts a rectangle of positive
      size inside the image; the narrow run cuts one of width (or height)
      1 - 1 - ... <= 0. */
  lemma RunRects(counts: seq<int>, run: Run, width: int, height: int)
    requires IsClosedRun(counts, run) && 0 < height && 0 < width
    ensures |counts| == width ==>
              (ColumnRect(run, height).width > 0 <==> run.1 != 0)
              && (run.1 != 0 ==> ColumnRect(run, height).Within(Rect(0, 0, width, height)))
    ensures |counts| == height ==>
              (RowRect(run, width).height > 0 <==> run.1 != 0)
              && (run.1 != 0 ==> RowRect(run, width).Within(Rect(0, 0, width, height)))
  {
  }

  /** Main.Crop_Y: one strip per closed run of columns, left to right, each
      the full image height. The narrow run over columns 0 and 1 makes Crop
      throw. */
  method CropY(b: UnmanagedImage) returns (r: Result<seq<UnmanagedImage>>)
    requires b.Valid() && IsReadable(b.format)
    ensures r.Fail? <==> exists k :: 0 <= k < |Runs(Counts(b.Layout(), b.data[..], Columns))|
                                   && ColumnRect(Runs(Counts(b.Layout(), b.data[..], Columns))[k], b.height).width <= 0
    ensures r.Fail? ==> r.error == InvalidImageProperties
    ensures r.Ok? ==> Strips(r.value, b, Columns, Runs(Counts(b.Layout(), b.data[..], Columns)))
  {
    var cols := CountColumns(b);
    ghost var counts := cols[..];
    r := CutStrips(b, cols);
    assert counts == cols[..] == Counts(b.Layout(), b.data[..], Columns);
  }

  /** The second loop of Crop_Y, over the column counts. */
  method CutStrips(b: UnmanagedImage, cols: array<int>) returns (r: Result<seq<UnmanagedImage>>)
    requires b.Valid() && IsReadable(b.format)
    ensures r.Fail? <==> exists k :: 0 <= k < |Runs(cols[..])| && ColumnRect(Runs(cols[..])[k], b.height).width <= 0
    ensures r.Fail? ==> r.error == InvalidImageProperties
    ensures r.Ok? ==> Strips(r.value, b, Columns, Runs(cols[..]))
  {
    ghost var counts := cols[..];
    var list: seq<UnmanagedImage> := [];
    ghost var runs: seq<Run> := [];
    var left, right := 0, 0;
    for i := 0 to cols.Length
      invariant Scan(left, right, runs) == ScanRuns(counts, i)
      invariant Strips(list, b, Columns, runs)
    {
      if cols[i] > 0 || (i + 1 < cols.Length && cols[i + 1] > 0) {
        if left == 0 {
          left := i;
        } else {
          right := i;
        }
      } else {
        if left > 0 || right > 0 {
          var small := CropTo(b, ColumnRect((left, right), b.height));
          if small.Fail? {
            HandedOn(counts, i, runs, (left, right));
            assert ColumnRect(Runs(cols[..])[|runs|], b.height).width <= 0;
            return Fail(small.error);
          }
          StripsGrow(list, b, Columns, runs, small.value, (left, right));
          list := list + [small.value];
          runs := runs + [(left, right)];
        }
        left, right := 0, 0;
      }
    }
    return Ok(list);
  }

  /** The rectangle cut for a run: a strip of columns of the full height, or
      a band of rows of the full width. */
  function RunRect(axis: Axis, run: Run, width: int, height: int): Rect
  {
    if axis == Columns then ColumnRect(run, height) else RowRect(run, width)
  }

  /** list holds the crops of b, one per run along the axis, each of
      positive size. */
  ghost predicate Strips(list: seq<UnmanagedImage>, b: UnmanagedImage, axis: Axis, runs: seq<Run>)
    requires b.Valid()
    reads set k | 0 <= k < |list| :: list[k].data, b.data
  {
    |list| == |runs|
    && (forall k :: 0 <= k < |runs| ==>
          RunRect(axis, runs[k], b.width, b.height).width > 0 && RunRect(axis, runs[k], b.width, b.height).height > 0)
    && forall k {:trigger CropFilter.IsCrop(list[k], b, RunRect(axis, runs[k], b.width, b.height))} :: 0 <= k < |runs| ==>
         CropFilter.IsCrop(list[k], b, RunRect(axis, runs[k], b.width, b.height))
  }

  lemma StripsGrow(list: seq<UnmanagedImage>, b: UnmanagedImage, axis: Axis, runs: seq<Run>, img: UnmanagedImage, run: Run)
    requires b.Valid() && Strips(list, b, axis, runs)
    requires RunRect(axis, run, b.width, b.height).width > 0 && RunRect(axis, run, b.width, b.height).height > 0
    requires CropFilter.IsCrop(img, b, RunRect(axis, run, b.width, b.height))
    ensures Strips(list + [img], b, axis, runs + [run])
  {
    var list', runs' := list + [img], runs + [run];
    forall k | 0 <= k < |runs|
      ensures CropFilter.IsCrop(list'[k], b, RunRect(axis, runs'[k], b.width, b.height))
    {
      assert list'[k] == list[k] && runs'[k] == runs[k];
    }
  }

  /** The run closed at line i is among the runs of the whole scan. */
  lemma HandedOn(counts: seq<int>, i: int, runs: seq<Run>, run: Run)
    requires 0 <= i < |counts| && ScanRuns(counts, i + 1).runs == runs + [run]
    ensures 0 <= |runs| < |Runs(counts)| && Runs(counts)[|runs|] == run
  {
    RunsGrow(counts, i + 1, |counts|);
  }

  /** new Crop(rect).Apply(b) on a readable image. */
  method CropTo(b: UnmanagedImage, rect: Rect) returns (r: Result<UnmanagedImage>)
    requires b.Valid() && IsReadable(b.format)
    ensures r.Fail? <==> rect.width <= 0 || rect.height <= 0
    ensures r.Fail? ==> r.error == InvalidImageProperties
    ensures r.Ok? ==> fresh(r.value.data) && CropFilter.IsCrop(r.value, b, rect)
  {
    r := CropFilter.Apply(rect, b);
  }

  // ---------------------------------------------------------------- Crop_X

  /** The runs of rows Crop_X cuts a strip into. */
  ghost function Bands(segb: UnmanagedImage): seq<Run>
    requires segb.Valid() && IsReadable(segb.format)
    reads segb.data
  {
    Tall(Runs(Counts(segb.Layout(), segb.data[..], Rows)))
  }

  /** One strip of Main.Crop_X: a band of the full width per run of rows
      whose last line lies below its first. Crop never fails here. */
  method CropRows(segb: UnmanagedImage) returns (bands: seq<UnmanagedImage>)
    requires segb.Valid() && IsReadable(segb.format)
    ensures Strips(bands, segb, Rows, Bands(segb))
  {
    var rows := CountRows(segb);
    ghost var counts := rows[..];
    bands := CutBands(segb, rows);
    assert counts == rows[..] == Counts(segb.Layout(), segb.data[..], Rows);
  }

  /** The second loop of Crop_X, over the row counts. */
  method CutBands(segb: UnmanagedImage, rows: array<int>) returns (bands: seq<UnmanagedImage>)
    requires segb.Valid() && IsReadable(segb.format)
    ensures Strips(bands, segb, Rows, Tall(Runs(rows[..])))
  {
    ghost var counts := rows[..];
    ghost var runs: seq<Run> := [];
    bands := [];
    var bottom, top := 0, 0;
    for y := 0 to rows.Length
      invariant Scan(top, bottom, runs) == ScanRuns(counts, y)
      invariant Strips(bands, segb, Rows, Tall(runs))
    {
      if rows[y] > 0 || (y + 1 < rows.Length && rows[y + 1] > 0) {
        if top == 0 {
          top := y;
        } else {
          bottom := y;
        }
      } else {
        if top > 0 || bottom > 0 {
          TallStep(runs, (top, bottom));
        }
        if (top > 0 || bottom > 0) && bottom - top > 0 {
          var small := CropTo(segb, RowRect((top, bottom), segb.width));
          StripsGrow(bands, segb, Rows, Tall(runs), small.value, (top, bottom));
          bands := bands + [small.value];
        }
        if top > 0 || bottom > 0 {
          runs := runs + [(top, bottom)];
        }
        top, bottom := 0, 0;
      }
    }
  }


  /** The pieces of all strips, strip by strip. */
  function Concat<T>(xss: seq<seq<T>>): seq<T>
  {
    if |xss| == 0 then [] else Concat(xss[..|xss| - 1]) + xss[|xss| - 1]
  }

  /** Main.Crop_X: every strip cut into its bands, in order; bands[i] are the
      pieces of strip i. */
  method CropX(list: seq<UnmanagedImage>) returns (corplist: seq<UnmanagedImage>, ghost bands: seq<seq<UnmanagedImage>>)
    requires forall i :: 0 <= i < |list| ==> list[i].Valid() && IsReadable(list[i].format)
    ensures corplist == Concat(bands) && AllBands(bands, list)
  {
    corplist, bands := [], [];
    for i := 0 to |list|
      invariant |bands| == i && corplist == Concat(bands)
      invariant AllBands(bands, list[..i])
    {
      var pieces := CropRows(list[i]);
      AllBandsGrow(bands, list[..i], pieces, list[i]);
      assert list[..i + 1] == list[..i] + [list[i]];
      assert (bands + [pieces])[..i] == bands;
      corplist, bands := corplist + pieces, bands + [pieces];
    }
    assert list[..|list|] == list;
  }

  /** bands[i] are the bands of strip i. */
  ghost predicate AllBands(bands: seq<seq<UnmanagedImage>>, list: seq<UnmanagedImage>)
    requires forall i :: 0 <= i < |list| ==> list[i].Valid() && IsReadable(list[i].format)
    reads set i, k | 0 <= i < |bands| && 0 <= k < |bands[i]| :: bands[i][k].data
    reads set i | 0 <= i < |list| :: list[i].data
  {
    |bands| == |list|
    && forall i {:trigger Strips(bands[i], list[i], Rows, Bands(list[i]))} :: 0 <= i < |list| ==> Strips(bands[i], list[i], Rows, Bands(list[i]))
  }

  lemma AllBandsGrow(bands: seq<seq<UnmanagedImage>>, list: seq<UnmanagedImage>, pieces: seq<UnmanagedImage>, segb: UnmanagedImage)
    requires forall i :: 0 <= i < |list| ==> list[i].Valid() && IsReadable(list[i].format)
    requires segb.Valid() && IsReadable(segb.format)
    requires AllBands(bands, list) && Strips(pieces, segb, Rows, Bands(segb))
    ensures AllBands(bands + [pieces], list + [segb])
  {
    var bands', list' := bands + [pieces], list + [segb];
    forall i | 0 <= i < |list|
      ensures Strips(bands'[i], list'[i], Rows, Bands(list'[i]))
    {
      assert bands'[i] == bands[i] && list'[i] == list[i];
    }
  }
}
