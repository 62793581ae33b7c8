// The edge queries of BlobCounterBase (AForgeCore.cs): for every row of a
// blob's rectangle the first pixel carrying the blob's id seen from the left
// and from the right, for every column the first one seen from the top and
// from the bottom, and GetBlobsEdgePoints, which merges the four scans and
// skips points already listed for the same row.

module BlobEdges {
  import opened Arith
  import opened Imaging

  /** Index of the first cell of row y in a w-wide map, y * w, counted up
      row by row so that the scans reason about it additively. */
  function RowStart(w: int, y: nat): (s: int)
    ensures w >= 0 ==> s >= 0
  {
    if y == 0 then 0 else RowStart(w, y - 1) + w
  }

  lemma {:induction false} RowStartIsProduct(w: int, y: nat)
    ensures RowStart(w, y) == y * w
  {
    if y > 0 {
      RowStartIsProduct(w, y - 1);
    }
  }

  /** Point pt names a cell of the object map F of a w-wide image. */
  predicate InMap(F: seq<int>, w: int, pt: IntPoint)
  {
    0 <= pt.x < w && 0 <= pt.y && RowStart(w, pt.y) + pt.x < |F|
  }

  function Label(F: seq<int>, w: int, pt: IntPoint): int
    requires InMap(F, w, pt)
  {
    F[RowStart(w, pt.y) + pt.x]
  }

  /** The rectangle covers whole cells of the map: the indices the scans
      compute stay inside it and never wrap into another row. */
  predicate Fits(F: seq<int>, w: int, r: Rect)
  {
    w > 0 && 0 <= r.x && 0 <= r.y && 0 <= r.width && 0 <= r.height
    && r.x + r.width <= w && RowStart(w, r.y + r.height) <= |F|
  }

  /** The four scan directions: along row i from the left or the right, down
      or up column i. */
  datatype Side = FromLeft | FromRight | FromTop | FromBottom

  /** How many lines a side scans: rows for left and right, columns for top
      and bottom. */
  function Lines(r: Rect, side: Side): int
  {
    if side == FromLeft || side == FromRight then r.height else r.width
  }

  /** Line i of a side, in scan order. */
  function Line(r: Rect, side: Side, i: int): (line: seq<IntPoint>)
    requires 0 <= r.width && 0 <= r.height && 0 <= i < Lines(r, side)
    ensures |line| == (if side == FromLeft || side == FromRight then r.width else r.height)
    ensures forall k :: 0 <= k < |line| ==> r.Contains(line[k].x, line[k].y) && Across(r, side, line[k]) == i
  {
    match side
    case FromLeft => seq(r.width, k => IntPoint(r.x + k, r.y + i))
    case FromRight => seq(r.width, k => IntPoint(r.x + r.width - 1 - k, r.y + i))
    case FromTop => seq(r.height, k => IntPoint(r.x + i, r.y + k))
    case FromBottom => seq(r.height, k => IntPoint(r.x + i, r.y + r.height - 1 - k))
  }

  lemma ContainedInMap(F: seq<int>, w: int, r: Rect, pt: IntPoint)
    requires Fits(F, w, r) && r.Contains(pt.x, pt.y)
    ensures InMap(F, w, pt)
  {
    RowStartIsProduct(w, pt.y + 1);
    RowStartIsProduct(w, r.y + r.height);
    MulLe(pt.y + 1, r.y + r.height, w);
  }

  lemma LineInMap(F: seq<int>, w: int, r: Rect, side: Side, i: int)
    requires Fits(F, w, r) && 0 <= i < Lines(r, side)
    ensures forall k :: 0 <= k < |Line(r, side, i)| ==> InMap(F, w, Line(r, side, i)[k])
  {
    forall k | 0 <= k < |Line(r, side, i)|
      ensures InMap(F, w, Line(r, side, i)[k])
    {
      ContainedInMap(F, w, r, Line(r, side, i)[k]);
    }
  }

  /** Position of the first point of a line labelled id (|line| if none). */
  function FirstIndex(F: seq<int>, w: int, id: int, line: seq<IntPoint>): (k: int)
    requires forall j :: 0 <= j < |line| ==> InMap(F, w, line[j])
    ensures 0 <= k <= |line|
    ensures forall j :: 0 <= j < k ==> Label(F, w, line[j]) != id
    ensures k < |line| ==> Label(F, w, line[k]) == id
    decreases |line|
  {
    if line == [] then 0
    else if Label(F, w, line[0]) == id then 0
    else 1 + FirstIndex(F, w, id, line[1..])
  }

  /** The point one scan finds, if any. */
  function Hit(F: seq<int>, w: int, id: int, r: Rect, side: Side, i: int): (o: Option<IntPoint>)
    requires Fits(F, w, r) && 0 <= i < Lines(r, side)
    ensures o.Some? ==> r.Contains(o.value.x, o.value.y) && Across(r, side, o.value) == i
    ensures o.Some? ==> InMap(F, w, o.value) && Label(F, w, o.value) == id
  {
    LineInMap(F, w, r, side, i);
    var line := Line(r, side, i);
    var k := FirstIndex(F, w, id, line);
    if k < |line| then Some(line[k]) else None
  }

  function Listed(o: Option<IntPoint>): seq<IntPoint>
  {
    if o.Some? then [o.value] else []
  }

  /** What every scan of a side finds, line by line. */
  function Hits(F: seq<int>, w: int, id: int, r: Rect, side: Side): (hs: seq<Option<IntPoint>>)
    requires Fits(F, w, r)
    ensures |hs| == Lines(r, side) && forall i :: 0 <= i < |hs| ==> hs[i] == Hit(F, w, id, r, side, i)
  {
    seq(Lines(r, side), i requires 0 <= i < Lines(r, side) => Hit(F, w, id, r, side, i))
  }

  /** The points found, in scan order. */
  function Listing(hs: seq<Option<IntPoint>>): seq<IntPoint>
  {
    if hs == [] then [] else Listing(hs[..|hs| - 1]) + Listed(hs[|hs| - 1])
  }

  lemma {:induction false} ListingMembers(hs: seq<Option<IntPoint>>, pt: IntPoint)
    ensures pt in Listing(hs) <==> exists i :: 0 <= i < |hs| && hs[i] == Some(pt)
  {
    if hs != [] {
      var front := hs[..|hs| - 1];
      ListingMembers(front, pt);
      if pt in Listing(hs) && pt !in Listing(front) {
        assert hs[|hs| - 1] == Some(pt);
      }
      if exists i :: 0 <= i < |hs| && hs[i] == Some(pt) {
        var i :| 0 <= i < |hs| && hs[i] == Some(pt);
        if i < |hs| - 1 {
          assert front[i] == Some(pt);
        }
      }
    }
  }

  lemma ListingStep(hs: seq<Option<IntPoint>>, i: int)
    requires 0 <= i < |hs|
    ensures Listing(hs[..i + 1]) == Listing(hs[..i]) + Listed(hs[i])
  {
    assert hs[..i + 1][..i] == hs[..i];
  }

  /** The edge a side's scans produce: the first blob pixel of every line of
      the rectangle that has one, in line order. */
  function Edge(F: seq<int>, w: int, id: int, r: Rect, side: Side): seq<IntPoint>
    requires Fits(F, w, r)
  {
    Listing(Hits(F, w, id, r, side))
  }

  /** q comes before pt on pt's scan line. */
  predicate Before(side: Side, q: IntPoint, pt: IntPoint)
  {
    match side
    case FromLeft => q.y == pt.y && q.x < pt.x
    case FromRight => q.y == pt.y && q.x > pt.x
    case FromTop => q.x == pt.x && q.y < pt.y
    case FromBottom => q.x == pt.x && q.y > pt.y
  }

  /** The index of line i whose point is pt, when pt is on it. */
  function Along(r: Rect, side: Side, pt: IntPoint): int
  {
    match side
    case FromLeft => pt.x - r.x
    case FromRight => r.x + r.width - 1 - pt.x
    case FromTop => pt.y - r.y
    case FromBottom => r.y + r.height - 1 - pt.y
  }

  /** The line of a side that pt lies on. */
  function Across(r: Rect, side: Side, pt: IntPoint): int
  {
    if side == FromLeft || side == FromRight then pt.y - r.y else pt.x - r.x
  }

  lemma OnLine(r: Rect, side: Side, pt: IntPoint)
    requires 0 <= r.width && 0 <= r.height && r.Contains(pt.x, pt.y)
    ensures 0 <= Across(r, side, pt) < Lines(r, side)
    ensures 0 <= Along(r, side, pt) < |Line(r, side, Across(r, side, pt))|
    ensures Line(r, side, Across(r, side, pt))[Along(r, side, pt)] == pt
  {
  }

  /** A scan finds pt exactly when pt is a pixel of the blob inside the
      rectangle and no pixel of the blob comes before it on its line. */
  lemma HitIsFirst(F: seq<int>, w: int, id: int, r: Rect, side: Side, pt: IntPoint)
    requires Fits(F, w, r) && r.Contains(pt.x, pt.y)
    ensures InMap(F, w, pt)
    ensures Hit(F, w, id, r, side, Across(r, side, pt)) == Some(pt) <==>
      Label(F, w, pt) == id
      && forall q: IntPoint :: r.Contains(q.x, q.y) && Before(side, q, pt) ==> InMap(F, w, q) && Label(F, w, q) != id
  {
    ContainedInMap(F, w, r, pt);
    OnLine(r, side, pt);
    var i := Across(r, side, pt);
    LineInMap(F, w, r, side, i);
    var line := Line(r, side, i);
    var k := FirstIndex(F, w, id, line);
    var a := Along(r, side, pt);
    if Hit(F, w, id, r, side, i) == Some(pt) {
      assert line[k] == pt && k == a;
      forall q: IntPoint | r.Contains(q.x, q.y) && Before(side, q, pt)
        ensures InMap(F, w, q) && Label(F, w, q) != id
      {
        OnLine(r, side, q);
        assert line[Along(r, side, q)] == q;
      }
    } else if Label(F, w, pt) == id {
      assert k <= a;
      var q := line[k];
      assert Before(side, q, pt) || q == pt;
    }
  }

  /** The edge of a side is exactly the set of first pixels of the blob on
      the lines of the rectangle. */
  lemma EdgeIsFirstPixels(F: seq<int>, w: int, id: int, r: Rect, side: Side, pt: IntPoint)
    requires Fits(F, w, r)
    ensures pt in Edge(F, w, id, r, side) <==>
      r.Contains(pt.x, pt.y) && InMap(F, w, pt) && Label(F, w, pt) == id
      && forall q: IntPoint :: r.Contains(q.x, q.y) && Before(side, q, pt) ==> InMap(F, w, q) && Label(F, w, q) != id
  {
    var hs := Hits(F, w, id, r, side);
    ListingMembers(hs, pt);
    if r.Contains(pt.x, pt.y) {
      HitIsFirst(F, w, id, r, side, pt);
      OnLine(r, side, pt);
      assert hs[Across(r, side, pt)] == Hit(F, w, id, r, side, Across(r, side, pt));
    }
  }

  // ------------------------------------------------------------ the scans

  /** Where line i of a side starts, and the step between its points. */
  function Start(r: Rect, side: Side, i: int): IntPoint
  {
    match side
    case FromLeft => IntPoint(r.x, r.y + i)
    case FromRight => IntPoint(r.x + r.width - 1, r.y + i)
    case FromTop => IntPoint(r.x + i, r.y)
    case FromBottom => IntPoint(r.x + i, r.y + r.height - 1)
  }

  function Dx(side: Side): int { if side == FromLeft then 1 else if side == FromRight then -1 else 0 }
  function Dy(side: Side): int { if side == FromTop then 1 else if side == FromBottom then -1 else 0 }

  /** Point j + 1 of a line is point j moved by (dx, dy). */
  predicate Stepped(line: seq<IntPoint>, j: int, dx: int, dy: int)
    requires 0 <= j && j + 1 < |line|
  {
    line[j + 1] == IntPoint(line[j].x + dx, line[j].y + dy)
  }

  /** Every line starts at Start and moves by (Dx, Dy) from point to point. */
  lemma LineWalk(r: Rect, side: Side, i: int)
    requires 0 <= r.width && 0 <= r.height && 0 <= i < Lines(r, side)
    ensures |Line(r, side, i)| > 0 ==> Line(r, side, i)[0] == Start(r, side, i)
    ensures forall j :: 0 <= j && j + 1 < |Line(r, side, i)| ==> Stepped(Line(r, side, i), j, Dx(side), Dy(side))
  {
  }

  /** A scan that has passed k points without a match and looks at point k:
      a match there is the first one, and no match moves the bound on. */
  lemma FirstIndexStep(F: seq<int>, w: int, id: int, line: seq<IntPoint>, k: int)
    requires forall j :: 0 <= j < |line| ==> InMap(F, w, line[j])
    requires 0 <= k <= FirstIndex(F, w, id, line)
    ensures k < |line| && Label(F, w, line[k]) == id ==> FirstIndex(F, w, id, line) == k
    ensures k < |line| && Label(F, w, line[k]) != id ==> k + 1 <= FirstIndex(F, w, id, line)
    ensures k == |line| ==> FirstIndex(F, w, id, line) == k
  {
  }

  /** Moving a cell by one row down or up, or by one column, moves its map
      index by w, by -w, or by dx. */
  lemma IndexStep(w: int, x: int, y: int, dx: int, dy: int)
    requires 0 <= y && 0 <= y + dy && -1 <= dy <= 1 && (dy != 0 ==> dx == 0)
    ensures RowStart(w, y) + x + (if dy == 1 then w else if dy == -1 then -w else dx) == RowStart(w, y + dy) + (x + dx)
  {
  }

  /** The map index of cell (x, y). */
  method CellIndex(w: int, x: int, y: int) returns (p: int)
    ensures y >= 0 ==> p == RowStart(w, y) + x
  {
    if y >= 0 {
      RowStartIsProduct(w, y);
    }
    p := y * w + x;
  }

  /** One inner loop: walk line i of a side, map index and coordinates
      advancing together, and stop at the first pixel labelled id. */
  method FirstOnLine(labels: seq<int>, w: int, id: int, r: Rect, side: Side, i: int) returns (hit: Option<IntPoint>)
    requires Fits(labels, w, r) && 0 <= i < Lines(r, side)
    ensures hit == Hit(labels, w, id, r, side, i)
  {
    LineInMap(labels, w, r, side, i);
    LineWalk(r, side, i);
    var start := Start(r, side, i);
    var n := if side == FromLeft || side == FromRight then r.width else r.height;
    hit := Walk(labels, w, id, Line(r, side, i), n, start.x, start.y, Dx(side), Dy(side));
  }

  /** The walk itself, over a line of n map cells from (x0, y0) on, each
      (dx, dy) from the one before. */
  method Walk(labels: seq<int>, w: int, id: int, ghost line: seq<IntPoint>, n: int, x0: int, y0: int, dx: int, dy: int)
    returns (hit: Option<IntPoint>)
    requires n == |line| && forall j :: 0 <= j < |line| ==> InMap(labels, w, line[j])
    requires n > 0 ==> line[0] == IntPoint(x0, y0)
    requires forall j :: 0 <= j && j + 1 < |line| ==> Stepped(line, j, dx, dy)
    requires -1 <= dy <= 1 && (dy != 0 ==> dx == 0)
    ensures hit == if FirstIndex(labels, w, id, line) < n then Some(line[FirstIndex(labels, w, id, line)]) else None
  {
    var x, y := x0, y0;
    var step := if dy == 1 then w else if dy == -1 then -w else dx;
    var p := CellIndex(w, x, y);
    var k := 0;
    while k < n
      invariant 0 <= k <= n
      invariant k < n ==> IntPoint(x, y) == line[k] && p == RowStart(w, y) + x
      invariant k <= FirstIndex(labels, w, id, line)
    {
      FirstIndexStep(labels, w, id, line, k);
      if labels[p] == id {
        return Some(IntPoint(x, y));
      }
      if k + 1 < n {
        assert Stepped(line, k, dx, dy);
        IndexStep(w, x, y, dx, dy);
      }
      x, y, p, k := x + dx, y + dy, p + step, k + 1;
    }
    FirstIndexStep(labels, w, id, line, k);
    return None;
  }

  /** GetBlobsLeftAndRightEdges for a processed map: per row, top to bottom,
      the first pixel from the left and the first from the right. */
  method LeftAndRightEdges(labels: seq<int>, w: int, id: int, r: Rect) returns (left: seq<IntPoint>, right: seq<IntPoint>)
    requires Fits(labels, w, r)
    ensures left == Edge(labels, w, id, r, FromLeft)
    ensures right == Edge(labels, w, id, r, FromRight)
  {
    left, right := [], [];
    var i := 0;
    while i < r.height
      invariant 0 <= i <= r.height
      invariant left == Listing(Hits(labels, w, id, r, FromLeft)[..i])
      invariant right == Listing(Hits(labels, w, id, r, FromRight)[..i])
    {
      ListingStep(Hits(labels, w, id, r, FromLeft), i);
      ListingStep(Hits(labels, w, id, r, FromRight), i);
      var a := FirstOnLine(labels, w, id, r, FromLeft, i);
      left := left + Listed(a);
      var b := FirstOnLine(labels, w, id, r, FromRight, i);
      right := right + Listed(b);
      i := i + 1;
    }
    assert Hits(labels, w, id, r, FromLeft)[..r.height] == Hits(labels, w, id, r, FromLeft);
    assert Hits(labels, w, id, r, FromRight)[..r.height] == Hits(labels, w, id, r, FromRight);
  }

  /** GetBlobsTopAndBottomEdges for a processed map: per column, left to
      right, the first pixel from the top and the first from the bottom. */
  method TopAndBottomEdges(labels: seq<int>, w: int, id: int, r: Rect) returns (top: seq<IntPoint>, bottom: seq<IntPoint>)
    requires Fits(labels, w, r)
    ensures top == Edge(labels, w, id, r, FromTop)
    ensures bottom == Edge(labels, w, id, r, FromBottom)
  {
    top, bottom := [], [];
    var i := 0;
    while i < r.width
      invariant 0 <= i <= r.width
      invariant top == Listing(Hits(labels, w, id, r, FromTop)[..i])
      invariant bottom == Listing(Hits(labels, w, id, r, FromBottom)[..i])
    {
      ListingStep(Hits(labels, w, id, r, FromTop), i);
      ListingStep(Hits(labels, w, id, r, FromBottom), i);
      var a := FirstOnLine(labels, w, id, r, FromTop, i);
      top := top + Listed(a);
      var b := FirstOnLine(labels, w, id, r, FromBottom, i);
      bottom := bottom + Listed(b);
      i := i + 1;
    }
    assert Hits(labels, w, id, r, FromTop)[..r.width] == Hits(labels, w, id, r, FromTop);
    assert Hits(labels, w, id, r, FromBottom)[..r.width] == Hits(labels, w, id, r, FromBottom);
  }

  // ------------------------------------------------------------ all edge points

  /** What the processed-points arrays hold for a row: the column found, or
      the 0 the array starts with. */
  function Recorded(o: Option<IntPoint>): int
  {
    if o.Some? then o.value.x else 0
  }

  /** The processed-points array filled from a side's hits. */
  function Records(hs: seq<Option<IntPoint>>): (rec: seq<int>)
    ensures |rec| == |hs| && forall j :: 0 <= j < |hs| ==> rec[j] == Recorded(hs[j])
  {
    seq(|hs|, j requires 0 <= j < |hs| => Recorded(hs[j]))
  }

  /** The row part of GetBlobsEdgePoints from the left and right hits of the
      rows: each row's left point, then its right point unless it is in the
      column the left scan recorded. */
  function RowPoints(lh: seq<Option<IntPoint>>, rh: seq<Option<IntPoint>>): seq<IntPoint>
    requires |lh| == |rh|
  {
    if lh == [] then []
    else
      var n := |lh| - 1;
      RowPoints(lh[..n], rh[..n]) + Listed(lh[n])
      + (if rh[n].Some? && rh[n].value.x != Recorded(lh[n]) then [rh[n].value] else [])
  }

  /** One more row of the row part. */
  lemma RowPointsStep(lh: seq<Option<IntPoint>>, rh: seq<Option<IntPoint>>, i: int, points: seq<IntPoint>, chunk: seq<IntPoint>)
    requires |lh| == |rh| && 0 <= i < |lh| && points == RowPoints(lh[..i], rh[..i])
    requires chunk == Listed(lh[i]) + (if rh[i].Some? && rh[i].value.x != Recorded(lh[i]) then [rh[i].value] else [])
    ensures points + chunk == RowPoints(lh[..i + 1], rh[..i + 1])
  {
    assert lh[..i + 1][..i] == lh[..i];
    assert rh[..i + 1][..i] == rh[..i];
  }

  /** A column point is added unless its row recorded its column, on the
      left or on the right. */
  function ColumnPoint(r: Rect, lefts: seq<int>, rights: seq<int>, o: Option<IntPoint>): seq<IntPoint>
  {
    if o.None? then []
    else
      var row := o.value.y - r.y;
      if 0 <= row < |lefts| && 0 <= row < |rights| && lefts[row] != o.value.x && rights[row] != o.value.x
      then [o.value] else []
  }

  /** The column part from the top and bottom hits of the columns: top point,
      then bottom point, column by column. */
  function ColumnPoints(r: Rect, lefts: seq<int>, rights: seq<int>,
                        th: seq<Option<IntPoint>>, bh: seq<Option<IntPoint>>): seq<IntPoint>
    requires |th| == |bh|
  {
    if th == [] then []
    else
      var n := |th| - 1;
      ColumnPoints(r, lefts, rights, th[..n], bh[..n])
      + ColumnPoint(r, lefts, rights, th[n]) + ColumnPoint(r, lefts, rights, bh[n])
  }

  lemma ColumnPointsStep(r: Rect, lefts: seq<int>, rights: seq<int>,
                         th: seq<Option<IntPoint>>, bh: seq<Option<IntPoint>>, j: int)
    requires |th| == |bh| && 0 <= j < |th|
    ensures ColumnPoints(r, lefts, rights, th[..j + 1], bh[..j + 1])
         == ColumnPoints(r, lefts, rights, th[..j], bh[..j])
            + ColumnPoint(r, lefts, rights, th[j]) + ColumnPoint(r, lefts, rights, bh[j])
  {
    assert th[..j + 1][..j] == th[..j];
    assert bh[..j + 1][..j] == bh[..j];
  }

  /** GetBlobsEdgePoints: the row part, then the column part. */
  function EdgePoints(F: seq<int>, w: int, id: int, r: Rect): seq<IntPoint>
    requires Fits(F, w, r)
  {
    var lh := Hits(F, w, id, r, FromLeft);
    var rh := Hits(F, w, id, r, FromRight);
    RowPoints(lh, rh)
    + ColumnPoints(r, Records(lh), Records(rh), Hits(F, w, id, r, FromTop), Hits(F, w, id, r, FromBottom))
  }

  /** GetBlobsEdgePoints for a processed map. */
  method EdgePointsOf(labels: seq<int>, w: int, id: int, r: Rect) returns (points: seq<IntPoint>)
    requires Fits(labels, w, r)
    ensures points == EdgePoints(labels, w, id, r)
  {
    var leftProcessed, rightProcessed;
    points, leftProcessed, rightProcessed := RowScans(labels, w, id, r);
    points := ColumnScans(labels, w, id, r, leftProcessed[..], rightProcessed[..], points);
  }

  /** The row loop of GetBlobsEdgePoints, which also fills the arrays of
      processed left and right columns. */
  method RowScans(labels: seq<int>, w: int, id: int, r: Rect)
    returns (points: seq<IntPoint>, leftProcessed: array<int>, rightProcessed: array<int>)
    requires Fits(labels, w, r)
    ensures fresh(leftProcessed) && fresh(rightProcessed)
    ensures points == RowPoints(Hits(labels, w, id, r, FromLeft), Hits(labels, w, id, r, FromRight))
    ensures leftProcessed[..] == Records(Hits(labels, w, id, r, FromLeft))
    ensures rightProcessed[..] == Records(Hits(labels, w, id, r, FromRight))
  {
    leftProcessed := new int[r.height](_ => 0);
    rightProcessed := new int[r.height](_ => 0);
    points := [];
    var i := 0;
    assert leftProcessed[..] == Zeros(r.height) && rightProcessed[..] == Zeros(r.height);
    while i < r.height
      invariant RowsDone(Hits(labels, w, id, r, FromLeft), Hits(labels, w, id, r, FromRight), i, points,
                         leftProcessed[..], rightProcessed[..])
    {
      points := RowStep(labels, w, id, r, i, leftProcessed, rightProcessed, points);
      i := i + 1;
    }
    assert Hits(labels, w, id, r, FromLeft)[..r.height] == Hits(labels, w, id, r, FromLeft);
    assert Hits(labels, w, id, r, FromRight)[..r.height] == Hits(labels, w, id, r, FromRight);
  }

  /** The state of the row loop after i rows, for the left and right scans'
      hits lh and rh. */
  predicate RowsDone(lh: seq<Option<IntPoint>>, rh: seq<Option<IntPoint>>, i: int, points: seq<IntPoint>,
                     lefts: seq<int>, rights: seq<int>)
  {
    |lh| == |rh| && 0 <= i <= |lh|
    && points == RowPoints(lh[..i], rh[..i])
    && lefts == Records(lh[..i]) + Zeros(|lh| - i)
    && rights == Records(rh[..i]) + Zeros(|lh| - i)
  }

  /** One pass of the row loop. */
  method RowStep(labels: seq<int>, w: int, id: int, r: Rect, i: int, leftProcessed: array<int>, rightProcessed: array<int>,
                 points: seq<IntPoint>) returns (points': seq<IntPoint>)
    requires Fits(labels, w, r) && i < r.height && leftProcessed != rightProcessed
    requires leftProcessed.Length == r.height && rightProcessed.Length == r.height
    requires RowsDone(Hits(labels, w, id, r, FromLeft), Hits(labels, w, id, r, FromRight), i, points,
                      leftProcessed[..], rightProcessed[..])
    modifies leftProcessed, rightProcessed
    ensures RowsDone(Hits(labels, w, id, r, FromLeft), Hits(labels, w, id, r, FromRight), i + 1, points',
                     leftProcessed[..], rightProcessed[..])
  {
    ghost var lefts, rights := leftProcessed[..], rightProcessed[..];
    RowsDoneUnwritten(Hits(labels, w, id, r, FromLeft), Hits(labels, w, id, r, FromRight), i, points, lefts, rights);
    assert leftProcessed[i] == lefts[i] && rightProcessed[i] == rights[i];
    var chunk, a, b := RowScan(labels, w, id, r, i, leftProcessed, rightProcessed);
    RowsDoneStep(Hits(labels, w, id, r, FromLeft), Hits(labels, w, id, r, FromRight), i, points, lefts, rights,
                 chunk, leftProcessed[..], rightProcessed[..]);
    points' := points + chunk;
  }

  lemma RowsDoneUnwritten(lh: seq<Option<IntPoint>>, rh: seq<Option<IntPoint>>, i: int, points: seq<IntPoint>,
                          lefts: seq<int>, rights: seq<int>)
    requires RowsDone(lh, rh, i, points, lefts, rights) && i < |lh|
    ensures |lefts| == |rights| == |lh| && lefts[i] == 0 && rights[i] == 0
  {
  }

  lemma RowsDoneStep(lh: seq<Option<IntPoint>>, rh: seq<Option<IntPoint>>, i: int, points: seq<IntPoint>,
                     lefts: seq<int>, rights: seq<int>, chunk: seq<IntPoint>, lefts': seq<int>, rights': seq<int>)
    requires RowsDone(lh, rh, i, points, lefts, rights) && i < |lh|
    requires lefts' == lefts[i := Recorded(lh[i])] && rights' == rights[i := Recorded(rh[i])]
    requires chunk == Listed(lh[i]) + (if rh[i].Some? && rh[i].value.x != Recorded(lh[i]) then [rh[i].value] else [])
    ensures RowsDone(lh, rh, i + 1, points + chunk, lefts', rights')
  {
    RowPointsStep(lh, rh, i, points, chunk);
    RecordsStep(lh, i, lefts, lefts');
    RecordsStep(rh, i, rights, rights');
  }

  /** n zeros: the part of a processed-points array not yet written. */
  function Zeros(n: nat): (z: seq<int>)
    ensures |z| == n && forall j :: 0 <= j < n ==> z[j] == 0
  {
    seq(n, _ => 0)
  }

  /** Recording one more row in a processed-points array. */
  lemma RecordsStep(hs: seq<Option<IntPoint>>, i: int, before: seq<int>, after: seq<int>)
    requires 0 <= i < |hs| && before == Records(hs[..i]) + Zeros(|hs| - i)
    requires after == before[i := Recorded(hs[i])]
    ensures after == Records(hs[..i + 1]) + Zeros(|hs| - i - 1)
  {
  }

  /** One row: the left scan's point, recorded; then the right scan's point,
      recorded, and added unless the left scan recorded its column. */
  method RowScan(labels: seq<int>, w: int, id: int, r: Rect, i: int, leftProcessed: array<int>, rightProcessed: array<int>)
    returns (chunk: seq<IntPoint>, a: Option<IntPoint>, b: Option<IntPoint>)
    requires Fits(labels, w, r) && 0 <= i < r.height && leftProcessed != rightProcessed
    requires leftProcessed.Length == r.height && rightProcessed.Length == r.height
    requires leftProcessed[i] == 0 && rightProcessed[i] == 0
    modifies leftProcessed, rightProcessed
    ensures a == Hit(labels, w, id, r, FromLeft, i) && b == Hit(labels, w, id, r, FromRight, i)
    ensures leftProcessed[..] == old(leftProcessed[..])[i := Recorded(a)]
    ensures rightProcessed[..] == old(rightProcessed[..])[i := Recorded(b)]
    ensures chunk == Listed(a) + (if b.Some? && b.value.x != Recorded(a) then [b.value] else [])
  {
    a := FirstOnLine(labels, w, id, r, FromLeft, i);
    if a.Some? {
      leftProcessed[i] := a.value.x;
    }
    b := FirstOnLine(labels, w, id, r, FromRight, i);
    chunk := Listed(a);
    if b.Some? {
      if leftProcessed[i] != b.value.x {
        chunk := chunk + [b.value];
      }
      rightProcessed[i] := b.value.x;
    }
  }

  /** The column loop of GetBlobsEdgePoints. */
  method ColumnScans(labels: seq<int>, w: int, id: int, r: Rect, leftProcessed: seq<int>, rightProcessed: seq<int>,
                     points: seq<IntPoint>) returns (points': seq<IntPoint>)
    requires Fits(labels, w, r)
    requires |leftProcessed| == r.height && |rightProcessed| == r.height
    ensures points' == points + ColumnPoints(r, leftProcessed, rightProcessed,
                                             Hits(labels, w, id, r, FromTop), Hits(labels, w, id, r, FromBottom))
  {
    points' := points;
    var j := 0;
    while j < r.width
      invariant 0 <= j <= r.width
      invariant points' == points + ColumnPoints(r, leftProcessed, rightProcessed,
                                                 Hits(labels, w, id, r, FromTop)[..j], Hits(labels, w, id, r, FromBottom)[..j])
    {
      var chunk := ColumnScan(labels, w, id, r, j, leftProcessed, rightProcessed);
      ColumnScansStep(r, leftProcessed, rightProcessed, Hits(labels, w, id, r, FromTop), Hits(labels, w, id, r, FromBottom),
                      j, points, points', chunk);
      points' := points' + chunk;
      j := j + 1;
    }
    assert Hits(labels, w, id, r, FromTop)[..r.width] == Hits(labels, w, id, r, FromTop);
    assert Hits(labels, w, id, r, FromBottom)[..r.width] == Hits(labels, w, id, r, FromBottom);
  }

  /** One more column of the column part. */
  lemma ColumnScansStep(r: Rect, lefts: seq<int>, rights: seq<int>, th: seq<Option<IntPoint>>, bh: seq<Option<IntPoint>>,
                        j: int, points: seq<IntPoint>, points': seq<IntPoint>, chunk: seq<IntPoint>)
    requires |th| == |bh| && 0 <= j < |th|
    requires points' == points + ColumnPoints(r, lefts, rights, th[..j], bh[..j])
    requires chunk == ColumnPoint(r, lefts, rights, th[j]) + ColumnPoint(r, lefts, rights, bh[j])
    ensures points' + chunk == points + ColumnPoints(r, lefts, rights, th[..j + 1], bh[..j + 1])
  {
    ColumnPointsStep(r, lefts, rights, th, bh, j);
  }

  /** One column: the top scan's point, then the bottom scan's, each unless
      its row recorded its column. */
  method ColumnScan(labels: seq<int>, w: int, id: int, r: Rect, j: int, leftProcessed: seq<int>, rightProcessed: seq<int>)
    returns (chunk: seq<IntPoint>)
    requires Fits(labels, w, r) && 0 <= j < r.width
    requires |leftProcessed| == r.height && |rightProcessed| == r.height
    ensures chunk == ColumnPoint(r, leftProcessed, rightProcessed, Hit(labels, w, id, r, FromTop, j))
                     + ColumnPoint(r, leftProcessed, rightProcessed, Hit(labels, w, id, r, FromBottom, j))
  {
    var a := FirstOnLine(labels, w, id, r, FromTop, j);
    var b := FirstOnLine(labels, w, id, r, FromBottom, j);
    chunk := ColumnPoint(r, leftProcessed, rightProcessed, a) + ColumnPoint(r, leftProcessed, rightProcessed, b);
  }
}
