// BlobCounterBase.CollectObjectsInfo (AForgeCore.cs): one scan of the object
// map that keeps, for every object id, the smallest and largest column and
// row it occurs in and the number of its pixels, and then turns those into
// the list of blobs, in id order.

module BlobInfo {
  import opened Arith
  import opened Imaging

  /** A blob as the core uses it: its id, its bounding rectangle and its
      pixel count. */
  datatype Blob = Blob(id: int, rect: Rect, area: int)

  /** The five accumulators of one id: x1 and y1 start at the image width and
      height, x2 and y2 at 0, the area at 0. */
  datatype Extent = Extent(x1: int, y1: int, x2: int, y2: int, area: int)

  function Fresh(w: int, h: int): Extent
  {
    Extent(w, h, 0, 0, 0)
  }

  /** One more pixel (x, y) of the id. */
  function Extend(e: Extent, x: int, y: int): Extent
  {
    Extent(if x < e.x1 then x else e.x1, if y < e.y1 then y else e.y1,
           if x > e.x2 then x else e.x2, if y > e.y2 then y else e.y2, e.area + 1)
  }

  /** The accumulators of id j after the first k pixels of the object map. */
  function Scan(F: seq<int>, w: int, h: int, j: int, k: int): Extent
    requires w > 0 && 0 <= k <= |F|
  {
    if k == 0 then Fresh(w, h)
    else
      var e := Scan(F, w, h, j, k - 1);
      if F[k - 1] == j then Extend(e, (k - 1) % w, (k - 1) / w) else e
  }

  /** The pixels among the first k that carry id j. */
  function Pixels(F: seq<int>, j: int, k: int): set<int>
    requires 0 <= k <= |F|
  {
    set q | 0 <= q < k && F[q] == j
  }

  /** The blob CollectObjectsInfo makes of id j's accumulators. */
  function BlobOf(j: int, e: Extent): Blob
  {
    Blob(j, Rect(e.x1, e.y1, e.x2 - e.x1 + 1, e.y2 - e.y1 + 1), e.area)
  }

  /** The accumulators describe the pixels of id j seen so far: the area is
      their number, every one lies inside [x1, x2] x [y1, y2], and each of
      the four bounds is reached by one of them. */
  predicate Describes(F: seq<int>, w: int, h: int, j: int, k: int, e: Extent)
    requires w > 0 && 0 <= k <= |F|
  {
    e.area == |Pixels(F, j, k)|
    && (forall q :: q in Pixels(F, j, k) ==> e.x1 <= q % w <= e.x2 && e.y1 <= q / w <= e.y2)
    && (e.area == 0 ==> e == Fresh(w, h))
    && (e.area > 0 ==>
          (exists q :: q in Pixels(F, j, k) && q % w == e.x1)
          && (exists q :: q in Pixels(F, j, k) && q % w == e.x2)
          && (exists q :: q in Pixels(F, j, k) && q / w == e.y1)
          && (exists q :: q in Pixels(F, j, k) && q / w == e.y2))
  }

  lemma PixelsStep(F: seq<int>, j: int, k: int)
    requires 0 < k <= |F|
    ensures Pixels(F, j, k) == Pixels(F, j, k - 1) + (if F[k - 1] == j then {k - 1} else {})
    ensures k - 1 !in Pixels(F, j, k - 1)
  {
  }

  lemma {:induction false} ScanArea(F: seq<int>, w: int, h: int, j: int, k: int)
    requires w > 0 && 0 <= k <= |F|
    ensures Scan(F, w, h, j, k).area == |Pixels(F, j, k)|
    ensures Scan(F, w, h, j, k).area == 0 ==> Scan(F, w, h, j, k) == Fresh(w, h)
  {
    if k == 0 {
      assert Pixels(F, j, 0) == {};
    } else {
      ScanArea(F, w, h, j, k - 1);
      PixelsStep(F, j, k);
    }
  }

  lemma {:induction false} ScanBounds(F: seq<int>, w: int, h: int, j: int, k: int)
    requires w > 0 && 0 <= k <= |F| <= w * h
    ensures var e := Scan(F, w, h, j, k);
      forall q :: q in Pixels(F, j, k) ==> e.x1 <= q % w <= e.x2 && e.y1 <= q / w <= e.y2
  {
    if k > 0 {
      ScanBounds(F, w, h, j, k - 1);
      BoundsStep(F, w, h, j, k);
    }
  }

  /** One more pixel keeps every pixel of id j inside the accumulated bounds. */
  lemma BoundsStep(F: seq<int>, w: int, h: int, j: int, k: int)
    requires w > 0 && 0 < k <= |F| <= w * h
    requires var e := Scan(F, w, h, j, k - 1);
      forall q :: q in Pixels(F, j, k - 1) ==> e.x1 <= q % w <= e.x2 && e.y1 <= q / w <= e.y2
    ensures var e := Scan(F, w, h, j, k);
      forall q :: q in Pixels(F, j, k) ==> e.x1 <= q % w <= e.x2 && e.y1 <= q / w <= e.y2
  {
    PixelsStep(F, j, k);
    var e, e' := Scan(F, w, h, j, k - 1), Scan(F, w, h, j, k);
    if F[k - 1] == j {
      ScanArea(F, w, h, j, k - 1);
      DivMod(k - 1, w);
      RowOfBelow(k - 1, h, w);
      assert e' == Extend(e, (k - 1) % w, (k - 1) / w);
      forall q | q in Pixels(F, j, k)
        ensures e'.x1 <= q % w <= e'.x2 && e'.y1 <= q / w <= e'.y2
      {
        if q != k - 1 {
          assert q in Pixels(F, j, k - 1);
        }
      }
    } else {
      assert e' == e;
    }
  }

  lemma {:induction false} ScanReached(F: seq<int>, w: int, h: int, j: int, k: int)
    requires w > 0 && 0 <= k <= |F| <= w * h
    ensures var e := Scan(F, w, h, j, k);
      e.area > 0 ==>
        (exists q :: q in Pixels(F, j, k) && q % w == e.x1)
        && (exists q :: q in Pixels(F, j, k) && q % w == e.x2)
        && (exists q :: q in Pixels(F, j, k) && q / w == e.y1)
        && (exists q :: q in Pixels(F, j, k) && q / w == e.y2)
  {
    if k > 0 {
      ScanReached(F, w, h, j, k - 1);
      ScanArea(F, w, h, j, k - 1);
      PixelsStep(F, j, k);
      var q := k - 1;
      var e := Scan(F, w, h, j, q);
      if F[q] == j {
        assert q in Pixels(F, j, k);
        if e.area > 0 {
          var a :| a in Pixels(F, j, q) && a % w == e.x1;
          var b :| b in Pixels(F, j, q) && b % w == e.x2;
          var c :| c in Pixels(F, j, q) && c / w == e.y1;
          var d :| d in Pixels(F, j, q) && d / w == e.y2;
          assert a in Pixels(F, j, k) && b in Pixels(F, j, k) && c in Pixels(F, j, k) && d in Pixels(F, j, k);
        }
      }
    }
  }

  lemma ScanDescribes(F: seq<int>, w: int, h: int, j: int, k: int)
    requires w > 0 && 0 <= k <= |F| <= w * h
    ensures Describes(F, w, h, j, k, Scan(F, w, h, j, k))
  {
    ScanArea(F, w, h, j, k);
    ScanBounds(F, w, h, j, k);
    ScanReached(F, w, h, j, k);
  }

  /** The whole object map's blob of id j is the exact bounding box of its
      pixels, and its area is their number. */
  lemma BlobIsBoundingBox(F: seq<int>, w: int, h: int, j: int)
    requires w > 0 && |F| == w * h && Pixels(F, j, |F|) != {}
    ensures var b := BlobOf(j, Scan(F, w, h, j, |F|));
      b.id == j && b.area == |Pixels(F, j, |F|)| && b.area >= 1 && b.rect.width >= 1 && b.rect.height >= 1
      && (forall q :: 0 <= q < |F| ==> (F[q] == j ==> b.rect.Contains(q % w, q / w)))
      && (exists q :: q in Pixels(F, j, |F|) && q % w == b.rect.x)
      && (exists q :: q in Pixels(F, j, |F|) && q % w == b.rect.x + b.rect.width - 1)
      && (exists q :: q in Pixels(F, j, |F|) && q / w == b.rect.y)
      && (exists q :: q in Pixels(F, j, |F|) && q / w == b.rect.y + b.rect.height - 1)
  {
    ScanDescribes(F, w, h, j, |F|);
    var e := Scan(F, w, h, j, |F|);
    var q :| q in Pixels(F, j, |F|);
    assert e.x1 <= q % w <= e.x2 && e.y1 <= q / w <= e.y2;
    forall q | 0 <= q < |F| && F[q] == j
      ensures BlobOf(j, e).rect.Contains(q % w, q / w)
    {
      assert q in Pixels(F, j, |F|);
    }
  }

  /** A blob with pixels lies inside the image. */
  lemma BlobInside(F: seq<int>, w: int, h: int, j: int)
    requires w > 0 && |F| == w * h && Pixels(F, j, |F|) != {}
    ensures BlobOf(j, Scan(F, w, h, j, |F|)).rect.Within(Rect(0, 0, w, h))
  {
    BlobIsBoundingBox(F, w, h, j);
    var b := BlobOf(j, Scan(F, w, h, j, |F|));
    var a :| a in Pixels(F, j, |F|) && a % w == b.rect.x;
    var c :| c in Pixels(F, j, |F|) && c % w == b.rect.x + b.rect.width - 1;
    var d :| d in Pixels(F, j, |F|) && d / w == b.rect.y;
    var e :| e in Pixels(F, j, |F|) && e / w == b.rect.y + b.rect.height - 1;
    CellOf(a, w, h);
    CellOf(c, w, h);
    CellOf(d, w, h);
    CellOf(e, w, h);
  }

  // ------------------------------------------------------------ the scan

  /** Id k labels some pixel. */
  ghost predicate Occurs(labels: seq<int>, k: int)
  {
    exists q :: 0 <= q < |labels| && labels[q] == k
  }

  /** CollectObjectsInfo: the accumulators of every id over all pixels, row
      by row, then one blob per id 1..count in id order. Every id labels
      some pixel: for one that did not, the source's colour means would
      divide by an area of 0. */
  method CollectObjectsInfo(labels: array<int>, w: int, h: int, count: int) returns (blobs: seq<Blob>)
    requires w > 0 && h > 0 && labels.Length == w * h && count >= 0
    requires forall q :: 0 <= q < labels.Length ==> 0 <= labels[q] <= count
    requires forall k :: 1 <= k <= count ==> Occurs(labels[..], k)
    ensures |blobs| == count
    ensures forall j :: 0 <= j < count ==> blobs[j] == BlobOf(j + 1, Scan(labels[..], w, h, j + 1, labels.Length))
  {
    var acc := seq(count + 1, _ => Fresh(w, h));
    var y := 0;
    while y < h
      invariant 0 <= y <= h && |acc| == count + 1
      invariant forall j :: 1 <= j <= count ==> acc[j] == Scan(labels[..], w, h, j, y * w)
    {
      acc := CollectRow(labels, w, h, count, acc, y);
      y := y + 1;
    }
    blobs := [];
    var j := 1;
    while j <= count
      invariant 1 <= j <= count + 1 && |blobs| == j - 1
      invariant forall i :: 0 <= i < j - 1 ==> blobs[i] == BlobOf(i + 1, acc[i + 1])
    {
      blobs := blobs + [BlobOf(j, acc[j])];
      j := j + 1;
    }
  }

  /** The pixels of row y, left to right. */
  method CollectRow(labels: array<int>, w: int, h: int, count: int, acc: seq<Extent>, y: int) returns (acc': seq<Extent>)
    requires w > 0 && 0 <= y < h && labels.Length == w * h && |acc| == count + 1
    requires forall q :: 0 <= q < labels.Length ==> 0 <= labels[q] <= count
    requires forall j :: 1 <= j <= count ==> acc[j] == Scan(labels[..], w, h, j, y * w)
    ensures |acc'| == count + 1
    ensures forall j :: 1 <= j <= count ==> acc'[j] == Scan(labels[..], w, h, j, (y + 1) * w)
  {
    MulLe(y + 1, h, w);
    assert (y + 1) * w == y * w + w;
    acc' := acc;
    var x := 0;
    while x < w
      invariant 0 <= x <= w && |acc'| == count + 1
      invariant forall j :: 1 <= j <= count ==> acc'[j] == Scan(labels[..], w, h, j, y * w + x)
    {
      var i := y * w + x;
      DivModOfOffset(y, x, w);
      var l := labels[i];
      if l != 0 {
        acc' := acc'[l := Extend(acc'[l], x, y)];
      }
      x := x + 1;
    }
  }
}
