// The filtering step of BlobCounterBase.ProcessImage (AForgeCore.cs): blobs
// that fail the size limits (or a user filter's Check) are removed from the
// list, walking it from the end; the surviving ids are renumbered densely in
// their old order, the object map follows, and the blobs get ids 1..N.

module BlobFilter {
  import opened Imaging
  import opened BlobInfo

  /** MinWidth, MinHeight, MaxWidth, MaxHeight and CoupledSizeFiltering. */
  datatype SizeLimits = SizeLimits(coupled: bool, minWidth: int, minHeight: int, maxWidth: int, maxHeight: int)

  /** The limits a new counter starts with: 1, 1, int.MaxValue, int.MaxValue, decoupled. */
  const DefaultLimits := SizeLimits(false, 1, 1, 0x7FFF_FFFF, 0x7FFF_FFFF)

  /** What decides a removal: the size limits when no IBlobsFilter is set,
      otherwise the filter's Check. */
  datatype Criterion = BySize(limits: SizeLimits) | ByCheck(check: Blob -> bool)

  /** Decoupled limits remove a blob when either side is out of range;
      coupled ones only when both sides are too small or both too large. */
  predicate Removed(c: Criterion, b: Blob)
  {
    match c
    case BySize(lim) =>
      var bw, bh := b.rect.width, b.rect.height;
      if !lim.coupled then
        bw < lim.minWidth || bh < lim.minHeight || bw > lim.maxWidth || bh > lim.maxHeight
      else
        (bw < lim.minWidth && bh < lim.minHeight) || (bw > lim.maxWidth && bh > lim.maxHeight)
    case ByCheck(check) => !check(b)
  }

  /** The blobs that survive, in their old order. */
  function Kept(c: Criterion, s: seq<Blob>): (r: seq<Blob>)
    ensures |r| <= |s|
  {
    if s == [] then [] else (if Removed(c, s[0]) then [] else [s[0]]) + Kept(c, s[1..])
  }

  lemma {:induction false} KeptAppend(c: Criterion, a: seq<Blob>, b: seq<Blob>)
    ensures Kept(c, a + b) == Kept(c, a) + Kept(c, b)
    decreases |a|
  {
    if a == [] {
      assert a + b == b;
    } else {
      var h := if Removed(c, a[0]) then [] else [a[0]];
      assert (a + b)[0] == a[0] && (a + b)[1..] == a[1..] + b;
      KeptAppend(c, a[1..], b);
      calc {
        Kept(c, a + b);
        h + Kept(c, a[1..] + b);
        h + (Kept(c, a[1..]) + Kept(c, b));
        (h + Kept(c, a[1..])) + Kept(c, b);
      }
    }
  }

  /** A blob survives exactly when it is kept, and the kept ones are the
      survivors in order: each kept blob is some input blob that passes. */
  lemma {:induction false} KeptMembers(c: Criterion, s: seq<Blob>)
    ensures forall b :: b in Kept(c, s) <==> b in s && !Removed(c, b)
    decreases |s|
  {
    if s != [] {
      KeptMembers(c, s[1..]);
      assert s == [s[0]] + s[1..];
    }
  }

  /** The new id of old id j (1-based): its rank among the survivors, or 0. */
  function NewId(c: Criterion, s: seq<Blob>, j: int): (r: int)
    requires 0 <= j <= |s|
    ensures 0 <= r <= |Kept(c, s)|
  {
    KeptPrefix(c, s, j);
    if j == 0 || Removed(c, s[j - 1]) then 0 else |Kept(c, s[..j])|
  }

  lemma KeptPrefix(c: Criterion, s: seq<Blob>, j: int)
    requires 0 <= j <= |s|
    ensures |Kept(c, s[..j])| <= |Kept(c, s)|
  {
    assert s == s[..j] + s[j..];
    KeptAppend(c, s[..j], s[j..]);
  }

  lemma KeptStep(c: Criterion, s: seq<Blob>, j: int)
    requires 0 <= j < |s|
    ensures Kept(c, s[..j + 1]) == Kept(c, s[..j]) + (if Removed(c, s[j]) then [] else [s[j]])
  {
    assert s[..j + 1] == s[..j] + [s[j]];
    KeptAppend(c, s[..j], [s[j]]);
    assert [s[j]][1..] == [];
  }

  /** A surviving old id j is the NewId(j)-th survivor, and distinct
      survivors get distinct new ids. */
  lemma NewIdLocates(c: Criterion, s: seq<Blob>, j: int)
    requires 1 <= j <= |s| && !Removed(c, s[j - 1])
    ensures 1 <= NewId(c, s, j) && Kept(c, s)[NewId(c, s, j) - 1] == s[j - 1]
  {
    KeptStep(c, s, j - 1);
    assert s == s[..j] + s[j..];
    KeptAppend(c, s[..j], s[j..]);
  }

  lemma {:induction false} NewIdIncreasing(c: Criterion, s: seq<Blob>, i: int, j: int)
    requires 1 <= i < j <= |s| && !Removed(c, s[i - 1]) && !Removed(c, s[j - 1])
    ensures NewId(c, s, i) < NewId(c, s, j)
    decreases j - i
  {
    KeptStep(c, s, j - 1);
    if i < j - 1 {
      KeptPrefix(c, s[..j - 1], i);
      assert s[..j - 1][..i] == s[..i];
    }
  }

  /** Every new id 1..N belongs to some surviving old id. */
  lemma {:induction false} NewIdOnto(c: Criterion, s: seq<Blob>, k: int) returns (j: int)
    requires 1 <= k <= |Kept(c, s)|
    ensures 1 <= j <= |s| && !Removed(c, s[j - 1]) && NewId(c, s, j) == k
    decreases |s|
  {
    var n := |s|;
    assert s[..n] == s;
    KeptStep(c, s, n - 1);
    if k <= |Kept(c, s[..n - 1])| {
      j := NewIdOnto(c, s[..n - 1], k);
      assert s[..n - 1][..j] == s[..j];
    } else {
      j := n;
    }
  }

  // ------------------------------------------------------------ the step

  /** The removal loop: from the last blob down to the first, a blob that
      fails is marked 0 in the label table and removed from the list. */
  method RemoveFailing(c: Criterion, blobs: seq<Blob>) returns (kept: seq<Blob>, table: seq<int>, removed: int)
    ensures kept == Kept(c, blobs)
    ensures removed == |blobs| - |kept|
    ensures |table| == |blobs| + 1 && table[0] == 0
    ensures forall j :: 1 <= j <= |blobs| ==> table[j] == (if Removed(c, blobs[j - 1]) then 0 else j)
  {
    var count := |blobs|;
    table := seq(count + 1, i => i);
    kept := blobs;
    removed := 0;
    var i := count - 1;
    RemovingStart(c, blobs, table);
    while i >= 0
      invariant Removing(c, blobs, i, kept, table, removed)
    {
      RemovingFront(c, blobs, i, kept, table, removed);
      if Removed(c, kept[i]) {
        RemovingDrop(c, blobs, i, kept, table, removed);
        table := table[i + 1 := 0];
        removed := removed + 1;
        kept := kept[..i] + kept[i + 1..];
      } else {
        RemovingKeep(c, blobs, i, kept, table, removed);
      }
      i := i - 1;
    }
    RemovingDone(c, blobs, kept, table, removed);
  }

  lemma RemovingStart(c: Criterion, blobs: seq<Blob>, table: seq<int>)
    requires |table| == |blobs| + 1 && forall j :: 0 <= j < |table| ==> table[j] == j
    ensures Removing(c, blobs, |blobs| - 1, blobs, table, 0)
  {
    assert blobs[|blobs|..] == [] && blobs[..|blobs|] == blobs;
  }

  lemma RemovingDone(c: Criterion, blobs: seq<Blob>, kept: seq<Blob>, table: seq<int>, removed: int)
    requires Removing(c, blobs, -1, kept, table, removed)
    ensures kept == Kept(c, blobs) && removed == |blobs| - |kept|
    ensures |table| == |blobs| + 1 && table[0] == 0
    ensures forall j :: 1 <= j <= |blobs| ==> table[j] == (if Removed(c, blobs[j - 1]) then 0 else j)
  {
    assert blobs[0..] == blobs;
  }

  /** The state of the removal loop once blobs i + 1 .. have been looked at. */
  predicate Removing(c: Criterion, blobs: seq<Blob>, i: int, kept: seq<Blob>, table: seq<int>, removed: int)
  {
    -1 <= i < |blobs| && |table| == |blobs| + 1 && table[0] == 0
    && kept == blobs[..i + 1] + Kept(c, blobs[i + 1..])
    && removed == (|blobs| - i - 1) - |Kept(c, blobs[i + 1..])|
    && forall j :: 1 <= j <= |blobs| ==> table[j] == (if j > i + 1 && Removed(c, blobs[j - 1]) then 0 else j)
  }

  /** One pass of the removal loop looks at blob i, still in place. */
  lemma RemovingFront(c: Criterion, blobs: seq<Blob>, i: int, kept: seq<Blob>, table: seq<int>, removed: int)
    requires Removing(c, blobs, i, kept, table, removed) && 0 <= i
    ensures i < |kept| && kept[i] == blobs[i]
  {
  }

  /** A failing blob is marked 0 and dropped from the list. */
  lemma RemovingDrop(c: Criterion, blobs: seq<Blob>, i: int, kept: seq<Blob>, table: seq<int>, removed: int)
    requires Removing(c, blobs, i, kept, table, removed) && 0 <= i && Removed(c, blobs[i])
    ensures Removing(c, blobs, i - 1, kept[..i] + kept[i + 1..], table[i + 1 := 0], removed + 1)
  {
    KeptFront(c, blobs, i);
    assert kept[..i] + kept[i + 1..] == blobs[..i] + Kept(c, blobs[i + 1..]);
  }

  /** A passing blob stays. */
  lemma RemovingKeep(c: Criterion, blobs: seq<Blob>, i: int, kept: seq<Blob>, table: seq<int>, removed: int)
    requires Removing(c, blobs, i, kept, table, removed) && 0 <= i && !Removed(c, blobs[i])
    ensures Removing(c, blobs, i - 1, kept, table, removed)
  {
    KeptFront(c, blobs, i);
    assert blobs[..i + 1] == blobs[..i] + [blobs[i]];
  }

  lemma KeptFront(c: Criterion, s: seq<Blob>, i: int)
    requires 0 <= i < |s|
    ensures Kept(c, s[i..]) == (if Removed(c, s[i]) then [] else [s[i]]) + Kept(c, s[i + 1..])
  {
    assert s[i..][1..] == s[i + 1..];
  }

  /** The renumbering loop: the survivors' entries become 1, 2, ... in order. */
  method Renumber(c: Criterion, blobs: seq<Blob>, table: seq<int>) returns (table': seq<int>)
    requires |table| == |blobs| + 1 && table[0] == 0
    requires forall j :: 1 <= j <= |blobs| ==> table[j] == (if Removed(c, blobs[j - 1]) then 0 else j)
    ensures |table'| == |table| && forall j :: 0 <= j <= |blobs| ==> table'[j] == NewId(c, blobs, j)
  {
    table' := table;
    var l := 0;
    var i := 1;
    while i <= |blobs|
      invariant 1 <= i <= |blobs| + 1 && |table'| == |table| && l == |Kept(c, blobs[..i - 1])|
      invariant forall j :: 0 <= j < i ==> table'[j] == NewId(c, blobs, j)
      invariant forall j :: i <= j <= |blobs| ==> table'[j] == table[j]
    {
      KeptStep(c, blobs, i - 1);
      if table'[i] != 0 {
        l := l + 1;
        table' := table'[i := l];
      }
      i := i + 1;
    }
  }

  /** The blobs renumbered 1..N in list order. */
  function Renamed(s: seq<Blob>): (r: seq<Blob>)
    ensures |r| == |s| && forall k :: 0 <= k < |s| ==> r[k] == s[k].(id := k + 1)
  {
    seq(|s|, k requires 0 <= k < |s| => s[k].(id := k + 1))
  }

  /** The last loop of the filtering step: every blob's ID set to its
      position plus one. */
  method SetIds(blobs: seq<Blob>) returns (blobs': seq<Blob>)
    ensures blobs' == Renamed(blobs)
  {
    blobs' := blobs;
    var i := 0;
    while i < |blobs'|
      invariant 0 <= i <= |blobs'| == |blobs|
      invariant forall k :: 0 <= k < i ==> blobs'[k] == blobs[k].(id := k + 1)
      invariant forall k :: i <= k < |blobs| ==> blobs'[k] == blobs[k]
    {
      blobs' := blobs'[i := blobs'[i].(id := i + 1)];
      i := i + 1;
    }
  }

  // ------------------------------------------------------------ meaning

  /** The object map after the filtering step. */
  function Filtered(c: Criterion, blobs: seq<Blob>, F: seq<int>): (F': seq<int>)
    requires forall q :: 0 <= q < |F| ==> 0 <= F[q] <= |blobs|
    ensures |F'| == |F|
  {
    seq(|F|, q requires 0 <= q < |F| => NewId(c, blobs, F[q]))
  }

  /** After filtering, a pixel keeps an object exactly when its old object
      passed, and then its new id names the same blob in the new list. */
  lemma FilteredPixels(c: Criterion, blobs: seq<Blob>, F: seq<int>, q: int)
    requires forall q :: 0 <= q < |F| ==> 0 <= F[q] <= |blobs|
    requires 0 <= q < |F|
    ensures var k := Filtered(c, blobs, F)[q];
      0 <= k <= |Kept(c, blobs)|
      && (k == 0 <==> F[q] == 0 || Removed(c, blobs[F[q] - 1]))
      && (k != 0 ==> Renamed(Kept(c, blobs))[k - 1] == blobs[F[q] - 1].(id := k))
  {
    if F[q] != 0 && !Removed(c, blobs[F[q] - 1]) {
      NewIdLocates(c, blobs, F[q]);
    }
  }

  /** Two pixels share a new id exactly when they shared a surviving old one. */
  lemma FilteredSameId(c: Criterion, blobs: seq<Blob>, i: int, j: int)
    requires 1 <= i <= |blobs| && 1 <= j <= |blobs| && !Removed(c, blobs[i - 1]) && !Removed(c, blobs[j - 1])
    ensures NewId(c, blobs, i) == NewId(c, blobs, j) <==> i == j
  {
    if i < j {
      NewIdIncreasing(c, blobs, i, j);
    } else if j < i {
      NewIdIncreasing(c, blobs, j, i);
    }
  }

  /** The geometry of the new list is still the geometry of the new map: the
      pixels of new id k are exactly those of the old id it came from. */
  lemma {:induction false} ScanRenamed(F: seq<int>, G: seq<int>, w: int, h: int, a: int, b: int, k: int)
    requires w > 0 && |F| == |G| && 0 <= k <= |F|
    requires forall q :: 0 <= q < |F| ==> (G[q] == b <==> F[q] == a)
    ensures Scan(G, w, h, b, k) == Scan(F, w, h, a, k)
  {
    if k > 0 {
      ScanRenamed(F, G, w, h, a, b, k - 1);
    }
  }

  /** The blob list describes the object map: blob k is the scan of id k + 1. */
  predicate Describe(blobs: seq<Blob>, F: seq<int>, w: int, h: int)
    requires w > 0
  {
    forall k :: 0 <= k < |blobs| ==> blobs[k] == BlobOf(k + 1, Scan(F, w, h, k + 1, |F|))
  }

  /** Filtering keeps the blob list describing the object map. */
  lemma FilteredDescribe(c: Criterion, blobs: seq<Blob>, F: seq<int>, w: int, h: int)
    requires w > 0 && Describe(blobs, F, w, h)
    requires forall q :: 0 <= q < |F| ==> 0 <= F[q] <= |blobs|
    ensures Describe(Renamed(Kept(c, blobs)), Filtered(c, blobs, F), w, h)
  {
    var G := Filtered(c, blobs, F);
    var r := Renamed(Kept(c, blobs));
    forall k | 0 <= k < |r|
      ensures r[k] == BlobOf(k + 1, Scan(G, w, h, k + 1, |G|))
    {
      FilteredDescribeAt(c, blobs, F, w, h, k);
    }
  }

  /** Survivor k is the blob its new id k + 1 collects from the new map. */
  lemma FilteredDescribeAt(c: Criterion, blobs: seq<Blob>, F: seq<int>, w: int, h: int, k: int)
    requires w > 0 && Describe(blobs, F, w, h)
    requires forall q :: 0 <= q < |F| ==> 0 <= F[q] <= |blobs|
    requires 0 <= k < |Kept(c, blobs)|
    ensures |Filtered(c, blobs, F)| == |F|
    ensures Renamed(Kept(c, blobs))[k] == BlobOf(k + 1, Scan(Filtered(c, blobs, F), w, h, k + 1, |F|))
  {
    var j := NewIdOnto(c, blobs, k + 1);
    NewIdLocates(c, blobs, j);
    FilteredPixelsOf(c, blobs, F, j);
    ScanRenamed(F, Filtered(c, blobs, F), w, h, j, k + 1, |F|);
  }

  /** The pixels of a surviving old id j are exactly those of its new id. */
  lemma FilteredPixelsOf(c: Criterion, blobs: seq<Blob>, F: seq<int>, j: int)
    requires forall q :: 0 <= q < |F| ==> 0 <= F[q] <= |blobs|
    requires 1 <= j <= |blobs| && !Removed(c, blobs[j - 1])
    ensures forall q :: 0 <= q < |F| ==> (Filtered(c, blobs, F)[q] == NewId(c, blobs, j) <==> F[q] == j)
  {
    NewIdLocates(c, blobs, j);
    forall q | 0 <= q < |F|
      ensures Filtered(c, blobs, F)[q] == NewId(c, blobs, j) <==> F[q] == j
    {
      if F[q] != 0 && !Removed(c, blobs[F[q] - 1]) {
        FilteredSameId(c, blobs, F[q], j);
      }
    }
  }

  /** The limits PreProcess uses, 1 x 1 up to the image size, decoupled,
      remove nothing from an image's blobs: every bounding box fits. */
  lemma ImageSizedLimitsKeepAll(blobs: seq<Blob>, w: int, h: int)
    requires forall b :: b in blobs ==> 1 <= b.rect.width <= w && 1 <= b.rect.height <= h
    ensures Kept(BySize(SizeLimits(false, 1, 1, w, h)), blobs) == blobs
  {
    KeptAll(BySize(SizeLimits(false, 1, 1, w, h)), blobs);
  }

  /** When no blob fails, the filtering step leaves the object map as it was. */
  lemma NothingRemovedKeepsMap(c: Criterion, blobs: seq<Blob>, F: seq<int>)
    requires forall q :: 0 <= q < |F| ==> 0 <= F[q] <= |blobs|
    requires forall b :: b in blobs ==> !Removed(c, b)
    ensures Filtered(c, blobs, F) == F
  {
    forall q | 0 <= q < |F|
      ensures Filtered(c, blobs, F)[q] == F[q]
    {
      var j := F[q];
      if j > 0 {
        assert blobs[j - 1] in blobs;
        KeptAll(c, blobs[..j]);
      }
    }
  }

  lemma {:induction false} KeptAll(c: Criterion, s: seq<Blob>)
    requires forall b :: b in s ==> !Removed(c, b)
    ensures Kept(c, s) == s
    decreases |s|
  {
    if s != [] {
      KeptAll(c, s[1..]);
      assert s == [s[0]] + s[1..];
    }
  }
}
