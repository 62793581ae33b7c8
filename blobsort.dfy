// BlobsSorter (AForgeCore.cs): the comparer ProcessImage hands to List.Sort
// when an ObjectsOrder is set. The sort itself is modelled by an insertion
// sort that promises what List.Sort promises: the result is ordered by the
// comparer and is a permutation of the input. Nothing is promised about the
// relative order of blobs the comparer calls equal.

module BlobSort {
  import opened BlobInfo

  /** ObjectsOrder. */
  datatype ObjectsOrder = None | Size | Area | YX | XY

  /** BlobsSorter.Compare: negative when a goes first. Size and area sort
      descending; YX and XY sort ascending by a combined key. */
  function Compare(order: ObjectsOrder, a: Blob, b: Blob): int
  {
    match order
    case Size => b.rect.width * b.rect.height - a.rect.width * a.rect.height
    case Area => b.area - a.area
    case YX => (a.rect.y * 100000 + a.rect.x) - (b.rect.y * 100000 + b.rect.x)
    case XY => (a.rect.x * 100000 + a.rect.y) - (b.rect.x * 100000 + b.rect.y)
    case None => 0
  }

  /** The number each order ranks a blob by, smallest first. */
  function Key(order: ObjectsOrder, b: Blob): int
  {
    match order
    case Size => -(b.rect.width * b.rect.height)
    case Area => -b.area
    case YX => b.rect.y * 100000 + b.rect.x
    case XY => b.rect.x * 100000 + b.rect.y
    case None => 0
  }

  /** The comparer is the difference of the ranking keys; hence it is
      antisymmetric and transitive, a total preorder the sort can rely on. */
  lemma CompareIsKeyDifference(order: ObjectsOrder, a: Blob, b: Blob)
    ensures Compare(order, a, b) == Key(order, a) - Key(order, b)
    ensures Compare(order, a, b) == -Compare(order, b, a)
  {
  }

  lemma CompareTransitive(order: ObjectsOrder, a: Blob, b: Blob, c: Blob)
    requires Compare(order, a, b) <= 0 && Compare(order, b, c) <= 0
    ensures Compare(order, a, c) <= 0
  {
    CompareIsKeyDifference(order, a, b);
    CompareIsKeyDifference(order, b, c);
    CompareIsKeyDifference(order, a, c);
  }

  /** Every blob goes no later than the ones after it. */
  predicate Sorted(order: ObjectsOrder, s: seq<Blob>)
  {
    forall i, j :: 0 <= i < j < |s| ==> Compare(order, s[i], s[j]) <= 0
  }

  /** Under YX order, blobs end up by rows: a blob whose rectangle starts on
      a higher row comes first (for x below 100000). */
  lemma YXRowsFirst(s: seq<Blob>, i: int, j: int)
    requires Sorted(YX, s) && 0 <= i < |s| && 0 <= j < |s|
    requires forall b :: b in s ==> 0 <= b.rect.x < 100000
    requires s[i].rect.y < s[j].rect.y
    ensures i < j
  {
    assert Compare(YX, s[i], s[j]) < 0;
  }

  /** Under Size order, a blob with a strictly larger rectangle comes first. */
  lemma SizeLargerFirst(s: seq<Blob>, i: int, j: int)
    requires Sorted(Size, s) && 0 <= i < |s| && 0 <= j < |s|
    requires s[i].rect.width * s[i].rect.height > s[j].rect.width * s[j].rect.height
    ensures i < j
  {
    assert Compare(Size, s[i], s[j]) < 0;
  }

  /** List.Sort(new BlobsSorter(order)): ordered, and the same blobs. */
  method SortBlobs(order: ObjectsOrder, blobs: seq<Blob>) returns (r: seq<Blob>)
    ensures Sorted(order, r) && multiset(r) == multiset(blobs)
  {
    r := blobs;
    if |r| == 0 {
      return;
    }
    var i := 1;
    while i < |r|
      invariant 1 <= i <= |r| && multiset(r) == multiset(blobs)
      invariant Sorted(order, r[..i])
    {
      r := Insert(order, r, i);
      i := i + 1;
    }
    assert r[..|r|] == r;
  }

  /** While r[j] moves left within r[..i + 1]: every pair not involving
      position j is in order, and r[j] goes no later than what follows it. */
  predicate Pending(order: ObjectsOrder, r: seq<Blob>, i: int, j: int)
    requires 0 <= j <= i < |r|
  {
    (forall a, b :: 0 <= a < b <= i && a != j && b != j ==> Compare(order, r[a], r[b]) <= 0)
    && (forall b :: j < b <= i ==> Compare(order, r[j], r[b]) <= 0)
  }

  function Swap(r: seq<Blob>, j: int): seq<Blob>
    requires 0 < j < |r|
  {
    r[j - 1 := r[j]][j := r[j - 1]]
  }

  lemma SwapStep(order: ObjectsOrder, r: seq<Blob>, i: int, j: int)
    requires 0 < j <= i < |r| && Pending(order, r, i, j) && Compare(order, r[j - 1], r[j]) > 0
    ensures Pending(order, Swap(r, j), i, j - 1)
  {
    CompareIsKeyDifference(order, r[j - 1], r[j]);
    var r' := Swap(r, j);
    forall a, b | 0 <= a < b <= i && a != j - 1 && b != j - 1
      ensures Compare(order, r'[a], r'[b]) <= 0
    {
      var a0 := if a == j then j - 1 else a;
      var b0 := if b == j then j - 1 else b;
      assert r'[a] == r[a0] && r'[b] == r[b0] && a0 < b0;
    }
    forall b | j - 1 < b <= i
      ensures Compare(order, r'[j - 1], r'[b]) <= 0
    {
      if b == j {
        assert r'[b] == r[j - 1];
      } else {
        assert r'[b] == r[b];
      }
    }
  }

  lemma SwapSame(r: seq<Blob>, i: int, j: int)
    requires 0 < j <= i < |r|
    ensures multiset(Swap(r, j)) == multiset(r) && Swap(r, j)[i + 1..] == r[i + 1..]
  {
    assert Swap(r, j) == r[..j - 1] + [r[j], r[j - 1]] + r[j + 1..];
    assert r == r[..j - 1] + [r[j - 1], r[j]] + r[j + 1..];
  }

  lemma PendingDone(order: ObjectsOrder, r: seq<Blob>, i: int, j: int)
    requires 0 <= j <= i < |r| && Pending(order, r, i, j)
    requires j == 0 || Compare(order, r[j - 1], r[j]) <= 0
    ensures Sorted(order, r[..i + 1])
  {
    forall a, b | 0 <= a < b <= i
      ensures Compare(order, r[a], r[b]) <= 0
    {
      if b == j && a < j - 1 {
        CompareTransitive(order, r[a], r[j - 1], r[j]);
      }
    }
  }

  /** One insertion step: r[i] moves left past every blob that should follow it. */
  method Insert(order: ObjectsOrder, r: seq<Blob>, i: int) returns (r': seq<Blob>)
    requires 0 <= i < |r| && Sorted(order, r[..i])
    ensures |r'| == |r| && multiset(r') == multiset(r) && Sorted(order, r'[..i + 1])
    ensures r'[i + 1..] == r[i + 1..]
  {
    r' := r;
    var j := i;
    assert Pending(order, r', i, j) by {
      assert forall a :: 0 <= a < i ==> r[a] == r[..i][a];
    }
    while j > 0 && Compare(order, r'[j - 1], r'[j]) > 0
      invariant 0 <= j <= i && |r'| == |r| && multiset(r') == multiset(r) && r'[i + 1..] == r[i + 1..]
      invariant Pending(order, r', i, j)
    {
      SwapStep(order, r', i, j);
      SwapSame(r', i, j);
      r' := Swap(r', j);
      j := j - 1;
    }
    PendingDone(order, r', i, j);
  }
}
