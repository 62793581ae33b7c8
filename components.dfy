// The second stage of BlobCounter.BuildObjectsMap (AForgeCore.cs): the roots
// of the union-find map are numbered 1, 2, ... in increasing order, every
// label is replaced by its root's number, and the result is the object map.
// The lemmas here state what that map means: its ids are exactly the
// 8-connected components of the foreground.

module Components {
  import opened Arith
  import opened UnionFind
  import opened Labelling

  /** The number of roots among labels 1..i: the id the remap gives root i. */
  function Roots(m: seq<int>, i: int): (k: nat)
    requires 0 <= i < |m|
    ensures k <= i
  {
    if i == 0 then 0 else Roots(m, i - 1) + (if m[i] == i then 1 else 0)
  }

  lemma {:induction false} RootsMonotone(m: seq<int>, i: int, j: int)
    requires 0 <= i <= j < |m|
    ensures Roots(m, i) <= Roots(m, j)
    decreases j
  {
    if i < j {
      RootsMonotone(m, i, j - 1);
    }
  }

  /** Roots get distinct ids, larger roots larger ones, and never 0. */
  lemma RootsIncrease(m: seq<int>, i: int, j: int)
    requires 0 <= i < j < |m| && m[j] == j
    ensures Roots(m, i) < Roots(m, j)
  {
    RootsMonotone(m, i, j - 1);
  }

  /** Every id from 1 up to the number of roots is some root's. */
  lemma {:induction false} RootsOnto(m: seq<int>, i: int, k: int) returns (r: int)
    requires 0 <= i < |m| && 1 <= k <= Roots(m, i)
    ensures 1 <= r <= i && m[r] == r && Roots(m, r) == k
    decreases i
  {
    if k <= Roots(m, i - 1) {
      r := RootsOnto(m, i - 1, k);
    } else {
      r := i;
    }
  }

  /** The id the remap gives label l: its root's number. */
  function Id(m: seq<int>, n: int, l: int): (k: int)
    requires Flat(m, n) && 0 <= l <= n
    ensures 0 <= k <= Roots(m, n) && (k == 0 <==> l == 0)
  {
    RootsMonotone(m, m[l], n);
    if l == 0 then Roots(m, m[l])
    else RootsIncrease(m, 0, m[l]); Roots(m, m[l])
  }

  /** Two labels get the same id exactly when they are in one class. */
  lemma IdSameClass(m: seq<int>, n: int, i: int, j: int)
    requires Flat(m, n) && 0 <= i <= n && 0 <= j <= n
    ensures Id(m, n, i) == Id(m, n, j) <==> m[i] == m[j]
  {
    if m[i] < m[j] {
      RootsIncrease(m, m[i], m[j]);
    } else if m[j] < m[i] {
      RootsIncrease(m, m[j], m[i]);
    }
  }

  // ------------------------------------------------------------ the remap

  /** reMap: the roots numbered in increasing order, then every other label
      given its root's number; entry 0 stays 0. */
  method RemapTable(m: seq<int>, n: int) returns (ids: seq<int>, count: int)
    requires Flat(m, n)
    ensures count == Roots(m, n)
    ensures |ids| == n + 1 && forall l :: 0 <= l <= n ==> ids[l] == Id(m, n, l)
  {
    ids, count := NumberRoots(m, n);
    ids := FollowRoots(m, n, ids);
  }

  /** The first loop of the remap: root i gets the number of roots up to i. */
  method NumberRoots(m: seq<int>, n: int) returns (ids: seq<int>, count: int)
    requires Flat(m, n)
    ensures count == Roots(m, n) && |ids| == n + 1
    ensures forall l :: 0 <= l <= n && m[l] == l ==> ids[l] == Roots(m, l)
  {
    ids := seq(n + 1, _ => 0);
    count := 0;
    var i := 1;
    while i <= n
      invariant 1 <= i <= n + 1 && |ids| == n + 1 && count == Roots(m, i - 1)
      invariant ids[0] == 0
      invariant forall l :: 1 <= l < i && m[l] == l ==> ids[l] == Roots(m, l)
    {
      if m[i] == i {
        count := count + 1;
        ids := ids[i := count];
      }
      i := i + 1;
    }
  }

  /** The second loop of the remap: every other label copies its root's number. */
  method FollowRoots(m: seq<int>, n: int, ids: seq<int>) returns (ids': seq<int>)
    requires Flat(m, n) && |ids| == n + 1
    requires forall l :: 0 <= l <= n && m[l] == l ==> ids[l] == Roots(m, l)
    ensures |ids'| == n + 1 && forall l :: 0 <= l <= n ==> ids'[l] == Id(m, n, l)
  {
    ids' := ids;
    var i := 1;
    while i <= n
      invariant 1 <= i <= n + 1 && |ids'| == n + 1
      invariant forall l :: 0 <= l <= n && m[l] == l ==> ids'[l] == Roots(m, l)
      invariant forall l :: 0 <= l < i ==> ids'[l] == Roots(m, m[l])
    {
      if m[i] != i {
        ids' := ids'[i := ids'[m[i]]];
      }
      i := i + 1;
    }
  }

  /** The final loop: every pixel's label replaced by its id. */
  method Relabel(labels: array<int>, ids: seq<int>)
    requires forall q :: 0 <= q < labels.Length ==> 0 <= labels[q] < |ids|
    modifies labels
    ensures forall q :: 0 <= q < labels.Length ==> labels[q] == ids[old(labels[q])]
  {
    var q := 0;
    while q < labels.Length
      invariant 0 <= q <= labels.Length
      invariant forall k :: 0 <= k < q ==> labels[k] == ids[old(labels[k])]
      invariant forall k :: q <= k < labels.Length ==> labels[k] == old(labels[k])
    {
      labels[q] := ids[labels[q]];
      q := q + 1;
    }
  }

  /** The object map after the remap. */
  function Renumbered(L: seq<int>, m: seq<int>, n: int): (F: seq<int>)
    requires Flat(m, n) && forall q :: 0 <= q < |L| ==> 0 <= L[q] <= n
    ensures |F| == |L|
  {
    seq(|L|, q requires 0 <= q < |L| => Id(m, n, L[q]))
  }

  // ------------------------------------------------------------ meaning

  /** What BuildObjectsMap promises of the object map F with `count` objects:
      exactly the marked pixels are labelled, with ids 1..count, each id is
      used, linked pixels share their id, and no union of connected
      components separates two pixels with the same id. */
  ghost predicate ObjectMap(w: int, fg: seq<bool>, first: bool, F: seq<int>, count: int)
    requires w > 0
  {
    |F| == |fg| && 0 <= count
    && (forall q :: 0 <= q < |F| ==> 0 <= F[q] <= count && (F[q] == 0 <==> !Marked(fg, first, q)))
    && (forall k :: 1 <= k <= count ==> Used(F, k))
    && (forall a, b :: Linked(w, fg, a, b) ==> F[a] == F[b])
    && (forall S :: Closed(w, fg, S) ==> Separated(F, S))
  }

  /** Some pixel carries id k. */
  ghost predicate Used(F: seq<int>, k: int)
  {
    exists q :: 0 <= q < |F| && F[q] == k
  }

  /** No two pixels with the same non-zero id lie on different sides of S. */
  predicate Separated(F: seq<int>, S: set<int>)
  {
    forall a, b :: 0 <= a < |F| && 0 <= b < |F| && F[a] != 0 && F[a] == F[b] ==> (a in S <==> b in S)
  }

  /** The remap turns the finished pass into an object map with one id per
      class of the union-find map. */
  lemma RenumberedObjectMap(w: int, fg: seq<bool>, first: bool, L: seq<int>, m: seq<int>, n: int, owner: seq<int>)
    requires Raster(w, fg, first) && Labelled(w, fg, first, L, m, n, owner, |fg|)
    ensures ObjectMap(w, fg, first, Renumbered(L, m, n), Roots(m, n))
  {
    var F := Renumbered(L, m, n);
    forall q, q' | 0 <= q < |F| && 0 <= q' < |F|
      ensures F[q] == F[q'] <==> m[L[q]] == m[L[q']]
    {
      IdSameClass(m, n, L[q], L[q']);
    }
    forall k | 1 <= k <= Roots(m, n)
      ensures Used(F, k)
    {
      var r := RootsOnto(m, n, k);
      assert F[owner[r]] == k;
    }
    forall a, b | Linked(w, fg, a, b)
      ensures F[a] == F[b]
    {
    }
    forall S | Closed(w, fg, S)
      ensures Separated(F, S)
    {
      assert Uniform(L, m, |fg|, S);
    }
  }

  /** BuildObjectsMap on a foreground mask: the labelling pass, the remap
      table, and the relabelling of every pixel. */
  method BuildObjectsMap(fg: seq<bool>, first: bool, w: int, h: int) returns (labels: array<int>, count: int)
    requires Raster(w, fg, first) && h >= 1 && |fg| == w * h
    ensures fresh(labels)
    ensures ObjectMap(w, fg, first, labels[..], count)
  {
    var m, n;
    ghost var owner;
    labels, m, n, owner := LabelPass(fg, first, w, h);
    ghost var L := labels[..];
    var ids;
    ids, count := RemapTable(m, n);
    Relabel(labels, ids);
    assert labels[..] == Renumbered(L, m, n);
    RenumberedObjectMap(w, fg, first, L, m, n, owner);
  }

  // ------------------------------------------------------------ paths

  /** A chain of foreground pixels, each adjacent to the next. */
  ghost predicate Path(w: int, fg: seq<bool>, path: seq<int>)
    requires w > 0
  {
    |path| >= 1
    && (forall i :: 0 <= i < |path| ==> 0 <= path[i] < |fg| && fg[path[i]])
    && (forall i :: 0 <= i < |path| - 1 ==> Adjacent(w, path[i], path[i + 1]))
  }

  /** a and b are in one 8-connected foreground component. */
  ghost predicate Connected(w: int, fg: seq<bool>, a: int, b: int)
    requires w > 0
  {
    exists path :: Path(w, fg, path) && path[0] == a && path[|path| - 1] == b
  }

  /** The component of pixel a. */
  ghost function Component(w: int, fg: seq<bool>, a: int): set<int>
    requires w > 0
  {
    set b | 0 <= b < |fg| && Connected(w, fg, a, b)
  }

  /** A component is a union of components: no link leaves it. */
  lemma ComponentClosed(w: int, fg: seq<bool>, a: int)
    requires w > 0
    ensures Closed(w, fg, Component(w, fg, a))
  {
    forall b, c | Linked(w, fg, b, c)
      ensures b in Component(w, fg, a) <==> c in Component(w, fg, a)
    {
      if b in Component(w, fg, a) {
        var path :| Path(w, fg, path) && path[0] == a && path[|path| - 1] == b;
        assert Path(w, fg, path + [c]);
      }
      if c in Component(w, fg, a) {
        var path :| Path(w, fg, path) && path[0] == a && path[|path| - 1] == c;
        assert Path(w, fg, path + [b]);
      }
    }
  }

  /** Along a path the id never changes. */
  lemma {:induction false} PathSameId(w: int, fg: seq<bool>, first: bool, F: seq<int>, count: int, path: seq<int>)
    requires w > 0 && ObjectMap(w, fg, first, F, count) && Path(w, fg, path)
    ensures F[path[0]] == F[path[|path| - 1]]
    decreases |path|
  {
    if |path| > 1 {
      var rest := path[..|path| - 1];
      assert Path(w, fg, rest);
      PathSameId(w, fg, first, F, count, rest);
      assert Linked(w, fg, path[|path| - 2], path[|path| - 1]);
    }
  }

  /** Foreground pixels share an id exactly when they are connected. */
  lemma SameIdIffConnected(w: int, fg: seq<bool>, first: bool, F: seq<int>, count: int, a: int, b: int)
    requires w > 0 && ObjectMap(w, fg, first, F, count)
    requires 0 <= a < |fg| && 0 <= b < |fg| && fg[a] && fg[b]
    ensures F[a] == F[b] <==> Connected(w, fg, a, b)
  {
    if Connected(w, fg, a, b) {
      var path :| Path(w, fg, path) && path[0] == a && path[|path| - 1] == b;
      PathSameId(w, fg, first, F, count, path);
    }
    if F[a] == F[b] {
      assert Path(w, fg, [a]);
      assert a in Component(w, fg, a);
      ComponentClosed(w, fg, a);
      assert Separated(F, Component(w, fg, a));
    }
  }

  /** The first pixel marked by its own test but not in the foreground is an
      object on its own. */
  lemma LoneFirstPixel(w: int, fg: seq<bool>, first: bool, F: seq<int>, count: int, b: int)
    requires w > 0 && ObjectMap(w, fg, first, F, count) && |fg| > 0 && first && !fg[0]
    requires 0 <= b < |fg| && F[b] == F[0]
    ensures b == 0
  {
    assert Closed(w, fg, {0});
    assert Separated(F, {0});
  }
}
