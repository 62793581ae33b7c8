// The first stage of BlobCounter.BuildObjectsMap (AForgeCore.cs): one raster
// pass that gives every foreground pixel a provisional label taken from an
// already-labelled 8-neighbour above or to the left, or a new one, and
// records in the union-find map which provisional labels meet.
//
// Pixels are indexed as the source's `objectLabels` is, p = y * w + x. The
// foreground test of each pixel is the boolean mask `fg`; pixel 0 is marked
// by its own test `first` (for RGB images a plain non-zero test, for which
// every foreground pixel qualifies), while later pixels look at their
// neighbours through `fg` alone.

module Labelling {
  import opened Arith
  import opened UnionFind

  /** Two distinct pixels of a raster of width w that touch, diagonals included. */
  predicate Adjacent(w: int, a: int, b: int)
    requires w > 0
  {
    a != b && -1 <= a % w - b % w <= 1 && -1 <= a / w - b / w <= 1
  }

  /** Two adjacent foreground pixels: the edges of the 8-connected components. */
  predicate Linked(w: int, fg: seq<bool>, a: int, b: int)
    requires w > 0
  {
    0 <= a < |fg| && 0 <= b < |fg| && fg[a] && fg[b] && Adjacent(w, a, b)
  }

  /** A set of pixels that no link leaves: a union of connected components. */
  ghost predicate Closed(w: int, fg: seq<bool>, S: set<int>)
    requires w > 0
  {
    forall a, b :: Linked(w, fg, a, b) ==> (a in S <==> b in S)
  }

  /** The pixels that receive a label. */
  predicate Marked(fg: seq<bool>, first: bool, q: int)
    requires 0 <= q < |fg|
  {
    if q == 0 then first else fg[q]
  }

  /** The raster the pass accepts: at least two columns, and a foreground
      first pixel passes the first pixel's own test. */
  predicate Raster(w: int, fg: seq<bool>, first: bool)
  {
    w >= 2 && |fg| > 0 && (fg[0] ==> first)
  }

  // ------------------------------------------------------------ invariant

  /** Every label of the first p pixels indexes the map. */
  predicate Indexed(L: seq<int>, m: seq<int>, p: int)
  {
    0 <= p <= |L| && forall q :: 0 <= q < p ==> 0 <= L[q] < |m|
  }

  /** The bookkeeping after p pixels: the map is flat over labels 1..n,
      exactly the marked pixels so far carry a label, the rest are still 0,
      and every label was given to some pixel (its owner). */
  predicate Shape(fg: seq<bool>, first: bool, L: seq<int>, m: seq<int>, n: int, owner: seq<int>, p: int)
  {
    |L| == |fg| && 0 <= p <= |fg| && Flat(m, n) && |owner| == n + 1
    && (forall q :: 0 <= q < p ==> 0 <= L[q] <= n && (L[q] == 0 <==> !Marked(fg, first, q)))
    && (forall q :: p <= q < |L| ==> L[q] == 0)
    && (forall l :: 1 <= l <= n ==> 0 <= owner[l] < p && L[owner[l]] == l)
  }

  /** Linked pixels among the first p are in one class of the map. */
  predicate Complete(w: int, fg: seq<bool>, L: seq<int>, m: seq<int>, p: int)
    requires w > 0 && |L| == |fg| && Indexed(L, m, p)
  {
    forall a, b :: 0 <= a < p && 0 <= b < p && Linked(w, fg, a, b) ==> m[L[a]] == m[L[b]]
  }

  /** Labelled pixels among the first p that are in one class of the map lie
      on the same side of S. */
  predicate Uniform(L: seq<int>, m: seq<int>, p: int, S: set<int>)
    requires Indexed(L, m, p)
  {
    forall a, b :: 0 <= a < p && 0 <= b < p && L[a] != 0 && L[b] != 0 && m[L[a]] == m[L[b]] ==>
      (a in S <==> b in S)
  }

  /** No union of connected components separates a class of the map. */
  ghost predicate Sound(w: int, fg: seq<bool>, L: seq<int>, m: seq<int>, p: int)
    requires w > 0 && Indexed(L, m, p)
  {
    forall S :: Closed(w, fg, S) ==> Uniform(L, m, p, S)
  }

  /** The invariant of the pass after its first p pixels. */
  ghost predicate Labelled(w: int, fg: seq<bool>, first: bool, L: seq<int>, m: seq<int>, n: int, owner: seq<int>, p: int)
  {
    w > 0 && Shape(fg, first, L, m, n, owner, p)
    && Complete(w, fg, L, m, p) && Sound(w, fg, L, m, p)
  }

  // ------------------------------------------------------------ geometry

  /** Row and column of pixel p and of its four causal neighbours. */
  lemma NeighbourCoords(w: int, x: int, y: int)
    requires w >= 2 && 0 <= x < w && 0 <= y
    ensures (y * w + x) % w == x && (y * w + x) / w == y
    ensures x >= 1 ==> (y * w + x - 1) % w == x - 1 && (y * w + x - 1) / w == y
    ensures y >= 1 ==> (y * w + x - w) % w == x && (y * w + x - w) / w == y - 1
    ensures y >= 1 && x >= 1 ==> (y * w + x - w - 1) % w == x - 1 && (y * w + x - w - 1) / w == y - 1
    ensures y >= 1 && x + 1 < w ==> (y * w + x - w + 1) % w == x + 1 && (y * w + x - w + 1) / w == y - 1
  {
    var above := y * w - w;
    DivModOfOffset(y, x, w);
    if x >= 1 {
      DivModOfOffset(y, x - 1, w);
    }
    if y >= 1 {
      MulAdd(y - 1, 1, w);
      assert (y - 1) * w == above;
      DivModOfOffset(y - 1, x, w);
      if x >= 1 {
        DivModOfOffset(y - 1, x - 1, w);
        assert y * w + x - w - 1 == above + (x - 1);
      }
      if x + 1 < w {
        DivModOfOffset(y - 1, x + 1, w);
        assert y * w + x - w + 1 == above + (x + 1);
      }
    }
  }

  /** The only earlier pixels that touch pixel (x, y) are its left, upper-left,
      upper and upper-right neighbours: the ones the pass looks at. */
  lemma CausalNeighbours(w: int, x: int, y: int, a: int)
    requires w >= 2 && 0 <= x < w && 0 <= y
    requires 0 <= a < y * w + x && Adjacent(w, a, y * w + x)
    ensures (x >= 1 && a == y * w + x - 1)
         || (y >= 1 && ((x >= 1 && a == y * w + x - w - 1) || a == y * w + x - w
                        || (x + 1 < w && a == y * w + x - w + 1)))
  {
    DivModOfOffset(y, x, w);
    DivMod(a, w);
    var ay := a / w;
    assert (y + 1) * w == y * w + w;
    RowOfBelow(a, y + 1, w);
    if ay == y - 1 {
      assert ay * w == y * w - w;
    }
  }

  /** A pixel none of whose causal neighbours is foreground is linked to no
      earlier pixel. */
  lemma Isolated(w: int, fg: seq<bool>, x: int, y: int, p: int)
    requires w >= 2 && 0 <= x < w && 0 <= y && p == y * w + x && p < |fg|
    requires x >= 1 ==> !fg[p - 1]
    requires y >= 1 ==> !fg[p - w]
    requires y >= 1 && x >= 1 ==> !fg[p - w - 1]
    requires y >= 1 && x + 1 < w ==> !fg[p - w + 1]
    ensures forall a :: 0 <= a < p ==> !Linked(w, fg, a, p)
  {
    forall a | 0 <= a < p
      ensures !Linked(w, fg, a, p)
    {
      if Linked(w, fg, a, p) {
        CausalNeighbours(w, x, y, a);
      }
    }
  }

  /** When every foreground causal neighbour of a pixel has root r, so has
      every earlier pixel linked to it. */
  lemma CausalRoots(w: int, fg: seq<bool>, L: seq<int>, m: seq<int>, x: int, y: int, p: int, r: int)
    requires w >= 2 && 0 <= x < w && 0 <= y && p == y * w + x && p < |fg| == |L|
    requires Indexed(L, m, p)
    requires x >= 1 && fg[p - 1] ==> m[L[p - 1]] == r
    requires y >= 1 && fg[p - w] ==> m[L[p - w]] == r
    requires y >= 1 && x >= 1 && fg[p - w - 1] ==> m[L[p - w - 1]] == r
    requires y >= 1 && x + 1 < w && fg[p - w + 1] ==> m[L[p - w + 1]] == r
    ensures forall a :: 0 <= a < p && Linked(w, fg, a, p) ==> m[L[a]] == r
  {
    forall a | 0 <= a < p && Linked(w, fg, a, p)
      ensures m[L[a]] == r
    {
      CausalNeighbours(w, x, y, a);
    }
  }

  // ------------------------------------------------------------ steps

  /** A pixel that is not marked keeps label 0. */
  lemma SkipStep(w: int, fg: seq<bool>, first: bool, L: seq<int>, m: seq<int>, n: int, owner: seq<int>, p: int)
    requires Raster(w, fg, first) && Labelled(w, fg, first, L, m, n, owner, p)
    requires p < |fg| && !Marked(fg, first, p)
    ensures Labelled(w, fg, first, L, m, n, owner, p + 1)
  {
    assert !fg[p];
    forall S | Closed(w, fg, S)
      ensures Uniform(L, m, p + 1, S)
    {
      assert Uniform(L, m, p, S);
    }
  }

  /** A marked pixel with no linked earlier pixel starts a class of its own. */
  lemma NewStep(w: int, fg: seq<bool>, first: bool, L: seq<int>, m: seq<int>, n: int, owner: seq<int>, p: int)
    requires Raster(w, fg, first) && Labelled(w, fg, first, L, m, n, owner, p)
    requires p < |fg| && Marked(fg, first, p)
    requires forall a :: 0 <= a < p ==> !Linked(w, fg, a, p)
    ensures Labelled(w, fg, first, L[p := n + 1], m + [n + 1], n + 1, owner + [p], p + 1)
  {
    var L', m' := L[p := n + 1], m + [n + 1];
    assert Shape(fg, first, L', m', n + 1, owner + [p], p + 1);
    forall a, b | 0 <= a < p + 1 && 0 <= b < p + 1 && Linked(w, fg, a, b)
      ensures m'[L'[a]] == m'[L'[b]]
    {
      assert Linked(w, fg, b, a);
    }
    forall S | Closed(w, fg, S)
      ensures Uniform(L', m', p + 1, S)
    {
      assert Uniform(L, m, p, S);
      forall a, b | 0 <= a < p + 1 && 0 <= b < p + 1 && L'[a] != 0 && L'[b] != 0 && m'[L'[a]] == m'[L'[b]]
        ensures a in S <==> b in S
      {
        if a == p || b == p {
          assert a == b;
        }
      }
    }
  }

  /** A marked pixel takes the label of a linked earlier pixel a0 whose class
      already holds every linked earlier pixel. */
  lemma AdoptStep(w: int, fg: seq<bool>, first: bool, L: seq<int>, m: seq<int>, n: int, owner: seq<int>, p: int, a0: int)
    requires Raster(w, fg, first) && Labelled(w, fg, first, L, m, n, owner, p)
    requires p < |fg| && 0 <= a0 < p && Linked(w, fg, a0, p)
    requires forall a :: 0 <= a < p && Linked(w, fg, a, p) ==> m[L[a]] == m[L[a0]]
    ensures Labelled(w, fg, first, L[p := L[a0]], m, n, owner, p + 1)
  {
    var L' := L[p := L[a0]];
    assert Shape(fg, first, L', m, n, owner, p + 1);
    forall a, b | 0 <= a < p + 1 && 0 <= b < p + 1 && Linked(w, fg, a, b)
      ensures m[L'[a]] == m[L'[b]]
    {
      assert Linked(w, fg, b, a);
    }
    forall S | Closed(w, fg, S)
      ensures Uniform(L', m, p + 1, S)
    {
      assert Uniform(L, m, p, S);
      assert a0 in S <==> p in S;
    }
  }

  /** Joining the classes of two earlier pixels that both touch the foreground
      pixel p keeps the invariant: p connects them. */
  lemma UnionStep(w: int, fg: seq<bool>, first: bool, L: seq<int>, m: seq<int>, n: int, owner: seq<int>, p: int, a: int, b: int)
    requires Raster(w, fg, first) && Labelled(w, fg, first, L, m, n, owner, p)
    requires p < |fg| && 0 <= a < p && 0 <= b < p && Linked(w, fg, a, p) && Linked(w, fg, b, p)
    ensures 1 <= L[a] <= n && 1 <= L[b] <= n
    ensures Labelled(w, fg, first, L, Joined(m, n, L[a], L[b]), n, owner, p)
    ensures Joined(m, n, L[a], L[b])[L[a]] == Joined(m, n, L[a], L[b])[L[b]]
  {
    assert Marked(fg, first, a) && Marked(fg, first, b);
    var m' := Joined(m, n, L[a], L[b]);
    JoinedClasses(m, n, L[a], L[b]);
    forall S | Closed(w, fg, S)
      ensures Uniform(L, m', p, S)
    {
      assert Uniform(L, m, p, S);
      assert (a in S <==> p in S) && (b in S <==> p in S);
    }
  }

  // ------------------------------------------------------------ the pass

  /** Nothing is labelled yet: the all-zero labels and the map holding only
      the background entry. */
  lemma Start(w: int, fg: seq<bool>, first: bool)
    requires Raster(w, fg, first)
    ensures Labelled(w, fg, first, seq(|fg|, _ => 0), [0], 0, [0], 0)
  {
  }

  /** The image's first pixel: a new label when its own test marks it. */
  method FirstPixel(labels: array<int>, w: int, fg: seq<bool>, first: bool, m: seq<int>, n: int, ghost owner: seq<int>)
    returns (m': seq<int>, n': int, ghost owner': seq<int>)
    requires Raster(w, fg, first) && labels.Length == |fg|
    requires Labelled(w, fg, first, labels[..], m, n, owner, 0)
    modifies labels
    ensures Labelled(w, fg, first, labels[..], m', n', owner', 1)
  {
    ghost var L := labels[..];
    m', n', owner' := m, n, owner;
    if first {
      NewStep(w, fg, first, L, m, n, owner, 0);
      n' := n' + 1;
      labels[0] := n';
      m' := m' + [n'];
      owner' := owner' + [0];
      assert labels[..] == L[0 := n + 1];
    } else {
      SkipStep(w, fg, first, L, m, n, owner, 0);
    }
  }

  /** A pixel of the first row after the first: the left neighbour's label,
      or a new one. */
  method TopRowPixel(labels: array<int>, w: int, fg: seq<bool>, first: bool, m: seq<int>, n: int, ghost owner: seq<int>, x: int)
    returns (m': seq<int>, n': int, ghost owner': seq<int>)
    requires Raster(w, fg, first) && labels.Length == |fg|
    requires 1 <= x < w && x < |fg|
    requires Labelled(w, fg, first, labels[..], m, n, owner, x)
    modifies labels
    ensures Labelled(w, fg, first, labels[..], m', n', owner', x + 1)
  {
    var p := x;
    ghost var L := labels[..];
    m', n', owner' := m, n, owner;
    if fg[p] {
      if fg[p - 1] {
        labels[p] := labels[p - 1];
        TopAdopt(w, fg, first, L, m, n, owner, x);
        assert labels[..] == L[p := L[p - 1]];
      } else {
        Isolated(w, fg, x, 0, p);
        NewStep(w, fg, first, L, m, n, owner, p);
        n' := n' + 1;
        labels[p] := n';
        m' := m' + [n'];
        owner' := owner' + [p];
        assert labels[..] == L[p := n + 1];
      }
    } else {
      SkipStep(w, fg, first, L, m, n, owner, p);
    }
  }

  /** The first pixel of a later row: the upper neighbour's label, else the
      upper-right one's, else a new one. */
  method FirstColumnPixel(labels: array<int>, w: int, fg: seq<bool>, first: bool, m: seq<int>, n: int, ghost owner: seq<int>, y: int)
    returns (m': seq<int>, n': int, ghost owner': seq<int>)
    requires Raster(w, fg, first) && labels.Length == |fg|
    requires 1 <= y && y * w < |fg|
    requires Labelled(w, fg, first, labels[..], m, n, owner, y * w)
    modifies labels
    ensures Labelled(w, fg, first, labels[..], m', n', owner', y * w + 1)
  {
    var p := y * w;
    ghost var L := labels[..];
    m', n', owner' := m, n, owner;
    if fg[p] {
      if fg[p - w] || fg[p + 1 - w] {
        ghost var a0 := if fg[p - w] then p - w else p + 1 - w;
        if fg[p - w] {
          labels[p] := labels[p - w];
        } else {
          labels[p] := labels[p + 1 - w];
        }
        FirstColumnAdopt(w, fg, first, L, m, n, owner, y, a0);
        assert labels[..] == L[p := L[a0]];
      } else {
        Isolated(w, fg, 0, y, p);
        NewStep(w, fg, first, L, m, n, owner, p);
        n' := n' + 1;
        labels[p] := n';
        m' := m' + [n'];
        owner' := owner' + [p];
        assert labels[..] == L[p := n + 1];
      }
    } else {
      SkipStep(w, fg, first, L, m, n, owner, p);
    }
  }

  /** A pixel strictly inside a later row: the first of the left, upper-left
      and upper neighbours that is foreground lends its label; then an
      upper-right foreground neighbour either lends its label too or has its
      class joined with this pixel's; failing all, a new label. */
  method MiddlePixel(labels: array<int>, w: int, fg: seq<bool>, first: bool, m: seq<int>, n: int, ghost owner: seq<int>, x: int, y: int)
    returns (m': seq<int>, n': int, ghost owner': seq<int>)
    requires Raster(w, fg, first) && labels.Length == |fg|
    requires 1 <= x < w - 1 && 1 <= y && y * w + x < |fg|
    requires Labelled(w, fg, first, labels[..], m, n, owner, y * w + x)
    modifies labels
    ensures Labelled(w, fg, first, labels[..], m', n', owner', y * w + x + 1)
  {
    var p := y * w + x;
    ghost var L := labels[..];
    m', n', owner' := m, n, owner;
    NeighbourCoords(w, x, y);
    if fg[p] {
      ghost var a0;
      m', a0 := Lend(labels, w, fg, first, L, m, n, owner, x, y);
      if labels[p] == 0 {
        Isolated(w, fg, x, y, p);
        NewStep(w, fg, first, L, m, n, owner, p);
        n' := n' + 1;
        labels[p] := n';
        m' := m' + [n'];
        owner' := owner' + [p];
        assert labels[..] == L[p := n + 1];
      } else {
        MiddleAdopt(w, fg, first, L, m', n, owner, x, y, a0);
      }
    } else {
      SkipStep(w, fg, first, L, m, n, owner, p);
    }
  }

  /** Before pixel p = (x, y) is visited it carries 0, and each of its four
      causal neighbours that is foreground carries a label. */
  lemma MiddleLabels(w: int, fg: seq<bool>, first: bool, L: seq<int>, m: seq<int>, n: int, owner: seq<int>, x: int, y: int)
    requires Raster(w, fg, first) && 1 <= x < w - 1 && 1 <= y && y * w + x < |fg|
    requires Labelled(w, fg, first, L, m, n, owner, y * w + x)
    ensures var p := y * w + x;
      0 <= p - 1 - w && L[p] == 0
      && (fg[p - 1] ==> L[p - 1] != 0) && (fg[p - 1 - w] ==> L[p - 1 - w] != 0)
      && (fg[p - w] ==> L[p - w] != 0) && (fg[p + 1 - w] ==> L[p + 1 - w] != 0)
  {
    MulLe(1, y, w);
  }

  /** The lending half of an inner pixel p = (x, y): the first foreground one
      of its left, upper-left and upper neighbours lends its label, and a
      foreground upper-right neighbour lends its label when none did, or has
      its class joined with the lender's. */
  method Lend(labels: array<int>, w: int, fg: seq<bool>, first: bool, ghost L: seq<int>, m: seq<int>, n: int, ghost owner: seq<int>, x: int, y: int)
    returns (m': seq<int>, ghost a0: int)
    requires Raster(w, fg, first) && 1 <= x < w - 1 && 1 <= y && y * w + x < |fg| == labels.Length
    requires labels[..] == L && Labelled(w, fg, first, L, m, n, owner, y * w + x)
    requires fg[y * w + x]
    modifies labels
    ensures var p := y * w + x;
      a0 == (if fg[p - 1] then p - 1 else if fg[p - 1 - w] then p - 1 - w else if fg[p - w] then p - w else p + 1 - w)
    ensures fg[a0] ==> labels[..] == L[y * w + x := L[a0]] && labels[y * w + x] != 0
    ensures fg[a0] ==> Labelled(w, fg, first, L, m', n, owner, y * w + x)
    ensures fg[a0] && fg[y * w + x + 1 - w] ==> m'[L[y * w + x + 1 - w]] == m'[L[a0]]
    ensures !fg[a0] ==> labels[..] == L && labels[y * w + x] == 0 && m' == m
  {
    var p := y * w + x;
    NeighbourCoords(w, x, y);
    MiddleLabels(w, fg, first, L, m, n, owner, x, y);
    m' := m;
    a0 := TakeLender(labels, w, fg, p);
    if fg[p + 1 - w] {
      if labels[p] == 0 {
        labels[p] := labels[p + 1 - w];
      } else {
        m' := JoinUpperRight(w, fg, first, L, m, n, owner, p, a0, labels[p], labels[p + 1 - w]);
      }
    }
  }

  /** The first foreground one of the left, upper-left and upper neighbours
      lends its label to pixel p; the upper-right one is the fallback lender
      when none is. */
  method TakeLender(labels: array<int>, w: int, fg: seq<bool>, p: int) returns (ghost a0: int)
    requires 3 <= w && 0 <= p - 1 - w && p < labels.Length == |fg|
    modifies labels
    ensures a0 == (if fg[p - 1] then p - 1 else if fg[p - 1 - w] then p - 1 - w else if fg[p - w] then p - w else p + 1 - w)
    ensures labels[..] == old(labels[..])[p := if a0 == p + 1 - w then old(labels[p]) else old(labels[a0])]
  {
    a0 := p + 1 - w;
    if fg[p - 1] {
      labels[p] := labels[p - 1];
      a0 := p - 1;
    } else if fg[p - 1 - w] {
      labels[p] := labels[p - 1 - w];
      a0 := p - 1 - w;
    } else if fg[p - w] {
      labels[p] := labels[p - w];
      a0 := p - w;
    } else {
      assert labels[..] == labels[..][p := labels[p]];
    }
  }

  /** The last pixel of a later row: the first foreground one of the left,
      upper-left and upper neighbours lends its label, else a new one. */
  method LastColumnPixel(labels: array<int>, w: int, fg: seq<bool>, first: bool, m: seq<int>, n: int, ghost owner: seq<int>, y: int)
    returns (m': seq<int>, n': int, ghost owner': seq<int>)
    requires Raster(w, fg, first) && labels.Length == |fg|
    requires 1 <= y && y * w + w - 1 < |fg|
    requires Labelled(w, fg, first, labels[..], m, n, owner, y * w + w - 1)
    modifies labels
    ensures Labelled(w, fg, first, labels[..], m', n', owner', y * w + w)
  {
    var x := w - 1;
    var p := y * w + x;
    ghost var L := labels[..];
    m', n', owner' := m, n, owner;
    if fg[p] {
      if fg[p - 1] || fg[p - 1 - w] || fg[p - w] {
        ghost var a0 := if fg[p - 1] then p - 1 else if fg[p - 1 - w] then p - 1 - w else p - w;
        if fg[p - 1] {
          labels[p] := labels[p - 1];
        } else if fg[p - 1 - w] {
          labels[p] := labels[p - 1 - w];
        } else {
          labels[p] := labels[p - w];
        }
        LastColumnAdopt(w, fg, first, L, m, n, owner, y, a0);
        assert labels[..] == L[p := L[a0]];
      } else {
        Isolated(w, fg, x, y, p);
        NewStep(w, fg, first, L, m, n, owner, p);
        n' := n' + 1;
        labels[p] := n';
        m' := m' + [n'];
        owner' := owner' + [p];
        assert labels[..] == L[p := n + 1];
      }
    } else {
      SkipStep(w, fg, first, L, m, n, owner, p);
    }
  }

  /** A pixel of the first row taking its left neighbour's label. */
  lemma TopAdopt(w: int, fg: seq<bool>, first: bool, L: seq<int>, m: seq<int>, n: int, owner: seq<int>, x: int)
    requires Raster(w, fg, first) && 1 <= x < w && x < |fg|
    requires Labelled(w, fg, first, L, m, n, owner, x) && fg[x] && fg[x - 1]
    ensures Labelled(w, fg, first, L[x := L[x - 1]], m, n, owner, x + 1)
  {
    NeighbourCoords(w, x, 0);
    forall a | 0 <= a < x && Linked(w, fg, a, x)
      ensures m[L[a]] == m[L[x - 1]]
    {
      CausalNeighbours(w, x, 0, a);
    }
    AdoptStep(w, fg, first, L, m, n, owner, x, x - 1);
  }

  /** The first pixel of a later row taking its upper or upper-right
      neighbour's label. */
  lemma FirstColumnAdopt(w: int, fg: seq<bool>, first: bool, L: seq<int>, m: seq<int>, n: int, owner: seq<int>, y: int, a0: int)
    requires Raster(w, fg, first) && 1 <= y && y * w < |fg|
    requires Labelled(w, fg, first, L, m, n, owner, y * w) && fg[y * w]
    requires a0 == (if fg[y * w - w] then y * w - w else y * w + 1 - w) && fg[a0]
    ensures Labelled(w, fg, first, L[y * w := L[a0]], m, n, owner, y * w + 1)
  {
    var p := y * w;
    NeighbourCoords(w, 0, y);
    forall a | 0 <= a < p && Linked(w, fg, a, p)
      ensures m[L[a]] == m[L[a0]]
    {
      CausalNeighbours(w, 0, y, a);
      if a != a0 {
        assert Linked(w, fg, a, a0);
      }
    }
    AdoptStep(w, fg, first, L, m, n, owner, p, a0);
  }

  /** The last pixel of a later row taking the label of its left, upper-left
      or upper neighbour. */
  lemma LastColumnAdopt(w: int, fg: seq<bool>, first: bool, L: seq<int>, m: seq<int>, n: int, owner: seq<int>, y: int, a0: int)
    requires Raster(w, fg, first) && 1 <= y && y * w + w - 1 < |fg|
    requires Labelled(w, fg, first, L, m, n, owner, y * w + w - 1) && fg[y * w + w - 1]
    requires var p := y * w + w - 1;
      a0 == (if fg[p - 1] then p - 1 else if fg[p - 1 - w] then p - 1 - w else p - w) && fg[a0]
    ensures Labelled(w, fg, first, L[y * w + w - 1 := L[a0]], m, n, owner, y * w + w)
  {
    var x := w - 1;
    var p := y * w + x;
    NeighbourCoords(w, x, y);
    forall a | 0 <= a < p && Linked(w, fg, a, p)
      ensures m[L[a]] == m[L[a0]]
    {
      CausalNeighbours(w, x, y, a);
      if a != a0 {
        assert Linked(w, fg, a, a0);
      }
    }
    AdoptStep(w, fg, first, L, m, n, owner, p, a0);
  }

  /** The lender of an inner pixel: the first foreground one of its left,
      upper-left and upper neighbours, or else its upper-right one. Once the
      upper-right neighbour is in the lender's class, every linked earlier
      pixel is. */
  lemma MiddleRoots(w: int, fg: seq<bool>, first: bool, L: seq<int>, m: seq<int>, n: int, owner: seq<int>, x: int, y: int, a0: int)
    requires Raster(w, fg, first) && 1 <= x < w - 1 && 1 <= y && y * w + x < |fg|
    requires Labelled(w, fg, first, L, m, n, owner, y * w + x)
    requires var p := y * w + x;
      a0 == (if fg[p - 1] then p - 1 else if fg[p - 1 - w] then p - 1 - w else if fg[p - w] then p - w else p + 1 - w)
    requires fg[a0] && (fg[y * w + x + 1 - w] ==> m[L[y * w + x + 1 - w]] == m[L[a0]])
    ensures forall a :: 0 <= a < y * w + x && Linked(w, fg, a, y * w + x) ==> m[L[a]] == m[L[a0]]
  {
    var p := y * w + x;
    NeighbourCoords(w, x, y);
    if a0 == p - 1 {
      if fg[p - 1 - w] {
        assert Linked(w, fg, p - 1 - w, a0);
      }
      if fg[p - w] {
        assert Linked(w, fg, p - w, a0);
      }
    } else if a0 == p - 1 - w {
      if fg[p - w] {
        assert Linked(w, fg, p - w, a0);
      }
    }
    CausalRoots(w, fg, L, m, x, y, p, m[L[a0]]);
  }

  /** The union of BuildObjectsMap: a foreground pixel p whose lender a0 has
      label l1 and whose upper-right neighbour has label l2 joins the two
      classes when they differ. */
  method JoinUpperRight(w: int, fg: seq<bool>, first: bool, ghost L: seq<int>, m: seq<int>, n: int, ghost owner: seq<int>,
                        p: int, ghost a0: int, l1: int, l2: int)
    returns (m': seq<int>)
    requires Raster(w, fg, first) && Labelled(w, fg, first, L, m, n, owner, p)
    requires p < |fg| && 0 <= a0 < p && Linked(w, fg, a0, p) && w <= p && Linked(w, fg, p + 1 - w, p)
    requires l1 == L[a0] && l2 == L[p + 1 - w]
    ensures Labelled(w, fg, first, L, m', n, owner, p)
    ensures m'[L[p + 1 - w]] == m'[L[a0]]
  {
    m' := m;
    if l1 != l2 && m'[l1] != m'[l2] {
      UnionStep(w, fg, first, L, m, n, owner, p, a0, p + 1 - w);
      m' := Union(m', n, l1, l2);
    }
  }

  /** An inner pixel takes its lender's label once the upper-right
      neighbour's class has been joined with the lender's. */
  lemma MiddleAdopt(w: int, fg: seq<bool>, first: bool, L: seq<int>, m: seq<int>, n: int, owner: seq<int>, x: int, y: int, a0: int)
    requires Raster(w, fg, first) && 1 <= x < w - 1 && 1 <= y && y * w + x < |fg|
    requires Labelled(w, fg, first, L, m, n, owner, y * w + x)
    requires var p := y * w + x;
      a0 == (if fg[p - 1] then p - 1 else if fg[p - 1 - w] then p - 1 - w else if fg[p - w] then p - w else p + 1 - w)
    requires fg[y * w + x] && fg[a0] && (fg[y * w + x + 1 - w] ==> m[L[y * w + x + 1 - w]] == m[L[a0]])
    ensures Labelled(w, fg, first, L[y * w + x := L[a0]], m, n, owner, y * w + x + 1)
  {
    NeighbourCoords(w, x, y);
    MiddleRoots(w, fg, first, L, m, n, owner, x, y, a0);
    AdoptStep(w, fg, first, L, m, n, owner, y * w + x, a0);
  }

  /** The labelling pass over a w-by-h raster in the source's scan order:
      the first row, then every later row. */
  method LabelPass(fg: seq<bool>, first: bool, w: int, h: int)
    returns (labels: array<int>, m: seq<int>, n: int, ghost owner: seq<int>)
    requires Raster(w, fg, first) && h >= 1 && |fg| == w * h
    ensures fresh(labels)
    ensures Labelled(w, fg, first, labels[..], m, n, owner, |fg|)
  {
    labels := new int[w * h](_ => 0);
    assert labels[..] == seq(|fg|, _ => 0);
    Start(w, fg, first);
    MulLe(1, h, w);
    m, n, owner := LabelTopRow(labels, w, fg, first);
    var y := 1;
    while y < h
      invariant 1 <= y <= h
      invariant Labelled(w, fg, first, labels[..], m, n, owner, y * w)
    {
      MulLe(y + 1, h, w);
      m, n, owner := LabelRow(labels, w, fg, first, m, n, owner, y);
      y := y + 1;
    }
  }

  /** The first row: its first pixel, then the others left to right. */
  method LabelTopRow(labels: array<int>, w: int, fg: seq<bool>, first: bool)
    returns (m: seq<int>, n: int, ghost owner: seq<int>)
    requires Raster(w, fg, first) && labels.Length == |fg| && w <= |fg|
    requires Labelled(w, fg, first, labels[..], [0], 0, [0], 0)
    modifies labels
    ensures Labelled(w, fg, first, labels[..], m, n, owner, w)
  {
    m, n, owner := FirstPixel(labels, w, fg, first, [0], 0, [0]);
    var x := 1;
    while x < w
      invariant 1 <= x <= w
      invariant Labelled(w, fg, first, labels[..], m, n, owner, x)
    {
      m, n, owner := TopRowPixel(labels, w, fg, first, m, n, owner, x);
      x := x + 1;
    }
  }

  /** A later row y: its first pixel, its inner pixels, its last pixel. */
  method LabelRow(labels: array<int>, w: int, fg: seq<bool>, first: bool, m: seq<int>, n: int, ghost owner: seq<int>, y: int)
    returns (m': seq<int>, n': int, ghost owner': seq<int>)
    requires Raster(w, fg, first) && labels.Length == |fg| && 1 <= y && (y + 1) * w <= |fg|
    requires Labelled(w, fg, first, labels[..], m, n, owner, y * w)
    modifies labels
    ensures Labelled(w, fg, first, labels[..], m', n', owner', (y + 1) * w)
  {
    assert (y + 1) * w == y * w + w;
    m', n', owner' := FirstColumnPixel(labels, w, fg, first, m, n, owner, y);
    var x := 1;
    while x < w - 1
      invariant 1 <= x <= w - 1
      invariant Labelled(w, fg, first, labels[..], m', n', owner', y * w + x)
    {
      m', n', owner' := MiddlePixel(labels, w, fg, first, m', n', owner', x, y);
      x := x + 1;
    }
    m', n', owner' := LastColumnPixel(labels, w, fg, first, m', n', owner', y);
  }
}
