// The equivalence map of BlobCounter.BuildObjectsMap: provisional labels
// 1..n, each pointing at a label of its class. After every union the map
// is collapsed again so that each label points directly at its class's
// root (AForgeCore.cs, the `map` array and its rescan loop).

module UnionFind {

  /** Every label 1..n points at a root, and a root points at itself; entry
      0 (the background) is 0. */
  predicate Flat(m: seq<int>, n: int)
  {
    0 <= n && |m| == n + 1 && m[0] == 0
    && forall i :: 1 <= i <= n ==> 1 <= m[i] <= n && m[m[i]] == m[i]
  }

  /** The class of root q joins the class of root r. */
  function Merged(m: seq<int>, n: int, q: int, r: int): (m': seq<int>)
    requires |m| == n + 1
    ensures |m'| == |m|
  {
    seq(|m|, i requires 0 <= i < |m| => if 1 <= i && m[i] == q then r else m[i])
  }

  /** The map after a union of labels l1 and l2 from different classes: l1's
      class joins l2's root, except when only l2 is a root, in which case
      l2's class joins l1's root. */
  function Joined(m: seq<int>, n: int, l1: int, l2: int): (m': seq<int>)
    requires Flat(m, n) && 1 <= l1 <= n && 1 <= l2 <= n
    ensures |m'| == |m|
  {
    if m[l1] != l1 && m[l2] == l2 then Merged(m, n, l2, m[l1]) else Merged(m, n, m[l1], m[l2])
  }

  /** Merging two roots keeps the map flat and joins exactly their two classes. */
  lemma MergedClasses(m: seq<int>, n: int, q: int, r: int)
    requires Flat(m, n) && 1 <= q <= n && 1 <= r <= n && m[q] == q && m[r] == r
    ensures Flat(Merged(m, n, q, r), n)
    ensures forall i, j :: 0 <= i <= n && 0 <= j <= n ==>
              (Merged(m, n, q, r)[i] == Merged(m, n, q, r)[j]
               <==> m[i] == m[j] || (m[i] == q && m[j] == r) || (m[i] == r && m[j] == q))
  {
  }

  /** A union keeps the map flat; afterwards two labels share a root exactly
      when they did before or one was in each of the joined classes. */
  lemma JoinedClasses(m: seq<int>, n: int, l1: int, l2: int)
    requires Flat(m, n) && 1 <= l1 <= n && 1 <= l2 <= n
    ensures Flat(Joined(m, n, l1, l2), n)
    ensures forall i, j :: 0 <= i <= n && 0 <= j <= n ==>
              (Joined(m, n, l1, l2)[i] == Joined(m, n, l1, l2)[j]
               <==> m[i] == m[j] || (m[i] == m[l1] && m[j] == m[l2]) || (m[i] == m[l2] && m[j] == m[l1]))
  {
    if m[l1] != l1 && m[l2] == l2 {
      MergedClasses(m, n, l2, m[l1]);
    } else {
      MergedClasses(m, n, m[l1], m[l2]);
    }
  }

  /** Labels outside the two joined classes keep their root. */
  lemma JoinedKeepsOthers(m: seq<int>, n: int, l1: int, l2: int, i: int)
    requires Flat(m, n) && 1 <= l1 <= n && 1 <= l2 <= n && 0 <= i <= n
    requires m[i] != m[l1] && m[i] != m[l2]
    ensures Joined(m, n, l1, l2)[i] == m[i]
  {
  }

  /** The map part-way through a union: every label points at its target
      root, or at the joined-away root q, which itself points at r. */
  predicate Relinked(c: seq<int>, n: int, target: seq<int>, q: int, r: int)
    requires |target| == n + 1
  {
    |c| == n + 1 && 0 <= n && c[0] == 0 && 1 <= q <= n && c[q] == r
    && (forall k :: 1 <= k <= n ==> 1 <= c[k] <= n && (c[k] == target[k] || (c[k] == q && target[k] == r)))
    && (forall t :: 1 <= t <= n && target[t] == t ==> c[t] == t)
  }

  /** The union step of BuildObjectsMap: relink one root (or, when neither
      label is a root, l1's root and l1 itself) and then rescan labels 1..n,
      pointing each one at the end of its chain. */
  method Union(m: seq<int>, n: int, l1: int, l2: int) returns (m': seq<int>)
    requires Flat(m, n) && 1 <= l1 <= n && 1 <= l2 <= n && m[l1] != m[l2]
    ensures m' == Joined(m, n, l1, l2)
  {
    ghost var q, r := m[l1], m[l2];
    if m[l1] != l1 && m[l2] == l2 {
      q, r := m[l2], m[l1];
    }
    ghost var target := Joined(m, n, l1, l2);
    MergedClasses(m, n, q, r);
    var c := m;
    if c[l1] == l1 {
      c := c[l1 := c[l2]];
    } else if c[l2] == l2 {
      c := c[l2 := c[l1]];
    } else {
      c := c[c[l1] := c[l2]];
      c := c[l1 := c[l2]];
    }
    assert Relinked(c, n, target, q, r);
    m' := Collapse(c, n, target, q, r);
  }

  /** The rescan: the chains are at most two long, so the inner loop stops,
      and afterwards every label points at its root. */
  method Collapse(c: seq<int>, n: int, ghost target: seq<int>, ghost q: int, ghost r: int) returns (m': seq<int>)
    requires Flat(target, n) && q != r && Relinked(c, n, target, q, r)
    ensures m' == target
  {
    m' := c;
    var i := 1;
    while i <= n
      invariant 1 <= i <= n + 1 && Relinked(m', n, target, q, r)
      invariant forall k :: 1 <= k < i ==> m'[k] == target[k]
    {
      if m'[i] != i {
        var j := m'[i];
        while j != m'[j]
          invariant 1 <= j <= n && (j == target[i] || (j == q && target[i] == r))
          decreases if j == target[i] then 0 else 1
        {
          j := m'[j];
        }
        m' := m'[i := j];
      }
      i := i + 1;
    }
  }
}
