/** Integer helpers shared by the image model: Euclidean division facts for
    flat buffer offsets, and C#'s truncating division. */
module Arith {

  function Min(a: int, b: int): int { if a < b then a else b }
  function Max(a: int, b: int): int { if a < b then b else a }

  lemma MulZero(m: int, d: int)
    requires d > 0 && -d < m * d < d
    ensures m == 0
  {
  }

  /** An offset q*d + r with 0 <= r < d lies in "row" q at "column" r. */
  lemma DivModOfOffset(q: int, r: int, d: int)
    requires d > 0 && 0 <= r < d
    ensures (q * d + r) / d == q && (q * d + r) % d == r
  {
    var a := q * d + r;
    var e := q - a / d;
    assert e * d == a % d - r by {
      assert a == d * (a / d) + a % d;
      assert q * d - (a / d) * d == e * d;
    }
    MulZero(e, d);
  }

  /** The offsets of rows below q all come before row q starts. */
  lemma RowOfBelow(k: int, q: int, d: int)
    requires d > 0 && 0 <= k < q * d
    ensures k / d < q
  {
  }

  /** Offsets from row q on lie in row q or later. */
  lemma RowOfAbove(k: int, q: int, d: int)
    requires d > 0 && q * d <= k
    ensures q <= k / d
  {
    DivMod(k, d);
    if k / d < q {
      MulLe(k / d + 1, q, d);
    }
  }

  lemma MulLe(a: int, b: int, c: int)
    requires 0 <= c && a <= b
    ensures a * c <= b * c
  {
  }

  /** Index q of a w-wide raster of h rows is cell (q % w, q / w). */
  lemma CellOf(q: int, w: int, h: int)
    requires 0 < w && 0 <= q < w * h
    ensures 0 <= q % w < w && 0 <= q / w < h
  {
    RowOfAbove(q, 0, w);
    assert h * w == w * h;
    RowOfBelow(q, h, w);
  }

  /** Cell (x, y) of a w-by-h grid sits at index y * w + x, inside the grid. */
  lemma CellIndex(x: int, y: int, w: int, h: int)
    requires 0 <= x < w && 0 <= y < h
    ensures 0 <= y * w + x < w * h
  {
    MulLe(0, y, w);
    MulLe(y + 1, h, w);
    assert (y + 1) * w == y * w + w;
    assert h * w == w * h;
  }

  lemma MulAdd(a: int, b: int, m: int)
    ensures (a + b) * m == a * m + b * m
  {
  }

  lemma MulSucc(m: int, a: int)
    ensures m * (a + 1) == m * a + m
  {
  }

  lemma MulLtCancel(a: int, b: int, c: int)
    requires c > 0 && a * c < b * c
    ensures a < b
  {
  }

  /** Euclid's identity for a positive divisor, spelled out. */
  lemma DivMod(k: int, d: int)
    requires d > 0
    ensures k == (k / d) * d + k % d && 0 <= k % d < d
  {
  }

  /** An offset inside row i splits into that row and the column within it. */
  lemma RowSplit(k: int, i: int, d: int)
    requires d > 0 && i * d <= k < i * d + d
    ensures k / d == i && k % d == k - i * d
  {
    DivModOfOffset(i, k - i * d, d);
  }

  /** A byte offset inside the pixel part of a row splits into row, pixel
      and channel. */
  lemma OffsetCompose(k: int, stride: int, ps: int, width: int, height: int)
    requires 0 < ps && 0 < stride && width * ps <= stride && 0 <= k < stride * height
    requires k % stride < width * ps
    ensures 0 <= (k % stride) / ps < width && 0 <= k / stride < height
    ensures k == (k / stride) * stride + ((k % stride) / ps) * ps + (k % stride) % ps
  {
    var col := k % stride;
    var x := col / ps;
    DivMod(k, stride);
    DivMod(col, ps);
    assert x * ps <= col < width * ps;
    MulLtCancel(x, width, ps);
    assert k < height * stride;
    RowOfBelow(k, height, stride);
  }

  /** Byte c of cell x of row y in a buffer of rows of the given stride,
      cells of size ps: it lies in the buffer, and splits back into row y,
      cell x and byte c. */
  lemma OffsetSplit(x: int, y: int, c: int, ps: int, stride: int, width: int, height: int)
    requires 0 < ps && width * ps <= stride && 0 <= x < width && 0 <= y < height && 0 <= c < ps
    ensures 0 <= y * stride + x * ps + c < stride * height
    ensures (y * stride + x * ps + c) / stride == y && (y * stride + x * ps + c) % stride == x * ps + c
    ensures (x * ps + c) / ps == x && (x * ps + c) % ps == c
  {
    var col := x * ps + c;
    MulLe(x + 1, width, ps);
    assert (x + 1) * ps == x * ps + ps;
    assert 0 <= x * ps;
    assert 0 <= col < stride;
    DivModOfOffset(y, col, stride);
    DivModOfOffset(x, c, ps);
    MulLe(y + 1, height, stride);
    assert (y + 1) * stride == y * stride + stride;
    assert 0 <= y * stride;
    assert height * stride == stride * height;
  }

  /** C#'s integer division by a positive divisor truncates toward zero. */
  function CsDiv(a: int, b: int): int
    requires b > 0
  {
    if a >= 0 then a / b else -((-a) / b)
  }

  /** Truncating and Euclidean division differ exactly on negative odd halves. */
  lemma CsDivByTwo(a: int)
    ensures a >= 0 ==> CsDiv(a, 2) == a / 2
    ensures a < 0 && a % 2 == 1 ==> CsDiv(a, 2) == a / 2 + 1
    ensures a < 0 && a % 2 == 0 ==> CsDiv(a, 2) == a / 2
  {
  }
}
