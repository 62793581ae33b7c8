/** The pointer loops the point filters run over a rectangle of a buffer:
    rows y0 .. y1 - 1, and within each row either the bytes c0 .. c1 - 1
    (8-bit samples) or the 16-bit little-endian words x0 .. x1 - 1. */
module Spans {
  import opened Arith
  import opened Imaging

  /** Byte k lies in rows [y0, y1) and row columns [c0, c1). */
  predicate InSpan(k: int, stride: int, y0: int, y1: int, c0: int, c1: int)
    requires 0 < stride
  {
    y0 <= k / stride < y1 && c0 <= k % stride < c1
  }

  /** Every byte in the span replaced by f of itself; the rest unchanged. */
  function BytesMapped(s: seq<byte>, stride: int, y0: int, y1: int, c0: int, c1: int, f: byte -> byte): (r: seq<byte>)
    requires 0 < stride
    ensures |r| == |s|
  {
    seq(|s|, k requires 0 <= k < |s| => if InSpan(k, stride, y0, y1, c0, c1) then f(s[k]) else s[k])
  }

  /** The 16-bit sample stored little-endian at byte j. */
  function Word(s: seq<byte>, j: int): (w: int)
    requires 0 <= j && j + 1 < |s|
    ensures 0 <= w < 65536
  {
    s[j] as int + 256 * s[j + 1] as int
  }

  /** The low or high byte of the (ushort) cast of v. */
  function WordByte(v: int, high: bool): byte
  {
    var u := v % 65536;
    if high then (u / 256) as byte else (u % 256) as byte
  }

  lemma WordInRow(k: int, stride: int, y1: int, x1: int, size: int)
    requires 0 < stride && 0 <= k && 2 * x1 <= stride && y1 * stride <= size
    requires k / stride < y1 && k % stride < 2 * x1
    ensures 0 <= k - (k % stride) % 2 && k - (k % stride) % 2 + 1 < size
  {
    var q := k / stride;
    var c := k % stride;
    DivMod(k, stride);
    RowOfAbove(k, 0, stride);
    assert c - c % 2 == 2 * (c / 2) && c / 2 < x1;
    assert 0 <= c - c % 2 && c - c % 2 + 1 < stride;
    MulLe(q + 1, y1, stride);
    assert (q + 1) * stride == q * stride + stride;
    MulLe(0, q, stride);
  }

  /** Byte k of a word column belongs to the word starting at
      j = k - (k % stride) % 2, whose two bytes lie in k's row. */
  lemma WordSite(k: int, stride: int, x1: int)
    requires 0 < stride && 0 <= k && 2 * x1 <= stride && k % stride < 2 * x1
    ensures var j := k - (k % stride) % 2;
            0 <= j && j / stride == k / stride && (j + 1) / stride == k / stride
            && j % stride == k % stride - (k % stride) % 2 && (j + 1) % stride == j % stride + 1
            && (j % stride) % 2 == 0 && ((j + 1) % stride) % 2 == 1
  {
    var q := k / stride;
    var c := k % stride;
    DivMod(k, stride);
    var r := c - c % 2;
    var j := k - c % 2;
    assert r == 2 * (c / 2) && c / 2 < x1;
    assert 0 <= r && r + 1 < stride;
    assert j == q * stride + r;
    DivModOfOffset(q, r, stride);
    DivModOfOffset(q, r + 1, stride);
    assert j / stride == q && j % stride == r;
    assert (j + 1) / stride == q && (j + 1) % stride == r + 1;
    RowOfAbove(k, 0, stride);
    MulLe(0, q, stride);
  }

  /** Every 16-bit word x0 .. x1 - 1 of rows y0 .. y1 - 1 replaced by the
      (ushort) cast of g of itself; the rest unchanged. */
  function WordsMapped(s: seq<byte>, stride: int, y0: int, y1: int, x0: int, x1: int, g: int -> int): (r: seq<byte>)
    requires 0 < stride && 2 * x1 <= stride && y1 * stride <= |s|
    ensures |r| == |s|
  {
    seq(|s|, k requires 0 <= k < |s| =>
      if InSpan(k, stride, y0, y1, 2 * x0, 2 * x1) then
        WordInRow(k, stride, y1, x1, |s|);
        var j := k - (k % stride) % 2;
        WordByte(g(Word(s, j)), (k % stride) % 2 == 1)
      else s[k])
  }

  /** Mapping byte x of row y onto a row mapped up to x. */
  lemma MapOneMore(s: seq<byte>, stride: int, y: int, c0: int, x: int, f: byte -> byte)
    requires 0 < stride && 0 <= y && 0 <= c0 <= x < stride && (y + 1) * stride <= |s|
    ensures 0 <= y * stride + x < |s|
    ensures BytesMapped(s, stride, y, y + 1, c0, x, f)[y * stride + x] == s[y * stride + x]
    ensures BytesMapped(s, stride, y, y + 1, c0, x + 1, f)
         == BytesMapped(s, stride, y, y + 1, c0, x, f)[y * stride + x := f(s[y * stride + x])]
  {
    var p := y * stride + x;
    RowSplit(p, y, stride);
    MulLe(0, y, stride);
    var a := BytesMapped(s, stride, y, y + 1, c0, x + 1, f);
    var b := BytesMapped(s, stride, y, y + 1, c0, x, f)[p := f(s[p])];
    forall k | 0 <= k < |s| ensures a[k] == b[k] {
      if k != p && k / stride == y && k % stride == x {
        DivMod(k, stride);
      }
    }
  }

  /** Mapping word x of row y onto a row mapped up to word x. */
  lemma MapWordOneMore(s: seq<byte>, stride: int, y: int, x0: int, x: int, x1: int, g: int -> int)
    requires 0 < stride && 0 <= y && 0 <= x0 <= x < x1 && 2 * x1 <= stride && (y + 1) * stride <= |s|
    ensures 0 <= y * stride + 2 * x && y * stride + 2 * x + 1 < |s|
    ensures var m := WordsMapped(s, stride, y, y + 1, x0, x, g);
            var p := y * stride + 2 * x;
            m[p] == s[p] && m[p + 1] == s[p + 1]
    ensures var p := y * stride + 2 * x;
            var v := g(Word(s, p));
            (WordsMapped(s, stride, y, y + 1, x0, x + 1, g)
             == WordsMapped(s, stride, y, y + 1, x0, x, g)[p := WordByte(v, false)][p + 1 := WordByte(v, true)])
  {
    var p := y * stride + 2 * x;
    RowSplit(p, y, stride);
    RowSplit(p + 1, y, stride);
    MulLe(0, y, stride);
    var v := g(Word(s, p));
    var a := WordsMapped(s, stride, y, y + 1, x0, x + 1, g);
    var b := WordsMapped(s, stride, y, y + 1, x0, x, g)[p := WordByte(v, false)][p + 1 := WordByte(v, true)];
    forall k | 0 <= k < |s| ensures a[k] == b[k] {
      MapWordOneMoreAt(s, stride, y, x0, x, x1, g, k);
    }
  }

  lemma MapWordOneMoreAt(s: seq<byte>, stride: int, y: int, x0: int, x: int, x1: int, g: int -> int, k: int)
    requires 0 < stride && 0 <= y && 0 <= x0 <= x < x1 && 2 * x1 <= stride && (y + 1) * stride <= |s|
    requires y * stride + 2 * x + 1 < |s| && 0 <= k < |s|
    ensures var p := y * stride + 2 * x;
            var v := g(Word(s, p));
            WordsMapped(s, stride, y, y + 1, x0, x + 1, g)[k]
            == WordsMapped(s, stride, y, y + 1, x0, x, g)[p := WordByte(v, false)][p + 1 := WordByte(v, true)][k]
  {
    var p := y * stride + 2 * x;
    if k == p {
      MapWordLowAt(s, stride, y, x0, x, x1, g, k);
    } else if k == p + 1 {
      MapWordHighAt(s, stride, y, x0, x, x1, g, k);
    } else {
      MapWordOtherAt(s, stride, y, x0, x, x1, g, k);
    }
  }

  lemma MapWordLowAt(s: seq<byte>, stride: int, y: int, x0: int, x: int, x1: int, g: int -> int, k: int)
    requires 0 < stride && 0 <= y && 0 <= x0 <= x < x1 && 2 * x1 <= stride && (y + 1) * stride <= |s|
    requires y * stride + 2 * x + 1 < |s| && 0 <= k < |s|
    requires k == y * stride + 2 * x
    ensures var p := y * stride + 2 * x;
            var v := g(Word(s, p));
            WordsMapped(s, stride, y, y + 1, x0, x + 1, g)[k]
            == WordsMapped(s, stride, y, y + 1, x0, x, g)[p := WordByte(v, false)][p + 1 := WordByte(v, true)][k]
  {
    var p := y * stride + 2 * x;
    var a := WordsMapped(s, stride, y, y + 1, x0, x + 1, g);
    RowSplit(p, y, stride);
    assert (2 * x) % 2 == 0;
    assert InSpan(p, stride, y, y + 1, 2 * x0, 2 * (x + 1));
    assert a[p] == WordByte(g(Word(s, p)), false);
  }

  lemma MapWordHighAt(s: seq<byte>, stride: int, y: int, x0: int, x: int, x1: int, g: int -> int, k: int)
    requires 0 < stride && 0 <= y && 0 <= x0 <= x < x1 && 2 * x1 <= stride && (y + 1) * stride <= |s|
    requires y * stride + 2 * x + 1 < |s| && 0 <= k < |s|
    requires k == y * stride + 2 * x + 1
    ensures var p := y * stride + 2 * x;
            var v := g(Word(s, p));
            WordsMapped(s, stride, y, y + 1, x0, x + 1, g)[k]
            == WordsMapped(s, stride, y, y + 1, x0, x, g)[p := WordByte(v, false)][p + 1 := WordByte(v, true)][k]
  {
    var p := y * stride + 2 * x;
    var a := WordsMapped(s, stride, y, y + 1, x0, x + 1, g);
    RowSplit(p + 1, y, stride);
    assert (2 * x + 1) % 2 == 1;
    assert InSpan(p + 1, stride, y, y + 1, 2 * x0, 2 * (x + 1));
    assert a[p + 1] == WordByte(g(Word(s, p)), true);
  }

  lemma MapWordOtherAt(s: seq<byte>, stride: int, y: int, x0: int, x: int, x1: int, g: int -> int, k: int)
    requires 0 < stride && 0 <= y && 0 <= x0 <= x < x1 && 2 * x1 <= stride && (y + 1) * stride <= |s|
    requires y * stride + 2 * x + 1 < |s| && 0 <= k < |s|
    requires k != y * stride + 2 * x && k != y * stride + 2 * x + 1
    ensures var p := y * stride + 2 * x;
            var v := g(Word(s, p));
            WordsMapped(s, stride, y, y + 1, x0, x + 1, g)[k]
            == WordsMapped(s, stride, y, y + 1, x0, x, g)[p := WordByte(v, false)][p + 1 := WordByte(v, true)][k]
  {
    var a := WordsMapped(s, stride, y, y + 1, x0, x + 1, g);
    var m := WordsMapped(s, stride, y, y + 1, x0, x, g);
    if k / stride == y && 2 * x <= k % stride < 2 * x + 2 {
      DivMod(k, stride);
      assert false;
    }
    assert InSpan(k, stride, y, y + 1, 2 * x0, 2 * (x + 1)) == InSpan(k, stride, y, y + 1, 2 * x0, 2 * x);
    assert a[k] == m[k];
  }

  /** BytesMapped over rows y0 .. y - 1, then over row y, is BytesMapped
      over rows y0 .. y. */
  lemma BytesRowJoin(s: seq<byte>, stride: int, y0: int, y: int, c0: int, c1: int, f: byte -> byte)
    requires 0 < stride && y0 <= y
    ensures BytesMapped(BytesMapped(s, stride, y0, y, c0, c1, f), stride, y, y + 1, c0, c1, f)
         == BytesMapped(s, stride, y0, y + 1, c0, c1, f)
  {
  }

  /** The same for word rows. */
  lemma WordsRowJoin(s: seq<byte>, stride: int, y0: int, y: int, x0: int, x1: int, g: int -> int)
    requires 0 < stride && 0 <= y0 <= y && 2 * x1 <= stride && (y + 1) * stride <= |s|
    ensures y * stride <= |s|
    ensures WordsMapped(WordsMapped(s, stride, y0, y, x0, x1, g), stride, y, y + 1, x0, x1, g)
         == WordsMapped(s, stride, y0, y + 1, x0, x1, g)
  {
    MulLe(y, y + 1, stride);
    var a := WordsMapped(WordsMapped(s, stride, y0, y, x0, x1, g), stride, y, y + 1, x0, x1, g);
    var b := WordsMapped(s, stride, y0, y + 1, x0, x1, g);
    forall k | 0 <= k < |s| ensures a[k] == b[k] {
      WordsRowJoinAt(s, stride, y0, y, x0, x1, g, k);
    }
  }

  lemma WordsRowJoinAt(s: seq<byte>, stride: int, y0: int, y: int, x0: int, x1: int, g: int -> int, k: int)
    requires 0 < stride && 0 <= y0 <= y && 2 * x1 <= stride && y * stride <= (y + 1) * stride <= |s| && 0 <= k < |s|
    ensures WordsMapped(WordsMapped(s, stride, y0, y, x0, x1, g), stride, y, y + 1, x0, x1, g)[k]
         == WordsMapped(s, stride, y0, y + 1, x0, x1, g)[k]
  {
    if InSpan(k, stride, y, y + 1, 2 * x0, 2 * x1) {
      WordSite(k, stride, x1);
      WordInRow(k, stride, y + 1, x1, |s|);
    }
  }

  /** The 8-bit sample loop: `*ptr = f(*ptr)` over the span, row by row. */
  method MapBytes(data: array<byte>, stride: int, y0: int, y1: int, c0: int, c1: int, f: byte -> byte)
    requires 0 < stride && 0 <= y0 <= y1 && y1 * stride <= data.Length && 0 <= c0 <= c1 <= stride
    modifies data
    ensures data[..] == BytesMapped(old(data[..]), stride, y0, y1, c0, c1, f)
  {
    ghost var orig := data[..];
    var offset := stride - (c1 - c0);
    var ptr := y0 * stride + c0;
    var y := y0;
    while y < y1
      invariant y0 <= y <= y1
      invariant ptr == y * stride + c0
      invariant data[..] == BytesMapped(orig, stride, y0, y, c0, c1, f)
    {
      ghost var rowStart := data[..];
      MulLe(y + 1, y1, stride);
      var x := c0;
      while x < c1
        invariant c0 <= x <= c1
        invariant ptr == y * stride + x
        invariant data[..] == BytesMapped(rowStart, stride, y, y + 1, c0, x, f)
      {
        MapOneMore(rowStart, stride, y, c0, x, f);
        data[ptr] := f(data[ptr]);
        x := x + 1;
        ptr := ptr + 1;
      }
      BytesRowJoin(orig, stride, y0, y, c0, c1, f);
      ptr := ptr + offset;
      y := y + 1;
    }
  }

  /** The 16-bit sample loop: `*ptr = (ushort)g(*ptr)` over words x0 .. x1 - 1
      of each row, the row pointer recomputed from the stride. */
  method MapWords(data: array<byte>, stride: int, y0: int, y1: int, x0: int, x1: int, g: int -> int)
    requires 0 < stride && 0 <= y0 <= y1 && y1 * stride <= data.Length && 0 <= x0 <= x1 && 2 * x1 <= stride
    modifies data
    ensures data[..] == WordsMapped(old(data[..]), stride, y0, y1, x0, x1, g)
  {
    ghost var orig := data[..];
    var y := y0;
    while y < y1
      invariant y0 <= y <= y1
      invariant y * stride <= data.Length
      invariant data[..] == WordsMapped(orig, stride, y0, y, x0, x1, g)
    {
      MulLe(y + 1, y1, stride);
      MapWordRow(data, stride, y, x0, x1, g);
      WordsRowJoin(orig, stride, y0, y, x0, x1, g);
      y := y + 1;
    }
  }

  /** The inner loop of MapWords: one row. */
  method MapWordRow(data: array<byte>, stride: int, y: int, x0: int, x1: int, g: int -> int)
    requires 0 < stride && 0 <= y && (y + 1) * stride <= data.Length && 0 <= x0 <= x1 && 2 * x1 <= stride
    modifies data
    ensures data[..] == WordsMapped(old(data[..]), stride, y, y + 1, x0, x1, g)
  {
    ghost var rowStart := data[..];
    var ptr := y * stride + 2 * x0;
    var x := x0;
    while x < x1
      invariant x0 <= x <= x1
      invariant ptr == y * stride + 2 * x
      invariant data[..] == WordsMapped(rowStart, stride, y, y + 1, x0, x, g)
    {
      MapWordOneMore(rowStart, stride, y, x0, x, x1, g);
      ghost var cur := data[..];
      var lo, hi := data[ptr], data[ptr + 1];
      assert lo == rowStart[ptr] && hi == rowStart[ptr + 1];
      var v := g(lo as int + 256 * hi as int);
      assert v == g(Word(rowStart, ptr));
      data[ptr] := WordByte(v, false);
      data[ptr + 1] := WordByte(v, true);
      assert data[..] == cur[ptr := WordByte(v, false)][ptr + 1 := WordByte(v, true)];
      x := x + 1;
      ptr := ptr + 2;
    }
  }

  // ---------------------------------------------------------------- properties

  /** f applied to each byte of a pixel. */
  function MapEach(b: seq<byte>, f: byte -> byte): (r: seq<byte>)
    ensures |r| == |b|
  {
    seq(|b|, i requires 0 <= i < |b| => f(b[i]))
  }

  /** The two bytes, low first, that a (ushort) store of v writes. */
  function SampleBytes(v: int): seq<byte>
  {
    [WordByte(v, false), WordByte(v, true)]
  }

  /** The two bytes of a 16-bit store read back as the stored sample. */
  lemma WordByteJoin(v: int)
    ensures WordByte(v, false) as int + 256 * WordByte(v, true) as int == v % 65536
  {
  }

  /** Byte c of pixel x lies in the byte columns [a * P, b * P) of the
      pixels a .. b - 1 exactly when a <= x < b. */
  lemma ColumnInSpan(x: int, c: int, P: int, a: int, b: int)
    requires 0 <= c < P
    ensures a * P <= x * P + c < b * P <==> a <= x < b
  {
    if x < a { MulLe(x + 1, a, P); } else { MulLe(a, x, P); }
    if x < b { MulLe(x + 1, b, P); } else { MulLe(b, x, P); }
  }

  /** Mapping the byte columns of a rectangle's pixels maps every byte of
      each pixel inside the rectangle and leaves every other pixel alone. */
  lemma BytesMappedPixel(l: ImageLayout, s: seq<byte>, rect: Rect, f: byte -> byte, c0: int, c1: int, x: int, y: int)
    requires l.Valid() && |s| == l.Size() && l.InBounds(x, y)
    requires c0 == rect.x * PixelSize(l.format) && c1 == rect.Right() * PixelSize(l.format)
    ensures PixelBytes(l, BytesMapped(s, l.stride, rect.y, rect.Bottom(), c0, c1, f), x, y)
            == if rect.Contains(x, y) then MapEach(PixelBytes(l, s, x, y), f) else PixelBytes(l, s, x, y)
  {
    var P := PixelSize(l.format);
    var r := BytesMapped(s, l.stride, rect.y, rect.Bottom(), c0, c1, f);
    var a := PixelBytes(l, r, x, y);
    var b := if rect.Contains(x, y) then MapEach(PixelBytes(l, s, x, y), f) else PixelBytes(l, s, x, y);
    forall c | 0 <= c < P ensures a[c] == b[c] {
      OffsetDecompose(l, x, y, c);
      ColumnInSpan(x, c, P, rect.x, rect.Right());
    }
  }

  /** Bytes outside the pixel columns of the image are never mapped. */
  lemma BytesMappedPadding(l: ImageLayout, s: seq<byte>, y0: int, y1: int, c0: int, c1: int, f: byte -> byte, k: int)
    requires l.Valid() && |s| == l.Size() && c1 <= l.width * PixelSize(l.format)
    requires 0 <= k < |s| && !IsPixelByte(l, k)
    ensures BytesMapped(s, l.stride, y0, y1, c0, c1, f)[k] == s[k]
  {
  }

  /** On a 16-bit grey image, mapping the words of a rectangle stores
      g(sample) into each pixel inside it and leaves every other pixel alone. */
  lemma WordsMappedPixel(l: ImageLayout, s: seq<byte>, rect: Rect, g: int -> int, x: int, y: int)
    requires l.Valid() && |s| == l.Size() && l.format == Format16bppGrayScale && l.InBounds(x, y)
    requires rect.Bottom() * l.stride <= |s| && 2 * rect.Right() <= l.stride
    ensures 0 <= l.Offset(x, y) && l.Offset(x, y) + 1 < |s|
    ensures var r := WordsMapped(s, l.stride, rect.y, rect.Bottom(), rect.x, rect.Right(), g);
            PixelBytes(l, r, x, y)
            == if rect.Contains(x, y) then SampleBytes(g(Word(s, l.Offset(x, y)))) else PixelBytes(l, s, x, y)
  {
    OffsetDecompose(l, x, y, 1);
    var r := WordsMapped(s, l.stride, rect.y, rect.Bottom(), rect.x, rect.Right(), g);
    var a := PixelBytes(l, r, x, y);
    var b := if rect.Contains(x, y) then SampleBytes(g(Word(s, l.Offset(x, y)))) else PixelBytes(l, s, x, y);
    WordsMappedPixelByte(l, s, rect, g, x, y, 0);
    WordsMappedPixelByte(l, s, rect, g, x, y, 1);
    assert a[0] == b[0] && a[1] == b[1];
  }

  /** Byte c of pixel (x, y) after the mapping. */
  lemma WordsMappedPixelByte(l: ImageLayout, s: seq<byte>, rect: Rect, g: int -> int, x: int, y: int, c: int)
    requires l.Valid() && |s| == l.Size() && l.format == Format16bppGrayScale && l.InBounds(x, y)
    requires rect.Bottom() * l.stride <= |s| && 2 * rect.Right() <= l.stride && 0 <= c < 2
    ensures 0 <= l.Offset(x, y) && l.Offset(x, y) + 1 < |s|
    ensures WordsMapped(s, l.stride, rect.y, rect.Bottom(), rect.x, rect.Right(), g)[l.Offset(x, y) + c]
            == if rect.Contains(x, y) then WordByte(g(Word(s, l.Offset(x, y))), c == 1) else s[l.Offset(x, y) + c]
  {
    OffsetDecompose(l, x, y, 1);
    OffsetDecompose(l, x, y, c);
    ColumnInSpan(x, c, 2, rect.x, rect.Right());
  }

  /** Bytes outside the word columns are never mapped. */
  lemma WordsMappedPadding(l: ImageLayout, s: seq<byte>, y0: int, y1: int, x0: int, x1: int, g: int -> int, k: int)
    requires l.Valid() && |s| == l.Size() && 0 < l.stride && 2 * x1 <= l.width * PixelSize(l.format)
    requires y1 * l.stride <= |s|
    requires 0 <= k < |s| && !IsPixelByte(l, k)
    ensures WordsMapped(s, l.stride, y0, y1, x0, x1, g)[k] == s[k]
  {
  }

  /** When the (ushort) cast of g is idempotent, mapping a span twice is
      mapping it once. */
  lemma WordsMappedTwice(s: seq<byte>, stride: int, y0: int, y1: int, x0: int, x1: int, g: int -> int)
    requires 0 < stride && 2 * x1 <= stride && y1 * stride <= |s|
    requires forall w :: 0 <= w < 65536 ==> g(g(w) % 65536) % 65536 == g(w) % 65536
    ensures WordsMapped(WordsMapped(s, stride, y0, y1, x0, x1, g), stride, y0, y1, x0, x1, g)
         == WordsMapped(s, stride, y0, y1, x0, x1, g)
  {
    var once := WordsMapped(s, stride, y0, y1, x0, x1, g);
    var twice := WordsMapped(once, stride, y0, y1, x0, x1, g);
    forall k | 0 <= k < |s| ensures twice[k] == once[k] {
      WordsMappedTwiceAt(s, stride, y0, y1, x0, x1, g, k);
    }
  }

  lemma WordsMappedTwiceAt(s: seq<byte>, stride: int, y0: int, y1: int, x0: int, x1: int, g: int -> int, k: int)
    requires 0 < stride && 2 * x1 <= stride && y1 * stride <= |s| && 0 <= k < |s|
    requires forall w :: 0 <= w < 65536 ==> g(g(w) % 65536) % 65536 == g(w) % 65536
    ensures WordsMapped(WordsMapped(s, stride, y0, y1, x0, x1, g), stride, y0, y1, x0, x1, g)[k]
         == WordsMapped(s, stride, y0, y1, x0, x1, g)[k]
  {
    if InSpan(k, stride, y0, y1, 2 * x0, 2 * x1) {
      WordSite(k, stride, x1);
      WordInRow(k, stride, y1, x1, |s|);
      var j := k - (k % stride) % 2;
      WordStartInSpan(k, stride, y0, y1, x0, x1);
      MappedWord(s, stride, y0, y1, x0, x1, g, j);
    }
  }

  /** The word start of a byte in a word span is in the span. */
  lemma WordStartInSpan(k: int, stride: int, y0: int, y1: int, x0: int, x1: int)
    requires 0 < stride && 0 <= k && 2 * x1 <= stride && InSpan(k, stride, y0, y1, 2 * x0, 2 * x1)
    ensures var j := k - (k % stride) % 2;
            0 <= j && InSpan(j, stride, y0, y1, 2 * x0, 2 * x1) && (j % stride) % 2 == 0
  {
    WordSite(k, stride, x1);
    var c := k % stride;
    assert c - c % 2 == 2 * (c / 2) && x0 <= c / 2;
  }

  /** The word a span starts at j reads back, after mapping, as the
      (ushort) cast of g of the word it held. */
  lemma MappedWord(s: seq<byte>, stride: int, y0: int, y1: int, x0: int, x1: int, g: int -> int, j: int)
    requires 0 < stride && 2 * x1 <= stride && y1 * stride <= |s| && 0 <= j
    requires InSpan(j, stride, y0, y1, 2 * x0, 2 * x1) && (j % stride) % 2 == 0
    ensures j + 1 < |s| && Word(WordsMapped(s, stride, y0, y1, x0, x1, g), j) == g(Word(s, j)) % 65536
  {
    WordSite(j, stride, x1);
    WordInRow(j, stride, y1, x1, |s|);
    assert InSpan(j + 1, stride, y0, y1, 2 * x0, 2 * x1);
    var once := WordsMapped(s, stride, y0, y1, x0, x1, g);
    var v := g(Word(s, j));
    WordByteJoin(v);
    assert once[j] == WordByte(v, false) && once[j + 1] == WordByte(v, true);
  }

  /** Storing 65535 - w in every word complements each of its two bytes. */
  lemma InvertWordBytes(lo: byte, hi: byte)
    ensures WordByte(65535 - (lo as int + 256 * hi as int), false) == 255 - lo
    ensures WordByte(65535 - (lo as int + 256 * hi as int), true) == 255 - hi
  {
    DivModOfOffset(255 - hi as int, 255 - lo as int, 256);
  }

  /** So the 16-bit complement of a span is the byte complement of the same
      bytes. */
  lemma WordsComplementBytes(s: seq<byte>, stride: int, y0: int, y1: int, x0: int, x1: int, g: int -> int, f: byte -> byte)
    requires 0 < stride && 2 * x1 <= stride && y1 * stride <= |s|
    requires forall w :: g(w) == 65535 - w
    requires forall b :: f(b) == 255 - b
    ensures WordsMapped(s, stride, y0, y1, x0, x1, g) == BytesMapped(s, stride, y0, y1, 2 * x0, 2 * x1, f)
  {
    var a := WordsMapped(s, stride, y0, y1, x0, x1, g);
    var b := BytesMapped(s, stride, y0, y1, 2 * x0, 2 * x1, f);
    forall k | 0 <= k < |s| ensures a[k] == b[k] {
      if InSpan(k, stride, y0, y1, 2 * x0, 2 * x1) {
        WordSite(k, stride, x1);
        WordInRow(k, stride, y1, x1, |s|);
        var j := k - (k % stride) % 2;
        InvertWordBytes(s[j], s[j + 1]);
      }
    }
  }
}
