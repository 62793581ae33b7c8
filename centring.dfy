// Main.ToResizeAndCenterIt: every glyph is inverted, cropped (or padded with
// zero bytes) to w x h from its top-left corner, inverted back, and moved
// by ((w - sw) / 2, (h - sh) / 2) on a canvas filled with Color.White.
// Invert twice restores the glyph, the padding of the crop comes out as 255
// bytes, and the canvas fill is the format's fill pattern for white.

module Centring {
  import opened Arith
  import opened Imaging
  import opened Spans
  import Filters
  import CropFilter
  import CanvasMoveFilter

  /** System.Drawing.Color.White: A, R, G, B all 255. */
  const White := Color(255, 255, 255, 255)

  /** The formats Invert accepts, the only ones a glyph can be centred in. */
  predicate Invertible(f: PixelFormat)
  {
    f in Filters.Translations(Filters.Invert)
  }

  /** Invert undoes itself. */
  lemma InvertTwice(b: seq<byte>)
    ensures MapEach(MapEach(b, Filters.InvertByte), Filters.InvertByte) == b
  {
    var once := MapEach(b, Filters.InvertByte);
    var twice := MapEach(once, Filters.InvertByte);
    forall k | 0 <= k < |b|
      ensures twice[k] == b[k]
    {
      assert once[k] == Filters.InvertByte(b[k]);
      assert twice[k] == Filters.InvertByte(once[k]);
    }
  }

  /** Invert turns the zero padding of Crop into 255 bytes. */
  lemma InvertZeros(n: nat)
    ensures MapEach(seq(n, _ => 0), Filters.InvertByte) == seq(n, _ => 255)
  {
    var zeros: seq<byte> := seq(n, _ => 0);
    assert forall k :: 0 <= k < n ==> MapEach(zeros, Filters.InvertByte)[k] == Filters.InvertByte(0) == 255;
  }

  /** How far the glyph is moved along one axis: (size - glyph size) / 2,
      truncated toward zero as C# divides. */
  function Shift(size: int, glyphSize: int): int
  {
    CsDiv(size - glyphSize, 2)
  }

  /** Pixel (x, y) of the centred glyph: the glyph pixel it comes from when
      that exists, 255 bytes where the crop padded the glyph, and the white
      fill where the canvas move left the pixel empty. */
  function CentredPixel(l: ImageLayout, s: seq<byte>, w: int, h: int, x: int, y: int): (p: seq<byte>)
    requires l.Valid() && |s| == l.Size() && Invertible(l.format)
    ensures |p| == PixelSize(l.format)
  {
    var u, v := x - Shift(w, l.width), y - Shift(h, l.height);
    if 0 <= u < w && 0 <= v < h then
      if l.InBounds(u, v) then PixelBytes(l, s, u, v) else seq(PixelSize(l.format), _ => 255)
    else CanvasMoveFilter.FillPattern(l.format, White, 255)
  }

  /** The bytes s of layout l are the glyph (gl, gs) resized to w x h and
      centred. */
  ghost predicate CentredImage(l: ImageLayout, s: seq<byte>, gl: ImageLayout, gs: seq<byte>, w: int, h: int)
    requires gl.Valid() && |gs| == gl.Size() && Invertible(gl.format)
  {
    l.Valid() && |s| == l.Size() && l.width == w && l.height == h && l.format == gl.format
    && forall x, y {:trigger PixelBytes(l, s, x, y)} :: l.InBounds(x, y) ==>
         PixelBytes(l, s, x, y) == CentredPixel(gl, gs, w, h, x, y)
  }

  /** img is glyph, resized to w x h and centred. */
  ghost predicate IsCentred(img: UnmanagedImage, glyph: UnmanagedImage, w: int, h: int)
    requires glyph.Valid() && Invertible(glyph.format)
    reads img.data, glyph.data
  {
    img.Valid() && CentredImage(img.Layout(), img.data[..], glyph.Layout(), glyph.data[..], w, h)
  }

  /** img is the Invert of glyph. */
  ghost predicate IsInverted(img: UnmanagedImage, glyph: UnmanagedImage)
    requires glyph.Valid() && Invertible(glyph.format)
    reads img.data, glyph.data
  {
    img.Valid() && Filters.Mapped(Filters.Invert, img.Layout(), img.data[..], glyph.Layout(), glyph.data[..])
  }

  // ---------------------------------------------------------------- what centring does

  /** A glyph that fits is kept whole: each of its pixels lands inside the
      w x h image, moved by the shift, with the same bytes. */
  lemma GlyphKept(l: ImageLayout, s: seq<byte>, w: int, h: int, u: int, v: int)
    requires l.Valid() && |s| == l.Size() && Invertible(l.format)
    requires l.width <= w && l.height <= h && l.InBounds(u, v)
    ensures 0 <= u + Shift(w, l.width) < w && 0 <= v + Shift(h, l.height) < h
    ensures CentredPixel(l, s, w, h, u + Shift(w, l.width), v + Shift(h, l.height)) == PixelBytes(l, s, u, v)
  {
  }

  /** ... with the margins on either side equal, or the right (bottom) one a
      pixel wider. */
  lemma Centred(size: int, glyphSize: int)
    requires glyphSize <= size
    ensures 0 <= Shift(size, glyphSize)
    ensures size - glyphSize - Shift(size, glyphSize) - Shift(size, glyphSize) in {0, 1}
  {
    CsDivByTwo(size - glyphSize);
  }

  /** A glyph that does not fit loses the part beyond w (h) and is moved
      back by half the excess, rounded toward zero: what is shown of it is
      the window of its first w columns (h rows) that lands on the image. */
  lemma GlyphCut(l: ImageLayout, s: seq<byte>, w: int, h: int, x: int, y: int)
    requires l.Valid() && |s| == l.Size() && Invertible(l.format)
    requires 0 < w < l.width && 0 <= x < w && 0 <= y < h
    ensures Shift(w, l.width) == -((l.width - w) / 2)
    ensures var u := x - Shift(w, l.width);
            l.InBounds(u, y - Shift(h, l.height)) && u < w && y - Shift(h, l.height) < h ==>
              CentredPixel(l, s, w, h, x, y) == PixelBytes(l, s, u, y - Shift(h, l.height))
    ensures x - Shift(w, l.width) >= w ==> CentredPixel(l, s, w, h, x, y) == CanvasMoveFilter.FillPattern(l.format, White, 255)
  {
  }

  /** On 8-bit grey and 24-bit colour glyphs every pixel that does not come
      from the glyph is white: 255 in every byte. */
  lemma WhiteBackground(l: ImageLayout, s: seq<byte>, w: int, h: int, x: int, y: int)
    requires l.Valid() && |s| == l.Size() && (l.format == Format8bppIndexed || l.format == Format24bppRgb)
    requires !l.InBounds(x - Shift(w, l.width), y - Shift(h, l.height))
    ensures CentredPixel(l, s, w, h, x, y) == seq(PixelSize(l.format), _ => 255)
  {
  }

  /** On 16-bit grey glyphs the canvas fill is not white: CanvasMove writes
      the grey byte 255 unshifted, so the sample is 0x00FF. Only pixels the
      move leaves empty get it; the crop padding is still 0xFFFF. */
  lemma GreyCanvasFill(l: ImageLayout, s: seq<byte>, w: int, h: int, x: int, y: int)
    requires l.Valid() && |s| == l.Size() && l.format == Format16bppGrayScale
    requires !(0 <= x - Shift(w, l.width) < w && 0 <= y - Shift(h, l.height) < h)
    ensures CentredPixel(l, s, w, h, x, y) == [255, 0]
  {
  }

  // ---------------------------------------------------------------- the filters

  /** One glyph of the loop: list[i] is replaced by each filter's result in
      turn. When Invert throws, list[i] is unchanged; when Crop throws (a
      size that is not positive), list[i] is already the inverted glyph. */
  method CentreAt(list: array<UnmanagedImage>, i: int, w: int, h: int) returns (r: Outcome)
    requires 0 <= i < list.Length && list[i].Valid()
    modifies list
    ensures forall j :: 0 <= j < list.Length && j != i ==> list[j] == old(list[j])
    ensures r.Failure? <==> !Invertible(old(list[i]).format) || w <= 0 || h <= 0
    ensures !Invertible(old(list[i]).format) ==> r == Failure(UnsupportedImageFormat) && list[i] == old(list[i])
    ensures Invertible(old(list[i]).format) && (w <= 0 || h <= 0) ==>
              r == Failure(InvalidImageProperties) && fresh(list[i].data) && IsInverted(list[i], old(list[i]))
    ensures r.Pass? ==> fresh(list[i].data) && IsCentred(list[i], old(list[i]), w, h)
  {
    ghost var gl, gs := list[i].Layout(), list[i].data[..];
    var inverted := Filters.Apply(Filters.Invert, list[i]);
    if inverted.Fail? {
      return Failure(inverted.error);
    }
    list[i] := inverted.value;
    ghost var al, sa := list[i].Layout(), list[i].data[..];
    var sw, sh := list[i].width, list[i].height;
    var cropped := CropFilter.Apply(Rect(0, 0, w, h), list[i]);
    if cropped.Fail? {
      return Failure(cropped.error);
    }
    list[i] := cropped.value;
    ghost var bl, sb := list[i].Layout(), list[i].data[..];
    var restored := Filters.Apply(Filters.Invert, list[i]);
    list[i] := restored.value;
    ghost var cl, sc := list[i].Layout(), list[i].data[..];
    var centerX, centerY := CsDiv(w - sw, 2), CsDiv(h - sh, 2);
    var move := CanvasMoveFilter.WithColor(IntPoint(centerX, centerY), White);
    var moved := CanvasMoveFilter.Apply(move, list[i]);
    list[i] := moved.value;
    Chain(gl, gs, al, sa, bl, sb, cl, sc, move, list[i].Layout(), list[i].data[..], w, h);
    return Pass;
  }

  /** The images ToResizeAndCenterIt goes through: (al, sa) is the inverted
      glyph, (bl, sb) its crop, (cl, sc) that inverted back and (dl, sd) the
      canvas move. */
  ghost predicate Stages(gl: ImageLayout, gs: seq<byte>, al: ImageLayout, sa: seq<byte>, bl: ImageLayout, sb: seq<byte>,
                         cl: ImageLayout, sc: seq<byte>, move: CanvasMoveFilter.CanvasMove, dl: ImageLayout, sd: seq<byte>,
                         w: int, h: int)
  {
    gl.Valid() && |gs| == gl.Size() && Invertible(gl.format)
    && Filters.Mapped(Filters.Invert, al, sa, gl, gs)
    && CropFilter.CropOf(bl, sb, al, sa, Rect(0, 0, w, h))
    && Filters.Mapped(Filters.Invert, cl, sc, bl, sb)
    && CanvasMoveFilter.CanvasLayout(cl)
    && move == CanvasMoveFilter.WithColor(IntPoint(Shift(w, gl.width), Shift(h, gl.height)), White)
    && CanvasMoveFilter.Shifted(move, dl, sd, cl, sc)
  }

  /** The four filters compose to CentredPixel: (al, sa) is the inverted
      glyph, (bl, sb) its crop, (cl, sc) that inverted back and (dl, sd) the
      canvas move. */
  lemma Chain(gl: ImageLayout, gs: seq<byte>, al: ImageLayout, sa: seq<byte>, bl: ImageLayout, sb: seq<byte>,
              cl: ImageLayout, sc: seq<byte>, move: CanvasMoveFilter.CanvasMove, dl: ImageLayout, sd: seq<byte>, w: int, h: int)
    requires Stages(gl, gs, al, sa, bl, sb, cl, sc, move, dl, sd, w, h)
    ensures CentredImage(dl, sd, gl, gs, w, h)
  {
    forall x, y | dl.InBounds(x, y)
      ensures PixelBytes(dl, sd, x, y) == CentredPixel(gl, gs, w, h, x, y)
    {
      ChainAt(gl, gs, al, sa, bl, sb, cl, sc, move, dl, sd, w, h, x, y);
    }
  }

  /** Chain at one pixel: the canvas fill, a pixel of the glyph, or a pixel
      of the crop's padding. */
  lemma ChainAt(gl: ImageLayout, gs: seq<byte>, al: ImageLayout, sa: seq<byte>, bl: ImageLayout, sb: seq<byte>,
                cl: ImageLayout, sc: seq<byte>, move: CanvasMoveFilter.CanvasMove, dl: ImageLayout, sd: seq<byte>,
                w: int, h: int, x: int, y: int)
    requires Stages(gl, gs, al, sa, bl, sb, cl, sc, move, dl, sd, w, h)
    requires dl.InBounds(x, y)
    ensures PixelBytes(dl, sd, x, y) == CentredPixel(gl, gs, w, h, x, y)
  {
    if !(0 <= x - Shift(w, gl.width) < w && 0 <= y - Shift(h, gl.height) < h) {
      EmptyAt(gl, gs, al, sa, bl, sb, cl, sc, move, dl, sd, w, h, x, y);
    } else {
      MovedAt(gl, gs, al, sa, bl, sb, cl, sc, move, dl, sd, w, h, x, y);
    }
  }

  /** ChainAt where the move leaves the pixel empty. */
  lemma EmptyAt(gl: ImageLayout, gs: seq<byte>, al: ImageLayout, sa: seq<byte>, bl: ImageLayout, sb: seq<byte>,
                cl: ImageLayout, sc: seq<byte>, move: CanvasMoveFilter.CanvasMove, dl: ImageLayout, sd: seq<byte>,
                w: int, h: int, x: int, y: int)
    requires Stages(gl, gs, al, sa, bl, sb, cl, sc, move, dl, sd, w, h)
    requires dl.InBounds(x, y) && !(0 <= x - Shift(w, gl.width) < w && 0 <= y - Shift(h, gl.height) < h)
    ensures PixelBytes(dl, sd, x, y) == CentredPixel(gl, gs, w, h, x, y)
  {
    var dp := PixelBytes(dl, sd, x, y);
    assert dp == CanvasMoveFilter.FillPattern(cl.format, White, 255);
    FillCase(gl, gs, w, h, x, y, dp);
  }

  /** ChainAt where the move brings a pixel of the crop. */
  lemma MovedAt(gl: ImageLayout, gs: seq<byte>, al: ImageLayout, sa: seq<byte>, bl: ImageLayout, sb: seq<byte>,
                cl: ImageLayout, sc: seq<byte>, move: CanvasMoveFilter.CanvasMove, dl: ImageLayout, sd: seq<byte>,
                w: int, h: int, x: int, y: int)
    requires Stages(gl, gs, al, sa, bl, sb, cl, sc, move, dl, sd, w, h)
    requires dl.InBounds(x, y) && 0 <= x - Shift(w, gl.width) < w && 0 <= y - Shift(h, gl.height) < h
    ensures PixelBytes(dl, sd, x, y) == CentredPixel(gl, gs, w, h, x, y)
  {
    var u, v := x - Shift(w, gl.width), y - Shift(h, gl.height);
    var dp := PixelBytes(dl, sd, x, y);
    var bp := MovedIn(gl, bl, sb, cl, sc, move, dl, sd, w, h, x, y);
    CroppedAt(gl, gs, al, sa, bl, sb, w, h, u, v);
    if gl.InBounds(u, v) {
      InsideCase(gl, gs, w, h, x, y, dp, bp);
    } else {
      PaddedCase(gl, gs, w, h, x, y, dp, bp);
    }
  }

  /** A pixel of the crop of the inverted glyph: the inverted glyph pixel,
      or zero padding beyond the glyph. */
  lemma CroppedAt(gl: ImageLayout, gs: seq<byte>, al: ImageLayout, sa: seq<byte>, bl: ImageLayout, sb: seq<byte>,
                  w: int, h: int, u: int, v: int)
    requires gl.Valid() && |gs| == gl.Size() && Invertible(gl.format)
    requires Filters.Mapped(Filters.Invert, al, sa, gl, gs)
    requires CropFilter.CropOf(bl, sb, al, sa, Rect(0, 0, w, h))
    requires bl.InBounds(u, v)
    ensures gl.InBounds(u, v) ==> PixelBytes(bl, sb, u, v) == MapEach(PixelBytes(gl, gs, u, v), Filters.InvertByte)
    ensures !gl.InBounds(u, v) ==> PixelBytes(bl, sb, u, v) == seq(PixelSize(gl.format), _ => 0)
  {
    var bp := PixelBytes(bl, sb, u, v);
    if gl.InBounds(u, v) {
      assert bp == PixelBytes(al, sa, u, v);
    }
  }

  /** A pixel the move leaves empty holds the canvas fill. */
  lemma FillCase(gl: ImageLayout, gs: seq<byte>, w: int, h: int, x: int, y: int, dp: seq<byte>)
    requires gl.Valid() && |gs| == gl.Size() && Invertible(gl.format)
    requires !(0 <= x - Shift(w, gl.width) < w && 0 <= y - Shift(h, gl.height) < h)
    requires dp == CanvasMoveFilter.FillPattern(gl.format, White, 255)
    ensures dp == CentredPixel(gl, gs, w, h, x, y)
  {
  }

  /** A glyph pixel inverted twice is the glyph pixel. */
  lemma InsideCase(gl: ImageLayout, gs: seq<byte>, w: int, h: int, x: int, y: int, dp: seq<byte>, bp: seq<byte>)
    requires gl.Valid() && |gs| == gl.Size() && Invertible(gl.format)
    requires 0 <= x - Shift(w, gl.width) < w && 0 <= y - Shift(h, gl.height) < h
    requires gl.InBounds(x - Shift(w, gl.width), y - Shift(h, gl.height))
    requires bp == MapEach(PixelBytes(gl, gs, x - Shift(w, gl.width), y - Shift(h, gl.height)), Filters.InvertByte)
    requires dp == MapEach(bp, Filters.InvertByte)
    ensures dp == CentredPixel(gl, gs, w, h, x, y)
  {
    InvertTwice(PixelBytes(gl, gs, x - Shift(w, gl.width), y - Shift(h, gl.height)));
  }

  /** The crop's zero padding inverted is 255 in every byte. */
  lemma PaddedCase(gl: ImageLayout, gs: seq<byte>, w: int, h: int, x: int, y: int, dp: seq<byte>, bp: seq<byte>)
    requires gl.Valid() && |gs| == gl.Size() && Invertible(gl.format)
    requires 0 <= x - Shift(w, gl.width) < w && 0 <= y - Shift(h, gl.height) < h
    requires !gl.InBounds(x - Shift(w, gl.width), y - Shift(h, gl.height))
    requires bp == seq(PixelSize(gl.format), _ => 0)
    requires dp == MapEach(bp, Filters.InvertByte)
    ensures dp == CentredPixel(gl, gs, w, h, x, y)
  {
    InvertZeros(PixelSize(gl.format));
  }

  /** A pixel the canvas move brings in is the Invert of the crop's pixel. */
  lemma MovedIn(gl: ImageLayout, bl: ImageLayout, sb: seq<byte>, cl: ImageLayout, sc: seq<byte>,
                move: CanvasMoveFilter.CanvasMove, dl: ImageLayout, sd: seq<byte>, w: int, h: int, x: int, y: int)
    returns (bp: seq<byte>)
    requires bl.Valid() && |sb| == bl.Size() && Invertible(bl.format)
    requires Filters.Mapped(Filters.Invert, cl, sc, bl, sb)
    requires CanvasMoveFilter.CanvasLayout(cl)
    requires move.move == IntPoint(Shift(w, gl.width), Shift(h, gl.height))
    requires CanvasMoveFilter.Shifted(move, dl, sd, cl, sc)
    requires dl.InBounds(x, y) && cl.InBounds(x - Shift(w, gl.width), y - Shift(h, gl.height))
    ensures bl.InBounds(x - Shift(w, gl.width), y - Shift(h, gl.height))
    ensures bp == PixelBytes(bl, sb, x - Shift(w, gl.width), y - Shift(h, gl.height))
    ensures PixelBytes(dl, sd, x, y) == MapEach(bp, Filters.InvertByte)
  {
    var u, v := x - Shift(w, gl.width), y - Shift(h, gl.height);
    bp := PixelBytes(bl, sb, u, v);
    assert PixelBytes(dl, sd, x, y) == PixelBytes(cl, sc, u, v);
  }

  /** Main.ToResizeAndCenterIt(list, w = 20, h = 20): every glyph replaced,
      in place, by its centred copy; the result lists the same images. The
      first glyph that cannot be centred stops the loop, with the glyphs
      before it centred and the glyphs after it untouched. */
  method ToResizeAndCenterIt(list: array<UnmanagedImage>, w: int := 20, h: int := 20)
    returns (r: Result<seq<UnmanagedImage>>)
    requires forall i :: 0 <= i < list.Length ==> list[i].Valid()
    modifies list
    ensures r.Fail? <==> exists i :: 0 <= i < list.Length && (!Invertible(old(list[i]).format) || w <= 0 || h <= 0)
    ensures r.Ok? ==> r.value == list[..]
    ensures r.Ok? ==> forall i :: 0 <= i < list.Length ==> fresh(list[i].data) && IsCentred(list[i], old(list[i]), w, h)
    ensures r.Fail? ==>
              exists i :: (0 <= i < list.Length && (!Invertible(old(list[i]).format) || w <= 0 || h <= 0)
                           && (forall j :: 0 <= j < i ==> Invertible(old(list[j]).format) && fresh(list[j].data)
                                                           && IsCentred(list[j], old(list[j]), w, h))
                           && (forall j :: i < j < list.Length ==> list[j] == old(list[j])))
  {
    var i := 0;
    while i < list.Length
      invariant 0 <= i <= list.Length
      invariant forall j :: 0 <= j < i ==> Invertible(old(list[j]).format) && w > 0 && h > 0
      invariant forall j :: 0 <= j < i ==> fresh(list[j].data) && IsCentred(list[j], old(list[j]), w, h)
      invariant forall j :: i <= j < list.Length ==> list[j] == old(list[j])
    {
      var done := CentreAt(list, i, w, h);
      if done.Failure? {
        assert !Invertible(old(list[i]).format) || w <= 0 || h <= 0;
        return Fail(done.error);
      }
      i := i + 1;
    }
    return Ok(list[..]);
  }
}
