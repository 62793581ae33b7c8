// The recognition pipeline of KQSer.pregetverifycode (KQSer.cs): the
// CAPTCHA image is preprocessed, cut into column strips by Crop_Y, each
// strip trimmed to its bands of rows by Crop_X, every band resized to
// 20 x 20 and centred, and the glyphs matched against the ten digit
// templates. Any failure along the way aborts the whole recognition.

module Recognition {
  import opened Imaging
  import opened ProjectionRuns
  import opened Segmentation
  import opened DigitSelection
  import opened TemplateMatching
  import Centring
  import Preprocess

  /** Every template can be matched against a 20 x 20 glyph of the
      preprocessed image: it is 8bpp and no larger than the glyph. */
  predicate TemplatesFit(templates: seq<UnmanagedImage>)
  {
    forall j :: 0 <= j < |templates| ==>
      templates[j].format == Format8bppIndexed && templates[j].width <= 20 && templates[j].height <= 20
  }

  /** Crop_Y meets the narrow run over columns 0 and 1, whose crop has no
      width. */
  ghost predicate NarrowColumns(tbp: UnmanagedImage)
    requires tbp.Valid() && IsReadable(tbp.format)
    reads tbp.data
  {
    var runs := Runs(Counts(tbp.Layout(), tbp.data[..], Columns));
    exists k :: 0 <= k < |runs| && ColumnRect(runs[k], tbp.height).width <= 0
  }

  /** The strips are crops of the preprocessed image: valid images of its
      format. */
  lemma StripsOf(tbp: UnmanagedImage, strips: seq<UnmanagedImage>, runs: seq<Run>)
    requires tbp.Valid() && IsReadable(tbp.format) && Strips(strips, tbp, Columns, runs)
    ensures forall i :: 0 <= i < |strips| ==> strips[i].Valid() && strips[i].format == tbp.format
  {
    forall i | 0 <= i < |strips|
      ensures strips[i].Valid() && strips[i].format == tbp.format
    {
      assert CropFilter.IsCrop(strips[i], tbp, RunRect(Columns, runs[i], tbp.width, tbp.height));
    }
  }

  /** The bands of all strips are crops of the strips: valid images of
      their format. */
  lemma BandsOf(strips: seq<UnmanagedImage>, bands: seq<seq<UnmanagedImage>>)
    requires forall i :: 0 <= i < |strips| ==> strips[i].Valid() && strips[i].format == Format8bppIndexed
    requires AllBands(bands, strips)
    ensures forall n :: 0 <= n < |Concat(bands)| ==> Concat(bands)[n].Valid() && Concat(bands)[n].format == Format8bppIndexed
  {
    forall n | 0 <= n < |Concat(bands)|
      ensures Concat(bands)[n].Valid() && Concat(bands)[n].format == Format8bppIndexed
    {
      var i, k := ConcatIndex(bands, n);
      assert Strips(bands[i], strips[i], Rows, Bands(strips[i]));
      assert CropFilter.IsCrop(bands[i][k], strips[i], RunRect(Rows, Bands(strips[i])[k], strips[i].width, strips[i].height));
    }
  }

  /** Element n of the concatenation is element k of part i. */
  lemma {:induction false} ConcatIndex<T>(xss: seq<seq<T>>, n: int) returns (i: int, k: int)
    requires 0 <= n < |Concat(xss)|
    ensures 0 <= i < |xss| && 0 <= k < |xss[i]| && Concat(xss)[n] == xss[i][k]
  {
    var front := xss[..|xss| - 1];
    if n < |Concat(front)| {
      i, k := ConcatIndex(front, n);
      assert front[i] == xss[i];
    } else {
      i, k := |xss| - 1, n - |Concat(front)|;
    }
  }

  /** Each glyph is the piece at its position, resized to 20 x 20 and
      centred. */
  ghost predicate AllCentred(glyphs: seq<UnmanagedImage>, pieces: seq<UnmanagedImage>)
    requires forall n :: 0 <= n < |pieces| ==> pieces[n].Valid() && Centring.Invertible(pieces[n].format)
    reads set n | 0 <= n < |glyphs| :: glyphs[n].data
    reads set n | 0 <= n < |pieces| :: pieces[n].data
  {
    |glyphs| == |pieces| && forall n :: 0 <= n < |glyphs| ==> Centring.IsCentred(glyphs[n], pieces[n], 20, 20)
  }

  /** The pieces of the preprocessed image tbp: the strips Crop_Y cuts from
      it along its column runs, the bands Crop_X cuts from each strip, valid
      images of tbp's format, and the glyphs, each band resized to 20 x 20
      and centred. */
  ghost predicate Segmented(tbp: UnmanagedImage, strips: seq<UnmanagedImage>, bands: seq<seq<UnmanagedImage>>,
                            glyphs: seq<UnmanagedImage>)
    requires tbp.Valid() && tbp.format == Format8bppIndexed
    reads tbp.data, set i | 0 <= i < |strips| :: strips[i].data
    reads set i, k | 0 <= i < |bands| && 0 <= k < |bands[i]| :: bands[i][k].data
    reads set n | 0 <= n < |Concat(bands)| :: Concat(bands)[n].data
    reads set n | 0 <= n < |glyphs| :: glyphs[n].data
  {
    Strips(strips, tbp, Columns, Runs(Counts(tbp.Layout(), tbp.data[..], Columns)))
    && (forall i :: 0 <= i < |strips| ==> strips[i].Valid() && strips[i].format == Format8bppIndexed)
    && AllBands(bands, strips)
    && (forall n :: 0 <= n < |Concat(bands)| ==> Concat(bands)[n].Valid() && Concat(bands)[n].format == Format8bppIndexed)
    && AllCentred(glyphs, Concat(bands))
  }

  /** Crop_X and ToResizeAndCenterIt over the strips Crop_Y cut from the
      preprocessed image: every band of every strip, in order, resized to
      20 x 20 and centred. Neither step fails on these images. */
  method CutGlyphs(tbp: UnmanagedImage, strips: seq<UnmanagedImage>, ghost templates: seq<UnmanagedImage>)
    returns (glyphs: seq<UnmanagedImage>, ghost bands: seq<seq<UnmanagedImage>>)
    requires tbp.Valid() && tbp.format == Format8bppIndexed
    requires Strips(strips, tbp, Columns, Runs(Counts(tbp.Layout(), tbp.data[..], Columns)))
    ensures Segmented(tbp, strips, bands, glyphs)
    ensures forall n :: 0 <= n < |glyphs| ==> glyphs[n].Valid()
    ensures forall n :: 0 <= n < |glyphs| ==> (Matchable(glyphs[n], templates) <==> TemplatesFit(templates))
  {
    StripsOf(tbp, strips, Runs(Counts(tbp.Layout(), tbp.data[..], Columns)));
    var corplist;
    corplist, bands := CropX(strips);
    BandsOf(strips, bands);
    ghost var runs := Runs(Counts(tbp.Layout(), tbp.data[..], Columns));
    assert Strips(strips, tbp, Columns, runs);
    assert AllBands(bands, strips);
    glyphs := CentreBands(corplist);
    assert Strips(strips, tbp, Columns, runs);
    assert AllBands(bands, strips);
  }

  /** ToResizeAndCenterIt over the bands, copied into the array it works
      on: each band resized to 20 x 20 and centred. It cannot fail on
      8bpp images. */
  method CentreBands(pieces: seq<UnmanagedImage>) returns (glyphs: seq<UnmanagedImage>)
    requires forall n :: 0 <= n < |pieces| ==> pieces[n].Valid() && pieces[n].format == Format8bppIndexed
    ensures AllCentred(glyphs, pieces)
    ensures forall n :: 0 <= n < |glyphs| ==> glyphs[n].Valid() && glyphs[n].format == Format8bppIndexed
                                               && glyphs[n].width == 20 && glyphs[n].height == 20
  {
    var list := new UnmanagedImage[|pieces|](n requires 0 <= n < |pieces| => pieces[n]);
    var centred := Centring.ToResizeAndCenterIt(list, 20, 20);
    if centred.Fail? {
      assert false;
      return [];
    }
    glyphs := centred.value;
  }

  /** The digit loop over glyphs that all fit the templates or all do not:
      it fails exactly when there is a glyph and the templates do not fit. */
  method MatchGlyphs(glyphs: seq<UnmanagedImage>, templates: seq<UnmanagedImage>)
    returns (r: Result<string>, ghost tops: seq<seq<real>>)
    requires |templates| == 10 && forall j :: 0 <= j < |templates| ==> templates[j].Valid()
    requires forall n :: 0 <= n < |glyphs| ==> glyphs[n].Valid()
    requires forall n :: 0 <= n < |glyphs| ==> (Matchable(glyphs[n], templates) <==> TemplatesFit(templates))
    ensures r.Fail? <==> |glyphs| > 0 && !TemplatesFit(templates)
    ensures r.Ok? ==>
              |tops| == |glyphs| && (forall i :: 0 <= i < |tops| ==> |tops[i]| == 10) && r.value == Digits(tops)
              && forall i, j {:trigger TopAt(glyphs[i], templates[j])} :: 0 <= i < |glyphs| && 0 <= j < 10 ==>
                   tops[i][j] == TopAt(glyphs[i], templates[j])
  {
    r, tops := SelectDigits(glyphs, templates);
    if |glyphs| > 0 && !TemplatesFit(templates) {
      assert !Matchable(glyphs[0], templates);
    }
  }

  /** pregetverifycode after PreProcess: Crop_Y, Crop_X, ToResizeAndCenterIt
      and the digit loop over the preprocessed image tbp. It fails for the
      narrow run of Crop_Y and when there is a glyph the templates do not
      fit; otherwise one digit per band of every strip, each the choice
      among that glyph's top similarities. */
  method RecogniseBinarised(tbp: UnmanagedImage, templates: seq<UnmanagedImage>)
    returns (r: Result<string>, ghost strips: seq<UnmanagedImage>, ghost bands: seq<seq<UnmanagedImage>>,
             ghost glyphs: seq<UnmanagedImage>, ghost tops: seq<seq<real>>)
    requires tbp.Valid() && tbp.format == Format8bppIndexed
    requires |templates| == 10 && forall j :: 0 <= j < |templates| ==> templates[j].Valid()
    ensures NarrowColumns(tbp) ==> r == Fail(InvalidImageProperties)
    ensures !NarrowColumns(tbp) ==>
              Segmented(tbp, strips, bands, glyphs)
    ensures r.Fail? <==> NarrowColumns(tbp) || (|glyphs| > 0 && !TemplatesFit(templates))
    ensures r.Ok? ==>
              |tops| == |glyphs| && (forall i :: 0 <= i < |tops| ==> |tops[i]| == 10) && r.value == Digits(tops)
              && (forall i :: 0 <= i < |glyphs| ==> glyphs[i].Valid())
              && forall i, j {:trigger TopAt(glyphs[i], templates[j])} :: 0 <= i < |glyphs| && 0 <= j < 10 ==>
                   tops[i][j] == TopAt(glyphs[i], templates[j])
  {
    strips, bands, glyphs, tops := [], [], [], [];
    var cut := CropY(tbp);
    if cut.Fail? {
      return Fail(cut.error), strips, bands, glyphs, tops;
    }
    var columns := cut.value;
    strips := columns;
    var resized;
    resized, bands := CutGlyphs(tbp, columns, templates);
    glyphs := resized;
    ghost var runs := Runs(Counts(tbp.Layout(), tbp.data[..], Columns));
    assert Strips(strips, tbp, Columns, runs);
    assert AllBands(bands, strips);
    assert AllCentred(glyphs, Concat(bands));
    r, tops := MatchGlyphs(resized, templates);
    assert Strips(strips, tbp, Columns, runs);
    assert AllBands(bands, strips);
    assert AllCentred(glyphs, Concat(bands));
  }

  /** pregetverifycode from the downloaded image on: PreProcess, then the
      pipeline above over the binarised image. It fails for a one-pixel-wide
      image and otherwise exactly when the pipeline fails. The ghost results
      name the preprocessed image, the strips, the bands of each strip, the
      centred glyphs and their top similarities. */
  method Recognise(image: UnmanagedImage, templates: seq<UnmanagedImage>)
    returns (r: Result<string>, ghost tbp: UnmanagedImage, ghost strips: seq<UnmanagedImage>,
             ghost bands: seq<seq<UnmanagedImage>>, ghost glyphs: seq<UnmanagedImage>, ghost tops: seq<seq<real>>)
    requires image.Valid() && image.format == Format24bppRgb
    requires |templates| == 10 && forall j :: 0 <= j < |templates| ==> templates[j].Valid()
    ensures image.width == 1 ==> r == Fail(InvalidImageProperties)
    ensures image.width != 1 ==>
              tbp.Valid() && tbp.format == Format8bppIndexed && tbp.width == image.width && tbp.height == image.height
    ensures image.width != 1 && NarrowColumns(tbp) ==> r == Fail(InvalidImageProperties)
    ensures image.width != 1 && !NarrowColumns(tbp) ==>
              Segmented(tbp, strips, bands, glyphs)
    ensures r.Fail? <==> image.width == 1 || NarrowColumns(tbp) || (|glyphs| > 0 && !TemplatesFit(templates))
    ensures r.Ok? ==>
              |tops| == |glyphs| && (forall i :: 0 <= i < |tops| ==> |tops[i]| == 10) && r.value == Digits(tops)
              && (forall i :: 0 <= i < |glyphs| ==> glyphs[i].Valid())
              && forall i, j {:trigger TopAt(glyphs[i], templates[j])} :: 0 <= i < |glyphs| && 0 <= j < 10 ==>
                   tops[i][j] == TopAt(glyphs[i], templates[j])
    ensures image.width != 1 ==>
              forall x, y :: image.Layout().InBounds(x, y) ==>
                PixelBytes(tbp.Layout(), tbp.data[..], x, y)
                == [Preprocess.Binarised(PixelBytes(image.Layout(), image.data[..], x, y))]
  {
    tbp, strips, bands, glyphs, tops := image, [], [], [], [];
    var pre := Preprocess.PreProcess(image);
    if pre.Fail? {
      return Fail(pre.error), tbp, strips, bands, glyphs, tops;
    }
    var t := pre.value;
    tbp := t;
    r, strips, bands, glyphs, tops := RecogniseBinarised(t, templates);
  }
}
