// The digit-selection loop of KQSer.pregetverifycode (KQSer.cs): every glyph
// is matched against the ten digit templates, in digit order, by a matcher
// built with threshold 0.9; the digit appended is the template with the
// highest best similarity, the lowest index among ties, or 0 when none
// scored above 0. A failure of any match aborts the whole recognition.

module DigitSelection {
  import opened Arith
  import opened Imaging
  import opened TemplateMatching

  /** The threshold KQSer builds its matcher with. */
  const KQThreshold: real := 0.9

  /** Similarity of compare[0] for one template, 0 when it reported nothing:
      the best score of all reports, whatever order the sort left them in. */
  function TopSimilarity(S: Search): real
    requires S.Valid()
  {
    var c := Candidates(S);
    if |c| == 0 then 0.0 else BestScore(c) as real / S.MaxDiff() as real
  }

  /** The glyph may be matched against every template. */
  predicate Matchable(glyph: UnmanagedImage, templates: seq<UnmanagedImage>)
  {
    forall j :: 0 <= j < |templates| ==> FitsImage(glyph, templates[j])
  }

  /** The top similarity of the glyph against one template (0 when it
      cannot be matched against it). */
  function TopAt(glyph: UnmanagedImage, template: UnmanagedImage): real
    requires glyph.Valid() && template.Valid()
    reads glyph.data, template.data
  {
    TopOf(glyph.Layout(), glyph.data[..], template.Layout(), template.data[..])
  }

  /** TopAt on the glyph's and the template's bytes. */
  function TopOf(gl: ImageLayout, gs: seq<byte>, tl: ImageLayout, ts: seq<byte>): real
    requires gl.Valid() && |gs| == gl.Size() && tl.Valid() && |ts| == tl.Size()
  {
    if IsMatchable(gl.format) && tl.format == gl.format && tl.width <= gl.width && tl.height <= gl.height then
      var maxDiff := tl.width * tl.height * PixelSize(gl.format) * 255;
      TopSimilarity(Search(gl, gs, tl, ts, Rect(0, 0, gl.width, gl.height), ThresholdOf(KQThreshold, maxDiff)))
    else 0.0
  }

  /** The template the loop picks: none scored above 0 and the pick is 0, or
      the pick scored above 0, strictly above every earlier template and at
      least as high as every later one. */
  predicate IsChoice(tops: seq<real>, k: int)
  {
    if forall j :: 0 <= j < |tops| ==> tops[j] <= 0.0 then k == 0
    else 0 <= k < |tops| && tops[k] > 0.0
         && (forall j :: 0 <= j < k ==> tops[j] < tops[k])
         && (forall j :: k < j < |tops| ==> tops[j] <= tops[k])
  }

  /** There is only one pick: ties go to the lowest index. */
  lemma ChoiceIsUnique(tops: seq<real>, k: int, k': int)
    requires IsChoice(tops, k) && IsChoice(tops, k')
    ensures k == k'
  {
  }

  /** The character StringBuilder.Append writes for a digit. */
  function DigitChar(k: int): (c: char)
    requires 0 <= k < 10
    ensures '0' <= c <= '9' && c as int - '0' as int == k
  {
    ('0' as int + k) as char
  }

  lemma MaxDiffPositive(S: Search)
    requires S.Valid()
    ensures S.MaxDiff() > 0
  {
    var tw, th, ps := S.tpl.width, S.tpl.height, S.PixelWidth();
    assert tw * th > 0;
    assert tw * th * ps > 0;
  }

  /** compare[0].Similarity > max, as the loop tests it, for a max that is
      never negative. */
  lemma FirstReport(S: Search, compare: seq<TemplateMatch>, max: real)
    requires S.Valid() && Descending(compare) && multiset(compare) == multiset(Candidates(S)) && max >= 0.0
    ensures (|compare| > 0 && compare[0].Similarity() > max) <==> TopSimilarity(S) > max
    ensures |compare| > 0 ==> compare[0].Similarity() == TopSimilarity(S)
  {
    if |compare| > 0 {
      assert compare[0] in multiset(Candidates(S));
      FirstIsBest(compare, Candidates(S));
      Reported(S, compare[0]);
      MaxDiffPositive(S);
    } else {
      assert |multiset(Candidates(S))| == 0;
    }
  }

  /** The state of the template loop after the first n templates. */
  predicate Scanned(tops: seq<real>, n: int, max: real, index: int)
    requires 0 <= n <= |tops|
  {
    max >= 0.0 && (forall j :: 0 <= j < n ==> tops[j] <= max)
    && ((max == 0.0 && index == 0)
        || (0 <= index < n && max == tops[index] > 0.0 && forall j :: 0 <= j < index ==> tops[j] < max))
  }

  /** One more template: the loop takes it exactly when it beats max. */
  lemma ScanStep(tops: seq<real>, j: int, max: real, index: int)
    requires 0 <= j < |tops| && Scanned(tops, j, max, index)
    ensures tops[j] > max ==> Scanned(tops, j + 1, tops[j], j)
    ensures tops[j] <= max ==> Scanned(tops, j + 1, max, index)
  {
  }

  lemma ScannedAll(tops: seq<real>, max: real, index: int)
    requires Scanned(tops, |tops|, max, index)
    ensures IsChoice(tops, index)
  {
  }

  /** The loop's running (max, index) over the similarities seen so far:
      a template is taken when its top similarity beats max. */
  function Scan(tops: seq<real>): (p: (real, int))
    ensures p.1 == 0 || 0 <= p.1 < |tops|
  {
    if |tops| == 0 then (0.0, 0)
    else
      var p := Scan(tops[..|tops| - 1]);
      if tops[|tops| - 1] > p.0 then (tops[|tops| - 1], |tops| - 1) else p
  }

  lemma ScanLast(tops: seq<real>, top: real)
    ensures Scan(tops + [top]) == if top > Scan(tops).0 then (top, |tops|) else Scan(tops)
  {
    assert (tops + [top])[..|tops|] == tops;
  }

  /** The index of the template the loop settles on. */
  function Pick(tops: seq<real>): (k: int)
    ensures k == 0 || 0 <= k < |tops|
  {
    Scan(tops).1
  }

  lemma {:induction false} ScanIsScanned(tops: seq<real>)
    ensures Scanned(tops, |tops|, Scan(tops).0, Scan(tops).1)
  {
    if |tops| > 0 {
      var front := tops[..|tops| - 1];
      ScanIsScanned(front);
      var p := Scan(front);
      assert Scanned(tops, |front|, p.0, p.1) by {
        assert forall j :: 0 <= j < |front| ==> front[j] == tops[j];
      }
      ScanStep(tops, |front|, p.0, p.1);
    }
  }

  /** The pick is the choice, and IsChoice admits no other. */
  lemma PickIsChoice(tops: seq<real>, k: int)
    ensures IsChoice(tops, Pick(tops))
    ensures IsChoice(tops, k) <==> k == Pick(tops)
  {
    ScanIsScanned(tops);
    ScannedAll(tops, Scan(tops).0, Scan(tops).1);
    if IsChoice(tops, k) {
      ChoiceIsUnique(tops, k, Pick(tops));
    }
  }

  /** The string the glyph loop builds from the top similarities of each
      glyph against the ten templates. */
  function Digits(tops: seq<seq<real>>): (s: string)
    requires forall i :: 0 <= i < |tops| ==> |tops[i]| == 10
    ensures |s| == |tops|
  {
    seq(|tops|, i requires 0 <= i < |tops| => DigitChar(Pick(tops[i])))
  }

  /** Every character is a digit, and digit i is the one choice among glyph
      i's top similarities. */
  lemma DigitsChoose(tops: seq<seq<real>>, i: int, k: int)
    requires forall i :: 0 <= i < |tops| ==> |tops[i]| == 10
    requires 0 <= i < |tops|
    ensures '0' <= Digits(tops)[i] <= '9'
    ensures IsChoice(tops[i], k) <==> k == Digits(tops)[i] as int - '0' as int
  {
    PickIsChoice(tops[i], k);
  }

  /** The loop of pregetverifycode over the glyphs: one digit per glyph.
      tops[i][j] is the top similarity of glyph i against template j. */
  method SelectDigits(glyphs: seq<UnmanagedImage>, templates: seq<UnmanagedImage>)
    returns (r: Result<string>, ghost tops: seq<seq<real>>)
    requires |templates| == 10
    requires forall i :: 0 <= i < |glyphs| ==> glyphs[i].Valid()
    requires forall j :: 0 <= j < |templates| ==> templates[j].Valid()
    ensures r.Fail? <==> exists i :: 0 <= i < |glyphs| && !Matchable(glyphs[i], templates)
    ensures r.Ok? ==> |tops| == |glyphs| && (forall i :: 0 <= i < |tops| ==> |tops[i]| == 10) && r.value == Digits(tops)
    ensures r.Ok? ==> forall i, j {:trigger TopAt(glyphs[i], templates[j])} :: 0 <= i < |glyphs| && 0 <= j < 10 ==>
              tops[i][j] == TopAt(glyphs[i], templates[j])
  {
    var templateMatching := new ExhaustiveTemplateMatching(KQThreshold);
    var sb := "";
    tops := [];
    var i := 0;
    while i < |glyphs|
      invariant 0 <= i <= |glyphs| && templateMatching.similarityThreshold == KQThreshold
      invariant forall i' :: 0 <= i' < i ==> Matchable(glyphs[i'], templates)
      invariant |tops| == i && (forall i' :: 0 <= i' < i ==> |tops[i']| == 10) && sb == Digits(tops)
      invariant forall i', j {:trigger TopAt(glyphs[i'], templates[j])} :: 0 <= i' < i && 0 <= j < 10 ==>
                  tops[i'][j] == TopAt(glyphs[i'], templates[j])
    {
      var index, seen := SelectDigit(templateMatching, glyphs[i], templates);
      if index.Fail? {
        return Fail(index.error), tops;
      }
      sb := sb + [DigitChar(index.value)];
      tops := tops + [seen];
      i := i + 1;
    }
    return Ok(sb), tops;
  }

  /** The template loop for one glyph: the index of the chosen template.
      tops[j] is the glyph's top similarity against template j. */
  method SelectDigit(templateMatching: ExhaustiveTemplateMatching, glyph: UnmanagedImage, templates: seq<UnmanagedImage>)
    returns (r: Result<int>, ghost tops: seq<real>)
    requires templateMatching.similarityThreshold == KQThreshold && |templates| == 10
    requires glyph.Valid() && forall j :: 0 <= j < |templates| ==> templates[j].Valid()
    ensures r.Fail? <==> !Matchable(glyph, templates)
    ensures r.Ok? ==> |tops| == 10 && r.value == Pick(tops)
    ensures r.Ok? ==> forall j {:trigger TopAt(glyph, templates[j])} :: 0 <= j < 10 ==> tops[j] == TopAt(glyph, templates[j])
  {
    var max := 0.0;
    var index := 0;
    tops := [];
    var j := 0;
    while j < |templates|
      invariant 0 <= j <= |templates| && |tops| == j
      invariant forall j' :: 0 <= j' < j ==> FitsImage(glyph, templates[j'])
      invariant forall j' {:trigger TopAt(glyph, templates[j'])} :: 0 <= j' < j ==> tops[j'] == TopAt(glyph, templates[j'])
      invariant (max, index) == Scan(tops)
    {
      var top := Compare(templateMatching, glyph, templates[j]);
      if top.Fail? {
        return Fail(top.error), tops;
      }
      ScanLast(tops, top.value);
      if top.value > max {
        max := top.value;
        index := j;
      }
      tops := tops + [top.value];
      j := j + 1;
    }
    return Ok(index), tops;
  }

  /** templateMatching.ProcessImage(glyph, template) and compare[0].Similarity,
      or 0 when nothing was reported: as max is never negative, testing the
      result against max is the loop's test on compare. */
  method Compare(templateMatching: ExhaustiveTemplateMatching, glyph: UnmanagedImage, template: UnmanagedImage)
    returns (r: Result<real>)
    requires templateMatching.similarityThreshold == KQThreshold && glyph.Valid() && template.Valid()
    ensures r.Fail? <==> !FitsImage(glyph, template)
    ensures r.Ok? ==> r.value == TopAt(glyph, template)
  {
    var compare := templateMatching.ProcessWholeImage(glyph, template);
    if compare.Fail? {
      return Fail(compare.error);
    }
    FirstReport(WholeSearch(glyph, template, KQThreshold), compare.value, 0.0);
    if |compare.value| > 0 {
      return Ok(compare.value[0].Similarity());
    }
    return Ok(0.0);
  }
}
