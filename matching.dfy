// ExhaustiveTemplateMatching (AForgeCore.cs): every placement of a template
// inside a search zone is scored by the sum of absolute byte differences
// (SAD). Scores that reach the threshold go into a grid padded by two zero
// cells on every side; a cell is reported when no cell within two steps
// holds a strictly higher score, and the reports are sorted by decreasing
// similarity.
//
// Scores are the source's integers: sim = maxDiff - dif with
// maxDiff = tw * th * pixelSize * 255. The reported float similarity is
// sim / maxDiff, computed here exactly.

module TemplateMatching {
  import opened Arith
  import opened Imaging

  /** A TemplateMatch: the placed template's rectangle and its score; the
      Similarity property of the source is score / maxDiff. */
  datatype TemplateMatch = TemplateMatch(rect: Rect, score: int, maxDiff: int)
  {
    function Similarity(): real
    {
      if maxDiff == 0 then 0.0 else score as real / maxDiff as real
    }
  }

  /** The two formats the matcher accepts. */
  predicate IsMatchable(f: PixelFormat)
  {
    f == Format8bppIndexed || f == Format24bppRgb
  }

  /** One call of ProcessImage once its checks have passed: the source and
      template buffers, the clipped search zone and the integer threshold. */
  datatype Search = Search(src: ImageLayout, s: seq<byte>, tpl: ImageLayout, t: seq<byte>, zone: Rect, threshold: int)
  {
    predicate Valid()
    {
      src.Valid() && |s| == src.Size() && tpl.Valid() && |t| == tpl.Size()
      && IsMatchable(src.format) && tpl.format == src.format
      && 0 <= zone.x && 0 <= zone.y && zone.x + zone.width <= src.width && zone.y + zone.height <= src.height
      && tpl.width <= zone.width && tpl.height <= zone.height
    }

    function PixelWidth(): int { PixelSize(src.format) }

    /** Bytes per template row. */
    function RunLength(): int { tpl.width * PixelSize(src.format) }

    /** The number of placements across and down the zone. */
    function MapWidth(): int { zone.width - tpl.width + 1 }
    function MapHeight(): int { zone.height - tpl.height + 1 }

    function MaxDiff(): int { tpl.width * tpl.height * PixelSize(src.format) * 255 }

    predicate InMap(x: int, y: int) { 0 <= x < MapWidth() && 0 <= y < MapHeight() }
  }

  /** Byte col of row row lies in a buffer of the given stride and height. */
  lemma ByteInRows(row: int, col: int, stride: int, height: int)
    requires 0 <= row < height && 0 <= col < stride
    ensures 0 <= stride * row + col < stride * height
  {
    MulLe(0, row, stride);
    MulLe(row + 1, height, stride);
    MulAdd(row, 1, stride);
  }

  /** Byte j of a run of n cells of ps bytes starting at cell x0 stays left of cell x0 + n. */
  lemma ByteInRun(ps: int, x0: int, n: int, j: int)
    requires 0 <= ps && 0 <= x0 && 0 <= j < n * ps
    ensures 0 <= ps * x0 + j < (x0 + n) * ps
  {
    MulLe(0, x0, ps);
    MulAdd(x0, n, ps);
  }

  /** Where byte j of row i of the source region under placement (x, y) lies. */
  function SourceIndex(S: Search, x: int, y: int, i: int, j: int): (k: int)
    requires S.Valid() && S.InMap(x, y) && 0 <= i < S.tpl.height && 0 <= j < S.RunLength()
    ensures 0 <= k < |S.s|
  {
    var ps := S.PixelWidth();
    ByteInRun(ps, S.zone.x + x, S.tpl.width, j);
    MulLe(S.zone.x + x + S.tpl.width, S.src.width, ps);
    ByteInRows(S.zone.y + y + i, ps * (S.zone.x + x) + j, S.src.stride, S.src.height);
    S.src.stride * (S.zone.y + y + i) + ps * (S.zone.x + x) + j
  }

  /** Where byte j of row i of the template lies. */
  function TemplateIndex(S: Search, i: int, j: int): (k: int)
    requires S.Valid() && 0 <= i < S.tpl.height && 0 <= j < S.RunLength()
    ensures 0 <= k < |S.t|
  {
    ByteInRows(i, j, S.tpl.stride, S.tpl.height);
    S.tpl.stride * i + j
  }

  function SourceByte(S: Search, x: int, y: int, i: int, j: int): byte
    requires S.Valid() && S.InMap(x, y) && 0 <= i < S.tpl.height && 0 <= j < S.RunLength()
  {
    S.s[SourceIndex(S, x, y, i, j)]
  }

  function TemplateByte(S: Search, i: int, j: int): byte
    requires S.Valid() && 0 <= i < S.tpl.height && 0 <= j < S.RunLength()
  {
    S.t[TemplateIndex(S, i, j)]
  }

  function AbsDiff(a: byte, b: byte): int
  {
    if (a as int) - (b as int) > 0 then (a as int) - (b as int) else (b as int) - (a as int)
  }

  /** The SAD of the first n bytes of template row i against the source at placement (x, y). */
  function RowDif(S: Search, x: int, y: int, i: int, n: int): int
    requires S.Valid() && S.InMap(x, y) && 0 <= i < S.tpl.height && 0 <= n <= S.RunLength()
    decreases n
  {
    if n == 0 then 0
    else
      RowDif(S, x, y, i, n - 1) + AbsDiff(SourceByte(S, x, y, i, n - 1), TemplateByte(S, i, n - 1))
  }

  /** The SAD of the first m template rows at placement (x, y). */
  function Dif(S: Search, x: int, y: int, m: int): int
    requires S.Valid() && S.InMap(x, y) && 0 <= m <= S.tpl.height
    decreases m
  {
    if m == 0 then 0 else Dif(S, x, y, m - 1) + RowDif(S, x, y, m - 1, S.RunLength())
  }

  /** sim = maxDiff - dif at placement (x, y). */
  function Score(S: Search, x: int, y: int): int
    requires S.Valid() && S.InMap(x, y)
  {
    S.MaxDiff() - Dif(S, x, y, S.tpl.height)
  }

  /** The score grid as it stands after the first pass, in unpadded
      coordinates: a score that reaches the threshold, else 0; 0 outside
      the placements, which is the padding. */
  function Stored(S: Search, x: int, y: int): int
    requires S.Valid()
  {
    if S.InMap(x, y) && Score(S, x, y) >= S.threshold then Score(S, x, y) else 0
  }

  /** A reported cell: a non-zero grid value that no cell within two steps exceeds. */
  predicate IsPeak(S: Search, x: int, y: int)
    requires S.Valid()
  {
    Stored(S, x, y) != 0
    && forall u, v :: x - 2 <= u <= x + 2 && y - 2 <= v <= y + 2 ==> Stored(S, u, v) <= Stored(S, x, y)
  }

  /** The match reported for placement (x, y). */
  function MatchAt(S: Search, x: int, y: int): TemplateMatch
    requires S.Valid()
  {
    TemplateMatch(Rect(x + S.zone.x, y + S.zone.y, S.tpl.width, S.tpl.height), Stored(S, x, y), S.MaxDiff())
  }

  /** The reports of the first n placements of map row y, left to right. */
  function RowPeaks(S: Search, y: int, n: int): seq<TemplateMatch>
    requires S.Valid() && 0 <= n <= S.MapWidth()
    decreases n
  {
    if n == 0 then []
    else RowPeaks(S, y, n - 1) + (if IsPeak(S, n - 1, y) then [MatchAt(S, n - 1, y)] else [])
  }

  /** The reports of the first m map rows, in the order the source lists them. */
  function Peaks(S: Search, m: int): seq<TemplateMatch>
    requires S.Valid() && 0 <= m <= S.MapHeight()
    decreases m
  {
    if m == 0 then [] else Peaks(S, m - 1) + RowPeaks(S, m - 1, S.MapWidth())
  }

  /** Every report, before sorting. */
  function Candidates(S: Search): seq<TemplateMatch>
    requires S.Valid()
  {
    Peaks(S, S.MapHeight())
  }

  // ---- SAD bounds and the perfect match ----

  lemma {:induction false} RowDifBounds(S: Search, x: int, y: int, i: int, n: int)
    requires S.Valid() && S.InMap(x, y) && 0 <= i < S.tpl.height && 0 <= n <= S.RunLength()
    ensures 0 <= RowDif(S, x, y, i, n) <= 255 * n
  {
    if n > 0 {
      RowDifBounds(S, x, y, i, n - 1);
    }
  }

  lemma {:induction false} DifBounds(S: Search, x: int, y: int, m: int)
    requires S.Valid() && S.InMap(x, y) && 0 <= m <= S.tpl.height
    ensures 0 <= Dif(S, x, y, m) <= m * (S.RunLength() * 255)
  {
    if m > 0 {
      DifBounds(S, x, y, m - 1);
      RowDifBounds(S, x, y, m - 1, S.RunLength());
      MulAdd(m - 1, 1, S.RunLength() * 255);
    }
  }

  lemma MaxDiffByRows(tw: int, th: int, ps: int)
    ensures th * (tw * ps * 255) == tw * th * ps * 255
  {
  }

  /** 0 <= dif <= maxDiff, so every score lies in 0..maxDiff. */
  lemma ScoreBounds(S: Search, x: int, y: int)
    requires S.Valid() && S.InMap(x, y)
    ensures 0 <= Score(S, x, y) <= S.MaxDiff()
  {
    DifBounds(S, x, y, S.tpl.height);
    MaxDiffByRows(S.tpl.width, S.tpl.height, S.PixelWidth());
  }

  lemma {:induction false} RowDifZero(S: Search, x: int, y: int, i: int, n: int)
    requires S.Valid() && S.InMap(x, y) && 0 <= i < S.tpl.height && 0 <= n <= S.RunLength()
    ensures RowDif(S, x, y, i, n) == 0 <==> forall j :: 0 <= j < n ==> SameByte(S, x, y, i, j)
  {
    if n > 0 {
      RowDifZero(S, x, y, i, n - 1);
      RowDifBounds(S, x, y, i, n - 1);
      var d := AbsDiff(SourceByte(S, x, y, i, n - 1), TemplateByte(S, i, n - 1));
      assert RowDif(S, x, y, i, n) == RowDif(S, x, y, i, n - 1) + d;
      assert d >= 0 && (d == 0 <==> SameByte(S, x, y, i, n - 1));
    }
  }

  /** Byte j of row i under placement (x, y) equals the template's. */
  predicate SameByte(S: Search, x: int, y: int, i: int, j: int)
    requires S.Valid() && S.InMap(x, y) && 0 <= i < S.tpl.height && 0 <= j < S.RunLength()
  {
    SourceByte(S, x, y, i, j) == TemplateByte(S, i, j)
  }

  lemma {:induction false} DifZero(S: Search, x: int, y: int, m: int)
    requires S.Valid() && S.InMap(x, y) && 0 <= m <= S.tpl.height
    ensures Dif(S, x, y, m) == 0 <==>
            forall i, j :: 0 <= i < m && 0 <= j < S.RunLength() ==> SameByte(S, x, y, i, j)
  {
    if m > 0 {
      DifZero(S, x, y, m - 1);
      DifBounds(S, x, y, m - 1);
      RowDifBounds(S, x, y, m - 1, S.RunLength());
      RowDifZero(S, x, y, m - 1, S.RunLength());
      MulLe(0, m - 1, S.RunLength() * 255);
    }
  }

  /** A placement scores maxDiff (similarity 1) exactly when the region
      under it is identical to the template. */
  lemma PerfectMatch(S: Search, x: int, y: int)
    requires S.Valid() && S.InMap(x, y)
    ensures Score(S, x, y) == S.MaxDiff() <==>
            forall i, j :: 0 <= i < S.tpl.height && 0 <= j < S.RunLength() ==> SameByte(S, x, y, i, j)
  {
    DifZero(S, x, y, S.tpl.height);
  }

  // ---- What is reported ----

  lemma {:induction false} RowPeaksMembers(S: Search, y: int, n: int, m: TemplateMatch)
    requires S.Valid() && 0 <= n <= S.MapWidth()
    ensures m in RowPeaks(S, y, n) <==> exists x :: 0 <= x < n && IsPeak(S, x, y) && m == MatchAt(S, x, y)
  {
    if n > 0 {
      RowPeaksMembers(S, y, n - 1, m);
    }
  }

  lemma {:induction false} PeaksMembers(S: Search, rows: int, m: TemplateMatch)
    requires S.Valid() && 0 <= rows <= S.MapHeight()
    ensures m in Peaks(S, rows) <==>
            exists x, y :: 0 <= x < S.MapWidth() && 0 <= y < rows && IsPeak(S, x, y) && m == MatchAt(S, x, y)
  {
    if rows > 0 {
      PeaksMembers(S, rows - 1, m);
      RowPeaksMembers(S, rows - 1, S.MapWidth(), m);
    }
  }

  /** The reports are exactly the peaks of the grid, each with its placement. */
  lemma CandidatesArePeaks(S: Search, m: TemplateMatch)
    requires S.Valid()
    ensures m in Candidates(S) <==> exists x, y :: S.InMap(x, y) && IsPeak(S, x, y) && m == MatchAt(S, x, y)
  {
    PeaksMembers(S, S.MapHeight(), m);
  }

  /** A report's rectangle is a template-sized placement inside the search
      zone; its score reached the threshold, is positive and at most
      maxDiff, and no cell within two steps of it holds a higher score. */
  lemma Reported(S: Search, m: TemplateMatch)
    requires S.Valid() && m in Candidates(S)
    ensures m.rect.Within(S.zone) && m.rect.width == S.tpl.width && m.rect.height == S.tpl.height
    ensures m.maxDiff == S.MaxDiff() && S.threshold <= m.score && 0 < m.score <= S.MaxDiff()
    ensures forall u, v ::
              m.rect.x - S.zone.x - 2 <= u <= m.rect.x - S.zone.x + 2 && m.rect.y - S.zone.y - 2 <= v <= m.rect.y - S.zone.y + 2
              ==> Stored(S, u, v) <= m.score
  {
    CandidatesArePeaks(S, m);
    var x, y :| S.InMap(x, y) && IsPeak(S, x, y) && m == MatchAt(S, x, y);
    ScoreBounds(S, x, y);
  }

  /** A threshold above maxDiff, which only the unclamping constructor can
      produce, reports nothing. */
  lemma UnreachableThreshold(S: Search)
    requires S.Valid() && S.threshold > S.MaxDiff()
    ensures Candidates(S) == []
  {
    if Candidates(S) != [] {
      Reported(S, Candidates(S)[0]);
    }
  }

  // ---- The threshold ----

  /** A float-to-int cast: truncation toward zero. */
  function Truncate(v: real): int
  {
    if v >= 0.0 then v.Floor else -((-v).Floor)
  }

  /** threshold = (int)(similarityThreshold * maxDiff). */
  function ThresholdOf(similarityThreshold: real, maxDiff: int): int
  {
    Truncate(similarityThreshold * maxDiff as real)
  }

  /** The setter's Math.Min(1, Math.Max(0, value)). */
  function Clamp(value: real): real
  {
    if value < 0.0 then 0.0 else if value > 1.0 then 1.0 else value
  }

  /** A clamped similarity threshold gives an integer threshold in 0..maxDiff. */
  lemma ClampedThreshold(similarityThreshold: real, maxDiff: int)
    requires 0.0 <= similarityThreshold <= 1.0 && 0 <= maxDiff
    ensures 0 <= ThresholdOf(similarityThreshold, maxDiff) <= maxDiff
  {
    var v := similarityThreshold * maxDiff as real;
    assert 0.0 <= v <= maxDiff as real;
  }

  // ---- Sorting: Array.Sort with MatchingsSorter ----

  /** Non-increasing scores; within one call all maxDiffs agree, so the
      similarities are non-increasing too. */
  predicate Descending(ms: seq<TemplateMatch>)
  {
    forall i, j :: 0 <= i < j < |ms| ==> ms[i].score >= ms[j].score
  }

  function InsertByScore(m: TemplateMatch, ms: seq<TemplateMatch>): seq<TemplateMatch>
  {
    if |ms| == 0 || ms[0].score <= m.score then [m] + ms else [ms[0]] + InsertByScore(m, ms[1..])
  }

  function SortByScore(ms: seq<TemplateMatch>): seq<TemplateMatch>
  {
    if |ms| == 0 then [] else InsertByScore(ms[0], SortByScore(ms[1..]))
  }

  lemma {:induction false} InsertByScoreCorrect(m: TemplateMatch, ms: seq<TemplateMatch>)
    requires Descending(ms)
    ensures Descending(InsertByScore(m, ms)) && multiset(InsertByScore(m, ms)) == multiset(ms) + multiset{m}
  {
    if |ms| > 0 && ms[0].score > m.score {
      var rest := InsertByScore(m, ms[1..]);
      InsertByScoreCorrect(m, ms[1..]);
      assert ms == [ms[0]] + ms[1..];
      forall k | 0 <= k < |rest|
        ensures rest[k].score <= ms[0].score
      {
        assert rest[k] in multiset(rest);
        if rest[k] != m {
          assert rest[k] in multiset(ms[1..]);
          var a :| 0 <= a < |ms[1..]| && ms[1..][a] == rest[k];
          assert ms[a + 1] == rest[k];
        }
      }
      ConsDescending(ms[0], rest);
    } else {
      ConsDescending(m, ms);
    }
  }

  lemma ConsDescending(m: TemplateMatch, ms: seq<TemplateMatch>)
    requires Descending(ms) && forall k :: 0 <= k < |ms| ==> ms[k].score <= m.score
    ensures Descending([m] + ms)
  {
  }

  /** The sort orders by score and keeps every report. */
  lemma {:induction false} SortByScoreCorrect(ms: seq<TemplateMatch>)
    ensures Descending(SortByScore(ms)) && multiset(SortByScore(ms)) == multiset(ms)
  {
    if |ms| > 0 {
      SortByScoreCorrect(ms[1..]);
      InsertByScoreCorrect(ms[0], SortByScore(ms[1..]));
      assert ms == [ms[0]] + ms[1..];
    }
  }

  /** The best score among some reports. */
  function BestScore(ms: seq<TemplateMatch>): (r: int)
    requires |ms| > 0
    ensures forall m :: m in ms ==> m.score <= r
    ensures exists m :: m in ms && m.score == r
  {
    if |ms| == 1 then ms[0].score
    else
      var rest := BestScore(ms[1..]);
      assert forall m :: m in ms ==> m == ms[0] || m in ms[1..];
      if ms[0].score >= rest then ms[0].score else rest
  }

  /** In any ordering the sort may produce, the first report carries the best score. */
  lemma FirstIsBest(r: seq<TemplateMatch>, c: seq<TemplateMatch>)
    requires Descending(r) && multiset(r) == multiset(c) && |c| > 0
    ensures |r| > 0 && r[0] in c && r[0].score == BestScore(c)
  {
    assert |r| == |multiset(r)| == |c|;
    assert r[0] in multiset(c);
    var m :| m in c && m.score == BestScore(c);
    assert m in multiset(r);
    var k :| 0 <= k < |r| && r[k] == m;
  }

  // ---- ProcessImage ----

  /** The search zone clipped to the image. */
  function ClippedZone(image: UnmanagedImage, searchZone: Rect): Rect
  {
    Intersect(searchZone, Rect(0, 0, image.width, image.height))
  }

  /** The checks ProcessImage makes before it scores anything. */
  predicate Accepts(image: UnmanagedImage, template: UnmanagedImage, searchZone: Rect)
  {
    IsMatchable(image.format) && template.format == image.format
    && template.width <= ClippedZone(image, searchZone).width
    && template.height <= ClippedZone(image, searchZone).height
  }

  /** The checks of the overloads without a zone: the formats, and a
      template no larger than the image. */
  predicate FitsImage(image: UnmanagedImage, template: UnmanagedImage)
  {
    IsMatchable(image.format) && template.format == image.format
    && template.width <= image.width && template.height <= image.height
  }

  /** The search over the whole image. */
  function WholeSearch(image: UnmanagedImage, template: UnmanagedImage, similarityThreshold: real): (S: Search)
    reads image.data, template.data
    ensures image.Valid() && template.Valid() && FitsImage(image, template) ==> S.Valid()
  {
    var maxDiff := template.width * template.height * PixelSize(image.format) * 255;
    Search(image.Layout(), image.data[..], template.Layout(), template.data[..],
           Rect(0, 0, image.width, image.height), ThresholdOf(similarityThreshold, maxDiff))
  }

  /** Clipping the whole image to itself changes nothing. */
  lemma WholeZone(image: UnmanagedImage, template: UnmanagedImage, similarityThreshold: real)
    requires image.Valid()
    ensures Accepts(image, template, Rect(0, 0, image.width, image.height)) <==> FitsImage(image, template)
    ensures SearchOf(image, template, Rect(0, 0, image.width, image.height), similarityThreshold)
            == WholeSearch(image, template, similarityThreshold)
  {
    assert ClippedZone(image, Rect(0, 0, image.width, image.height)) == Rect(0, 0, image.width, image.height);
  }

  /** The search a call runs once its checks have passed. */
  function SearchOf(image: UnmanagedImage, template: UnmanagedImage, searchZone: Rect, similarityThreshold: real): (S: Search)
    reads image.data, template.data
    ensures image.Valid() && template.Valid() && Accepts(image, template, searchZone) ==> S.Valid()
  {
    var maxDiff := template.width * template.height * PixelSize(image.format) * 255;
    Search(image.Layout(), image.data[..], template.Layout(), template.data[..],
           ClippedZone(image, searchZone), ThresholdOf(similarityThreshold, maxDiff))
  }

  /** S is the search over these two images. */
  ghost predicate Over(S: Search, image: UnmanagedImage, template: UnmanagedImage, zone: Rect)
    reads image.data, template.data
  {
    S.Valid() && image.Valid() && template.Valid() && S.zone == zone
    && S.src == image.Layout() && S.s == image.data[..] && S.tpl == template.Layout() && S.t == template.data[..]
  }

  /** The SAD loop of one placement, walking the two buffers as the source's
      pointers do. */
  method Difference(ghost S: Search, image: UnmanagedImage, template: UnmanagedImage, zone: Rect, x: int, y: int) returns (dif: int)
    requires Over(S, image, template, zone) && S.InMap(x, y)
    ensures dif == Dif(S, x, y, S.tpl.height)
  {
    var pixelSize := if image.format == Format8bppIndexed then 1 else 3;
    var templateWidthInBytes := template.width * pixelSize;
    var sourceOffset := image.stride - templateWidthInBytes;
    var templateOffset := template.stride - templateWidthInBytes;
    var src := image.stride * (y + zone.y) + pixelSize * (x + zone.x);
    var tpl := 0;
    dif := 0;
    var i := 0;
    while i < template.height
      invariant 0 <= i <= template.height && dif == Dif(S, x, y, i)
      invariant src == image.stride * (zone.y + y + i) + pixelSize * (zone.x + x) && tpl == template.stride * i
    {
      ghost var row, column := image.stride * (zone.y + y + i), pixelSize * (zone.x + x);
      assert templateWidthInBytes == S.RunLength();
      dif, src, tpl := AddRow(S, image, template, zone, x, y, i, dif, src, tpl);
      src := src + sourceOffset;
      tpl := tpl + templateOffset;
      assert src == row + image.stride + column && tpl == template.stride * i + template.stride;
      MulSucc(image.stride, zone.y + y + i);
      MulSucc(template.stride, i);
      i := i + 1;
    }
  }

  /** The inner loop over the bytes of template row i. */
  method AddRow(ghost S: Search, image: UnmanagedImage, template: UnmanagedImage, zone: Rect, x: int, y: int, i: int,
                dif0: int, src0: int, tpl0: int) returns (dif: int, src: int, tpl: int)
    requires Over(S, image, template, zone) && S.InMap(x, y) && 0 <= i < S.tpl.height
    requires src0 == image.stride * (zone.y + y + i) + S.PixelWidth() * (zone.x + x) && tpl0 == template.stride * i
    ensures dif == dif0 + RowDif(S, x, y, i, S.RunLength())
    ensures src == src0 + S.RunLength() && tpl == tpl0 + S.RunLength()
  {
    var templateWidthInBytes := template.width * (if image.format == Format8bppIndexed then 1 else 3);
    dif, src, tpl := dif0, src0, tpl0;
    var j := 0;
    while j < templateWidthInBytes
      invariant 0 <= j <= templateWidthInBytes == S.RunLength() && dif == dif0 + RowDif(S, x, y, i, j)
      invariant src == src0 + j && tpl == tpl0 + j
    {
      assert src == SourceIndex(S, x, y, i, j) && tpl == TemplateIndex(S, i, j);
      var d := image.data[src] as int - template.data[tpl] as int;
      if d > 0 {
        dif := dif + d;
      } else {
        dif := dif - d;
      }
      j, src, tpl := j + 1, src + 1, tpl + 1;
    }
  }

  /** The grid cell (u, v) of the padded map holds Stored at (u - 2, v - 2)
      once the first pass has reached it, and 0 before. */
  ghost predicate Filled(S: Search, grid: array2<int>, y: int, x: int)
    requires S.Valid()
    reads grid
  {
    grid.Length0 == S.MapHeight() + 4 && grid.Length1 == S.MapWidth() + 4
    && forall v, u :: 0 <= v < grid.Length0 && 0 <= u < grid.Length1 ==>
         grid[v, u] == if v - 2 < y || (v - 2 == y && u - 2 < x) then Stored(S, u - 2, v - 2) else 0
  }

  /** The first pass: the score of every placement that reaches the
      threshold, at its cell shifted by the padding of 2. */
  method FillScores(ghost S: Search, image: UnmanagedImage, template: UnmanagedImage, zone: Rect, grid: array2<int>, maxDiff: int, threshold: int)
    requires Over(S, image, template, zone) && Filled(S, grid, 0, 0)
    requires maxDiff == S.MaxDiff() && threshold == S.threshold
    modifies grid
    ensures Filled(S, grid, S.MapHeight(), 0)
  {
    var mapHeight := zone.height - template.height + 1;
    var y := 0;
    while y < mapHeight
      invariant 0 <= y <= S.MapHeight() && Filled(S, grid, y, 0)
    {
      FillRow(S, image, template, zone, grid, maxDiff, threshold, y);
      y := y + 1;
    }
  }

  method FillRow(ghost S: Search, image: UnmanagedImage, template: UnmanagedImage, zone: Rect, grid: array2<int>,
                 maxDiff: int, threshold: int, y: int)
    requires Over(S, image, template, zone) && 0 <= y < S.MapHeight() && Filled(S, grid, y, 0)
    requires maxDiff == S.MaxDiff() && threshold == S.threshold
    modifies grid
    ensures Filled(S, grid, y + 1, 0)
  {
    var mapWidth := zone.width - template.width + 1;
    var x := 0;
    while x < mapWidth
      invariant 0 <= x <= S.MapWidth() && Filled(S, grid, y, x)
    {
      var dif := Difference(S, image, template, zone, x, y);
      var sim := maxDiff - dif;
      if sim >= threshold {
        grid[y + 2, x + 2] := sim;
      }
      x := x + 1;
    }
  }

  /** The +-2 scan around one cell, with the source's early exits: the cell's
      value, or 0 once a neighbour is strictly greater. */
  method LocalMaximum(grid: array2<int>, y: int, x: int) returns (currentValue: int)
    requires 2 <= y < grid.Length0 - 2 && 2 <= x < grid.Length1 - 2
    ensures currentValue == if grid[y, x] != 0 && forall v, u :: y - 2 <= v <= y + 2 && x - 2 <= u <= x + 2 ==> grid[v, u] <= grid[y, x]
                            then grid[y, x] else 0
  {
    currentValue := grid[y, x];
    var i := -2;
    while currentValue != 0 && i <= 2
      invariant -2 <= i <= 3 && (currentValue == 0 || currentValue == grid[y, x])
      invariant currentValue != 0 ==> forall v, u :: y - 2 <= v < y + i && x - 2 <= u <= x + 2 ==> grid[v, u] <= grid[y, x]
      invariant currentValue == 0 ==>
                  grid[y, x] == 0 || exists v, u :: y - 2 <= v <= y + 2 && x - 2 <= u <= x + 2 && grid[v, u] > grid[y, x]
    {
      var row, j := y + i, -2;
      while j <= 2
        invariant -2 <= j <= 3 && (currentValue == 0 || currentValue == grid[y, x])
        invariant currentValue != 0 ==> forall u :: x - 2 <= u < x + j ==> grid[row, u] <= grid[y, x]
      {
        if grid[row, x + j] > currentValue {
          currentValue := 0;
          break;
        }
        j := j + 1;
      }
      i := i + 1;
    }
  }

  /** Cell (x + 2, y + 2) of the filled map survives the scan exactly when
      (x, y) is a peak, and then with its stored score. */
  lemma WindowIsPeak(S: Search, grid: array2<int>, x: int, y: int)
    requires S.Valid() && Filled(S, grid, S.MapHeight(), 0) && S.InMap(x, y)
    ensures (grid[y + 2, x + 2] != 0 && forall v, u :: y <= v <= y + 4 && x <= u <= x + 4 ==> grid[v, u] <= grid[y + 2, x + 2])
            <==> IsPeak(S, x, y)
    ensures grid[y + 2, x + 2] == Stored(S, x, y)
  {
    assert grid[y + 2, x + 2] == Stored(S, x, y);
    if IsPeak(S, x, y) {
      forall v, u | y <= v <= y + 4 && x <= u <= x + 4
        ensures grid[v, u] <= grid[y + 2, x + 2]
      {
        assert grid[v, u] == Stored(S, u - 2, v - 2);
      }
    }
    if grid[y + 2, x + 2] != 0 && forall v, u :: y <= v <= y + 4 && x <= u <= x + 4 ==> grid[v, u] <= grid[y + 2, x + 2] {
      forall u, v | x - 2 <= u <= x + 2 && y - 2 <= v <= y + 2
        ensures Stored(S, u, v) <= Stored(S, x, y)
      {
        assert grid[v + 2, u + 2] == Stored(S, u, v);
      }
    }
  }

  /** The second pass: every peak in raster order. */
  method CollectPeaks(ghost S: Search, grid: array2<int>, zone: Rect,
                      templateWidth: int, templateHeight: int, maxDiff: int) returns (matchings: seq<TemplateMatch>)
    requires S.Valid() && Filled(S, grid, S.MapHeight(), 0)
    requires zone == S.zone && templateWidth == S.tpl.width && templateHeight == S.tpl.height
    requires maxDiff == S.MaxDiff()
    ensures matchings == Candidates(S)
  {
    var startX, startY := zone.x, zone.y;
    var mapWidth := zone.width - templateWidth + 1;
    var mapHeight := zone.height - templateHeight + 1;
    matchings := [];
    var y, maxY := 2, mapHeight + 2;
    while y < maxY
      invariant 2 <= y <= maxY && matchings == Peaks(S, y - 2)
    {
      var x, maxX := 2, mapWidth + 2;
      while x < maxX
        invariant 2 <= x <= maxX && matchings == Peaks(S, y - 2) + RowPeaks(S, y - 2, x - 2)
      {
        var currentValue := LocalMaximum(grid, y, x);
        WindowIsPeak(S, grid, x - 2, y - 2);
        if currentValue != 0 {
          matchings := matchings + [TemplateMatch(Rect(x - 2 + startX, y - 2 + startY, templateWidth, templateHeight),
                                                  currentValue, maxDiff)];
        }
        x := x + 1;
      }
      y := y + 1;
    }
  }

  /** The matcher object: only its similarity threshold is state. */
  class ExhaustiveTemplateMatching {
    var similarityThreshold: real

    /** The parameterless constructor keeps the field's initial 0.9. */
    constructor Default()
      ensures similarityThreshold == 0.9
    {
      similarityThreshold := 0.9;
    }

    /** The constructor stores its argument as given; unlike the property
        setter it does not clamp it to 0..1. */
    constructor (similarityThreshold: real)
      ensures this.similarityThreshold == similarityThreshold
    {
      this.similarityThreshold := similarityThreshold;
    }

    /** The SimilarityThreshold setter clamps to 0..1. */
    method SetSimilarityThreshold(value: real)
      modifies this
      ensures similarityThreshold == Clamp(value)
      ensures 0.0 <= similarityThreshold <= 1.0
    {
      similarityThreshold := if value > 0.0 then value else 0.0;
      similarityThreshold := if similarityThreshold < 1.0 then similarityThreshold else 1.0;
    }

    /** ProcessImage(image, template, searchZone): the format and size checks,
        then every peak of the score grid, best first. Which of two equally
        scored reports comes first is not fixed (the sort is unstable). */
    method ProcessImage(image: UnmanagedImage, template: UnmanagedImage, searchZone: Rect) returns (r: Result<seq<TemplateMatch>>)
      requires image.Valid() && template.Valid()
      ensures r.Fail? <==> !Accepts(image, template, searchZone)
      ensures r.Fail? ==> r.error == if IsMatchable(image.format) && template.format == image.format
                                     then InvalidImageProperties else UnsupportedImageFormat
      ensures r.Ok? ==> Descending(r.value)
                        && multiset(r.value) == multiset(Candidates(SearchOf(image, template, searchZone, similarityThreshold)))
    {
      if !IsMatchable(image.format) || image.format != template.format {
        return Fail(UnsupportedImageFormat);
      }
      var zone := Intersect(searchZone, Rect(0, 0, image.width, image.height));
      if template.width > zone.width || template.height > zone.height {
        return Fail(InvalidImageProperties);
      }
      ghost var S := SearchOf(image, template, searchZone, similarityThreshold);
      var pixelSize := if image.format == Format8bppIndexed then 1 else 3;
      var mapWidth := zone.width - template.width + 1;
      var mapHeight := zone.height - template.height + 1;
      var grid := new int[mapHeight + 4, mapWidth + 4]((_, _) => 0);
      var maxDiff := template.width * template.height * pixelSize * 255;
      var threshold := ThresholdOf(similarityThreshold, maxDiff);
      FillScores(S, image, template, zone, grid, maxDiff, threshold);
      var matchings := CollectPeaks(S, grid, zone, template.width, template.height, maxDiff);
      SortByScoreCorrect(matchings);
      return Ok(SortByScore(matchings));
    }

    /** ProcessImage(image, template) (the Bitmap overload): the same format
        check, the template must fit the image, and the whole image is the
        search zone. */
    method ProcessWholeImage(image: UnmanagedImage, template: UnmanagedImage) returns (r: Result<seq<TemplateMatch>>)
      requires image.Valid() && template.Valid()
      ensures r.Fail? <==> !FitsImage(image, template)
      ensures r.Fail? ==> r.error == if IsMatchable(image.format) && template.format == image.format
                                     then InvalidImageProperties else UnsupportedImageFormat
      ensures r.Ok? ==> Descending(r.value)
                        && multiset(r.value) == multiset(Candidates(WholeSearch(image, template, similarityThreshold)))
    {
      if !IsMatchable(image.format) || image.format != template.format {
        return Fail(UnsupportedImageFormat);
      }
      if template.width > image.width || template.height > image.height {
        return Fail(InvalidImageProperties);
      }
      WholeZone(image, template, similarityThreshold);
      r := ProcessImage(image, template, Rect(0, 0, image.width, image.height));
    }
  }
}
