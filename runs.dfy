// The projection-run scan shared by Main.Crop_Y (over column counts) and
// Main.Crop_X (over row counts). A line belongs to a run when it, or the
// line after it, holds a black pixel. The scan keeps the open run's first
// and last line in `lo`/`hi`, where 0 doubles as "unset": a run that starts
// at line 0 only records its start at line 1, and `hi` stays 0 until the
// run's second recorded line. A run is closed, and handed on, at the first
// unmarked line after it; a run still open after the last line is dropped.

module ProjectionRuns {
  /** The lookahead run rule. */
  predicate Marked(counts: seq<int>, i: int)
    requires 0 <= i < |counts|
  {
    counts[i] > 0 || (i + 1 < |counts| && counts[i + 1] > 0)
  }

  /** A run as the scan records it: (lo, hi), hi == 0 while only lo is set. */
  type Run = (int, int)

  /** The last line of a run. */
  function End(run: Run): int
  {
    if run.1 == 0 then run.0 else run.1
  }

  /** The scan's state: the open run and the runs closed so far. */
  datatype Scan = Scan(lo: int, hi: int, runs: seq<Run>)

  /** One iteration of the scan loop, over line i. */
  function Step(counts: seq<int>, i: int, p: Scan): Scan
    requires 0 <= i < |counts|
  {
    if Marked(counts, i) then
      if p.lo == 0 then Scan(i, p.hi, p.runs) else Scan(p.lo, i, p.runs)
    else
      Scan(0, 0, if p.lo > 0 || p.hi > 0 then p.runs + [(p.lo, p.hi)] else p.runs)
  }

  /** The state after lines 0 .. n-1. */
  function ScanRuns(counts: seq<int>, n: int): Scan
    requires 0 <= n <= |counts|
  {
    if n == 0 then Scan(0, 0, []) else Step(counts, n - 1, ScanRuns(counts, n - 1))
  }

  /** The runs a whole scan hands on. */
  function Runs(counts: seq<int>): seq<Run>
  {
    ScanRuns(counts, |counts|).runs
  }

  // ---------------------------------------------------------------- what a run is

  /** A handed-on run: it starts after line 0, every line of it is marked,
      the line after it exists and is unmarked, and the line before it is
      unmarked unless the run began at line 0 (then it is recorded from 1). */
  predicate IsClosedRun(counts: seq<int>, run: Run)
  {
    1 <= run.0 && (run.1 == 0 || run.0 < run.1)
    && End(run) + 1 < |counts| && !Marked(counts, End(run) + 1)
    && (forall i :: run.0 <= i <= End(run) ==> Marked(counts, i))
    && (run.0 == 1 || !Marked(counts, run.0 - 1))
  }

  /** The runs are handed on left to right, with unmarked lines between. */
  predicate Ordered(runs: seq<Run>)
  {
    forall k, k' :: 0 <= k < k' < |runs| ==> End(runs[k]) + 1 < runs[k'].0
  }

  /** What the scan state is after n lines. */
  predicate ScanState(counts: seq<int>, n: int, p: Scan)
    requires 0 <= n <= |counts|
  {
    0 <= p.lo && (p.lo == 0 ==> p.hi == 0)
    && (p.lo == 0 && n > 0 && Marked(counts, n - 1) ==> n == 1)
    && (n == 0 || !Marked(counts, n - 1) ==> p.lo == 0)
    && (p.lo > 0 ==> p.lo < n && (forall i :: p.lo <= i < n ==> Marked(counts, i))
                     && (p.lo == 1 || !Marked(counts, p.lo - 1))
                     && p.hi == (if n - 1 > p.lo then n - 1 else 0))
    && (forall k :: 0 <= k < |p.runs| ==> IsClosedRun(counts, p.runs[k]) && End(p.runs[k]) + 1 < n)
    && Ordered(p.runs)
    && (p.lo > 0 ==> forall k :: 0 <= k < |p.runs| ==> End(p.runs[k]) + 1 < p.lo)
  }

  lemma StepState(counts: seq<int>, n: int)
    requires 0 <= n < |counts| && ScanState(counts, n, ScanRuns(counts, n))
    ensures ScanState(counts, n + 1, ScanRuns(counts, n + 1))
  {
    var p := ScanRuns(counts, n);
    var q := ScanRuns(counts, n + 1);
    assert q == Step(counts, n, p);
    if !Marked(counts, n) && (p.lo > 0 || p.hi > 0) {
      var run := (p.lo, p.hi);
      assert End(run) == n - 1;
      assert IsClosedRun(counts, run);
      assert q.runs == p.runs + [run];
    }
  }

  lemma {:induction false} ScanInvariant(counts: seq<int>, n: int)
    requires 0 <= n <= |counts|
    ensures ScanState(counts, n, ScanRuns(counts, n))
  {
    if n > 0 {
      ScanInvariant(counts, n - 1);
      StepState(counts, n - 1);
    }
  }

  /** Soundness: every handed-on run is a closed run, and they come in
      order. In particular no run starts at line 0, and a run still open at
      the last line is never handed on. */
  lemma RunsAreClosed(counts: seq<int>)
    ensures Ordered(Runs(counts))
    ensures forall k :: 0 <= k < |Runs(counts)| ==> IsClosedRun(counts, Runs(counts)[k])
  {
    ScanInvariant(counts, |counts|);
  }

  /** The closed runs seen so far stay in every later state. */
  lemma {:induction false} RunsGrow(counts: seq<int>, n: int, m: int)
    requires 0 <= n <= m <= |counts|
    ensures ScanRuns(counts, n).runs <= ScanRuns(counts, m).runs
  {
    if n < m {
      RunsGrow(counts, n, m - 1);
    }
  }

  /** Completeness: every unmarked line c >= 2 that follows a marked line
      closes a run that ends at c - 1. */
  lemma RunsComplete(counts: seq<int>, c: int)
    requires 2 <= c < |counts| && Marked(counts, c - 1) && !Marked(counts, c)
    ensures exists k :: 0 <= k < |Runs(counts)| && End(Runs(counts)[k]) == c - 1
  {
    ScanInvariant(counts, c);
    var p := ScanRuns(counts, c);
    var q := ScanRuns(counts, c + 1);
    assert q.runs == p.runs + [(p.lo, p.hi)];
    RunsGrow(counts, c + 1, |counts|);
    assert Runs(counts)[|p.runs|] == (p.lo, p.hi);
  }

  /** The one run recorded with hi still 0: the run over lines 0 and 1
      closed at line 2. It exists exactly when line 1 holds a black pixel
      and line 2 is unmarked. */
  lemma NarrowRun(counts: seq<int>)
    ensures (exists k :: 0 <= k < |Runs(counts)| && Runs(counts)[k].1 == 0)
            <==> |counts| >= 3 && counts[1] > 0 && !Marked(counts, 2)
  {
    if exists k :: 0 <= k < |Runs(counts)| && Runs(counts)[k].1 == 0 {
      var k :| 0 <= k < |Runs(counts)| && Runs(counts)[k].1 == 0;
      NarrowRunIsFirst(counts, k);
    }
    if |counts| >= 3 && counts[1] > 0 && !Marked(counts, 2) {
      NarrowRunExists(counts);
    }
  }

  lemma NarrowRunIsFirst(counts: seq<int>, k: int)
    requires 0 <= k < |Runs(counts)| && Runs(counts)[k].1 == 0
    ensures |counts| >= 3 && counts[1] > 0 && !Marked(counts, 2)
  {
    var runs := Runs(counts);
    RunsAreClosed(counts);
    var lo := runs[k].0;
    assert IsClosedRun(counts, runs[k]);
    assert Marked(counts, lo) && !Marked(counts, lo + 1);
    assert counts[lo] > 0 && Marked(counts, lo - 1);
  }

  lemma NarrowRunExists(counts: seq<int>)
    requires |counts| >= 3 && counts[1] > 0 && !Marked(counts, 2)
    ensures exists k :: 0 <= k < |Runs(counts)| && Runs(counts)[k].1 == 0
  {
    var runs := Runs(counts);
    RunsAreClosed(counts);
    assert Marked(counts, 1);
    RunsComplete(counts, 2);
    var k :| 0 <= k < |runs| && End(runs[k]) == 1;
    assert IsClosedRun(counts, runs[k]);
    assert runs[k].0 == 1;
  }

  // ---------------------------------------------------------------- the runs Crop_X cuts

  /** Crop_X cuts a closed run only when its last recorded line lies below
      its first (bottom - top > 0). */
  function Tall(runs: seq<Run>): (tall: seq<Run>)
    ensures |tall| <= |runs|
  {
    if |runs| == 0 then []
    else
      var last := runs[|runs| - 1];
      Tall(runs[..|runs| - 1]) + (if last.1 - last.0 > 0 then [last] else [])
  }

  lemma TallStep(runs: seq<Run>, run: Run)
    ensures Tall(runs + [run]) == Tall(runs) + if run.1 - run.0 > 0 then [run] else []
  {
    assert (runs + [run])[..|runs|] == runs;
  }

  /** Tall keeps exactly the runs whose last line lies below their first. */
  lemma {:induction false} TallKeeps(runs: seq<Run>, run: Run)
    ensures run in Tall(runs) <==> run in runs && run.1 - run.0 > 0
  {
    if |runs| > 0 {
      var front := runs[..|runs| - 1];
      TallKeeps(front, run);
      assert runs == front + [runs[|runs| - 1]];
    }
  }

  /** ... and in the order they come. */
  lemma {:induction false} TallOrdered(runs: seq<Run>)
    requires Ordered(runs)
    ensures Ordered(Tall(runs))
  {
    if |runs| > 0 {
      var front, last := runs[..|runs| - 1], runs[|runs| - 1];
      TallOrdered(front);
      forall x | x in Tall(front)
        ensures End(x) + 1 < last.0
      {
        TallKeeps(front, x);
        var k :| 0 <= k < |front| && front[k] == x;
      }
    }
  }

  /** Of the runs the scan hands on, Crop_X leaves out only the narrow run
      recorded with no last line. */
  lemma TallDropsNarrow(counts: seq<int>, run: Run)
    ensures run in Tall(Runs(counts)) <==> run in Runs(counts) && run.1 != 0
    ensures Ordered(Tall(Runs(counts)))
  {
    RunsAreClosed(counts);
    TallKeeps(Runs(counts), run);
    TallOrdered(Runs(counts));
  }
}
