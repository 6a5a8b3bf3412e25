/** `split_stl_into_grid` of the command-line script: a fixed number of divisions per
    axis (3 by 3 unless given), no clamping, the same grid planning, scan and naming as the
    Streamlit app. */
module CliSplitter {
  import opened Outcome
  import opened Geometry
  import opened Grids
  import opened Scan
  import opened Naming
  import StreamlitSplitter

  /** The default of both the function's `xsplit`, `ysplit` and the `--xsplit`, `--ysplit` options. */
  const DefaultSplits: int := 3

  /** The sections saved and the files they were written to. */
  datatype Written = Written(sections: seq<Part>, files: seq<string>)

  /** Builds the extents (X first) and scans the `xsplit` by `ysplit` grid. `np.linspace`
      rejects a negative sample count, so a count below -1 fails before anything is written;
      a count of 0 or -1 leaves the loop empty. */
  function SplitStlIntoGrid(bounds: BoundingBox, prefix: string, xsplit: int, ysplit: int, isEmpty: Box -> bool)
    : (r: Result<Written>)
    ensures r.Err? <==> xsplit < -1 || ysplit < -1
    ensures r.Err? ==> r.error == NegativeSampleCount(if xsplit < -1 then xsplit + 1 else ysplit + 1)
    ensures r.Ok? ==> IsScanOf(r.value.sections, PlanGrid(bounds, xsplit, ysplit), xsplit, ysplit, isEmpty)
    ensures r.Ok? && (xsplit <= 0 || ysplit <= 0) ==> r.value.sections == [] && r.value.files == []
    ensures r.Ok? && xsplit >= 1 && ysplit >= 1 ==> |r.value.sections| <= xsplit * ysplit
    ensures r.Ok? ==> |r.value.files| == |r.value.sections|
    ensures r.Ok? ==> forall t :: 0 <= t < |r.value.files| ==> ParsePartName(prefix, r.value.files[t]) == Some(t + 1)
  {
    if xsplit + 1 < 0 then Err(NegativeSampleCount(xsplit + 1))
    else if ysplit + 1 < 0 then Err(NegativeSampleCount(ysplit + 1))
    else Ok(ScanAndSave(PlanGrid(bounds, xsplit, ysplit), prefix, xsplit, ysplit, isEmpty))
  }

  /** The loop over the planned grid: the sections found, saved as parts 1, 2, ... */
  function ScanAndSave(g: Grid, prefix: string, nx: int, ny: int, isEmpty: Box -> bool): (w: Written)
    requires nx < |g.xs| && ny < |g.ys|
    ensures IsScanOf(w.sections, g, nx, ny, isEmpty)
    ensures |w.sections| <= if nx <= 0 || ny <= 0 then 0 else nx * ny
    ensures |w.files| == |w.sections|
    ensures forall t :: 0 <= t < |w.files| ==> ParsePartName(prefix, w.files[t]) == Some(t + 1)
  {
    var sections := ScanGrid(g, nx, ny, isEmpty);
    Written(sections, FileNames(prefix, sections))
  }

  /** The `--xsplit` and `--ysplit` options, absent when not given. */
  datatype Options = Options(xsplit: Option<int>, ysplit: Option<int>)

  /** The script's entry point after argument parsing: a missing option takes the default. */
  function Run(opts: Options, prefix: string, bounds: BoundingBox, isEmpty: Box -> bool): (r: Result<Written>)
    ensures opts.xsplit.None? && opts.ysplit.None? ==>
      r == SplitStlIntoGrid(bounds, prefix, DefaultSplits, DefaultSplits, isEmpty)
    ensures opts.xsplit.Some? && opts.ysplit.Some? ==>
      r == SplitStlIntoGrid(bounds, prefix, opts.xsplit.value, opts.ysplit.value, isEmpty)
    ensures opts.xsplit.Some? && opts.ysplit.None? ==>
      r == SplitStlIntoGrid(bounds, prefix, opts.xsplit.value, DefaultSplits, isEmpty)
    ensures opts.xsplit.None? && opts.ysplit.Some? ==>
      r == SplitStlIntoGrid(bounds, prefix, DefaultSplits, opts.ysplit.value, isEmpty)
  {
    SplitStlIntoGrid(bounds, prefix, opts.xsplit.GetOr(DefaultSplits), opts.ysplit.GetOr(DefaultSplits), isEmpty)
  }

  /** `python split-file.py model.stl`: with no options the script scans a 3 by 3 grid,
      saving at most 9 parts, each in the file named after its number. */
  lemma DefaultRunScans3By3(prefix: string, bounds: BoundingBox, isEmpty: Box -> bool)
    ensures Run(Options(None, None), prefix, bounds, isEmpty).Ok?
    ensures IsScanOf(Run(Options(None, None), prefix, bounds, isEmpty).value.sections, PlanGrid(bounds, 3, 3), 3, 3, isEmpty)
    ensures |Run(Options(None, None), prefix, bounds, isEmpty).value.sections| <= 9
    ensures forall t :: 0 <= t < |Run(Options(None, None), prefix, bounds, isEmpty).value.files| ==>
      Run(Options(None, None), prefix, bounds, isEmpty).value.files[t] == PartName(prefix, t + 1)
  {
    var r := Run(Options(None, None), prefix, bounds, isEmpty);
    assert r == Ok(ScanAndSave(PlanGrid(bounds, 3, 3), prefix, 3, 3, isEmpty));
    var w := r.value;
    forall t | 0 <= t < |w.files| ensures w.files[t] == PartName(prefix, t + 1) {
      PartNameExact(prefix, w.files[t], t + 1);
    }
  }

  /** With positive explicit counts the script and the app cut the same sections and,
      under the same prefix, name them alike, whatever chunk sizes accompany the counts. */
  lemma FrontEndsAgree(bounds: BoundingBox, prefix: string, a: int, b: int, maxX: Option<real>,
                       maxY: Option<real>, isEmpty: Box -> bool)
    requires a >= 1 && b >= 1
    ensures SplitStlIntoGrid(bounds, prefix, a, b, isEmpty).Ok?
    ensures StreamlitSplitter.SplitStlIntoGrid(bounds, StreamlitSplitter.Request(Some(a), Some(b), maxX, maxY), prefix, isEmpty).Ok?
    ensures StreamlitSplitter.SplitStlIntoGrid(bounds, StreamlitSplitter.Request(Some(a), Some(b), maxX, maxY), prefix, isEmpty).value.sections
         == SplitStlIntoGrid(bounds, prefix, a, b, isEmpty).value.sections
    ensures StreamlitSplitter.SplitStlIntoGrid(bounds, StreamlitSplitter.Request(Some(a), Some(b), maxX, maxY), prefix, isEmpty).value.outputFiles
         == SplitStlIntoGrid(bounds, prefix, a, b, isEmpty).value.files
  {
    var app := StreamlitSplitter.SplitStlIntoGrid(bounds, StreamlitSplitter.Request(Some(a), Some(b), maxX, maxY), prefix, isEmpty);
    assert app.value.splitsX == a && app.value.splitsY == b;
  }

  /** Only the app clamps: a zero X count makes the script write nothing, while the app
      scans one column, exactly as if it had been asked for one. */
  lemma OnlyTheAppClamps(bounds: BoundingBox, prefix: string, n: int, isEmpty: Box -> bool)
    requires n >= 1
    ensures SplitStlIntoGrid(bounds, prefix, 0, n, isEmpty) == Ok(Written([], []))
    ensures StreamlitSplitter.SplitStlIntoGrid(bounds, StreamlitSplitter.Request(Some(0), Some(n), None, None), prefix, isEmpty).Ok?
    ensures StreamlitSplitter.SplitStlIntoGrid(bounds, StreamlitSplitter.Request(Some(0), Some(n), None, None), prefix, isEmpty).value.splitsX == 1
    ensures StreamlitSplitter.SplitStlIntoGrid(bounds, StreamlitSplitter.Request(Some(0), Some(n), None, None), prefix, isEmpty).value.sections
         == SplitStlIntoGrid(bounds, prefix, 1, n, isEmpty).value.sections
  {
    var app := StreamlitSplitter.SplitStlIntoGrid(bounds, StreamlitSplitter.Request(Some(0), Some(n), None, None), prefix, isEmpty);
    assert app.value.splitsX == 1 && app.value.splitsY == n;
  }
}
