/** `split_stl_into_grid` of the Streamlit app: resolves the split counts from explicit
    counts or chunk sizes, plans the grid over the model's bounding box, scans the cells and
    reports dimensions, splits, segment sizes and the written files. The mesh enters only
    through its bounding box and the emptiness of each clipped section. */
module StreamlitSplitter {
  import opened Outcome
  import opened Geometry
  import opened Splits
  import opened Grids
  import opened Scan
  import opened Naming

  /** The splitting arguments: an explicit count or a maximum chunk size per axis, each
      possibly absent. */
  datatype Request = Request(xsplit: Option<int>, ysplit: Option<int>, maxX: Option<real>, maxY: Option<real>)

  /** The returned record, together with the sections behind `output_files`. */
  datatype Report = Report(
    dimensions: Vec3,
    splitsX: int,
    splitsY: int,
    segmentSize: Vec3,
    sections: seq<Part>,
    outputFiles: seq<string>)

  /** A chunk size that is consulted for an axis is not positive. */
  predicate RejectsChunkSize(count: Option<int>, maxSize: Option<real>) {
    count.None? && maxSize.Some? && maxSize.value <= 0.0
  }

  /** The report for resolved counts `nx`, `ny`: the model dimensions, the counts, the
      segment sizes that divide the dimensions, the scan of the planned grid (at most one
      section per cell) and one file per section, named after part numbers 1, 2, ... */
  function Assemble(bounds: BoundingBox, nx: int, ny: int, prefix: string, isEmpty: Box -> bool)
    : (rep: Report)
    requires nx >= 1 && ny >= 1
    ensures rep.splitsX == nx && rep.splitsY == ny
    ensures Add(bounds.lo, rep.dimensions) == bounds.hi
    ensures rep.segmentSize == SegmentSize(rep.dimensions, nx, ny)
    ensures IsScanOf(rep.sections, PlanGrid(bounds, nx, ny), nx, ny, isEmpty)
    ensures |rep.sections| <= nx * ny
    ensures |rep.outputFiles| == |rep.sections|
    ensures forall t :: 0 <= t < |rep.outputFiles| ==> ParsePartName(prefix, rep.outputFiles[t]) == Some(t + 1)
  {
    var size := Dimensions(bounds);
    var sections := ScanGrid(PlanGrid(bounds, nx, ny), nx, ny, isEmpty);
    Report(size, nx, ny, SegmentSize(size, nx, ny), sections, FileNames(prefix, sections))
  }

  /** `(size_x / xsplit, size_y / ysplit, size_z)`: `nx` segments span the X size and `ny`
      the Y size exactly; Z is one segment. */
  function SegmentSize(size: Vec3, nx: int, ny: int): (seg: Vec3)
    requires nx >= 1 && ny >= 1
    ensures seg.x * nx as real == size.x && seg.y * ny as real == size.y && seg.z == size.z
  {
    Vec3(size.x / nx as real, size.y / ny as real, size.z)
  }

  /** The whole run: the X count is resolved first, then the Y count, and either may fail;
      then the grid is scanned. */
  function SplitStlIntoGrid(bounds: BoundingBox, req: Request, prefix: string, isEmpty: Box -> bool)
    : (r: Result<Report>)
    // errors: only a consulted non-positive chunk size, on either axis
    ensures r.Err? <==> RejectsChunkSize(req.xsplit, req.maxX) || RejectsChunkSize(req.ysplit, req.maxY)
    ensures r.Err? ==> r.error == InvalidChunkSize
    // every axis is split at least once; an explicit count wins, and no input means one piece
    ensures r.Ok? ==> r.value.splitsX >= 1 && r.value.splitsY >= 1
    ensures r.Ok? && req.xsplit.Some? ==> r.value.splitsX == if req.xsplit.value >= 1 then req.xsplit.value else 1
    ensures r.Ok? && req.ysplit.Some? ==> r.value.splitsY == if req.ysplit.value >= 1 then req.ysplit.value else 1
    ensures r.Ok? && req.xsplit.None? && req.maxX.None? ==> r.value.splitsX == 1
    ensures r.Ok? && req.ysplit.None? && req.maxY.None? ==> r.value.splitsY == 1
    // each count is the one the axis resolves to on its own: in chunk-size mode the least
    // count whose segments fit, `max(1, ceil(size / max))`
    ensures r.Ok? ==> Ok(r.value.splitsX) == ResolveAxis(req.xsplit, req.maxX, Dimensions(bounds).x)
    ensures r.Ok? ==> Ok(r.value.splitsY) == ResolveAxis(req.ysplit, req.maxY, Dimensions(bounds).y)
    // in chunk-size mode a segment never exceeds the requested size
    ensures r.Ok? && req.xsplit.None? && req.maxX.Some? ==> r.value.segmentSize.x <= req.maxX.value
    ensures r.Ok? && req.ysplit.None? && req.maxY.Some? ==> r.value.segmentSize.y <= req.maxY.value
    // the rest of the report depends only on the resolved counts
    ensures r.Ok? ==> r.value == Assemble(bounds, r.value.splitsX, r.value.splitsY, prefix, isEmpty)
  {
    var size := Dimensions(bounds);
    var xr := ResolveAxis(req.xsplit, req.maxX, size.x);
    if xr.Err? then Err(xr.error)
    else
      var yr := ResolveAxis(req.ysplit, req.maxY, size.y);
      if yr.Err? then Err(yr.error)
      else Ok(Assemble(bounds, xr.value, yr.value, prefix, isEmpty))
  }

  /** The app's output files are pairwise distinct, so no saved part overwrites another. */
  lemma OutputFilesDistinct(bounds: BoundingBox, req: Request, prefix: string, isEmpty: Box -> bool)
    ensures SplitStlIntoGrid(bounds, req, prefix, isEmpty).Ok? ==>
      var files := SplitStlIntoGrid(bounds, req, prefix, isEmpty).value.outputFiles;
      forall s, t :: 0 <= s < t < |files| ==> files[s] != files[t]
  {
    var r := SplitStlIntoGrid(bounds, req, prefix, isEmpty);
    if r.Ok? {
      var files := r.value.outputFiles;
      forall s, t | 0 <= s < t < |files| ensures files[s] != files[t] {
        assert ParsePartName(prefix, files[s]) == Some(s + 1);
        assert ParsePartName(prefix, files[t]) == Some(t + 1);
      }
    }
  }
}
