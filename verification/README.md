# STL grid splitter: a Dafny model

This project models the core of a small tool that cuts a 3D-printable STL mesh into a
grid of parts. There are two front ends, and both share one core algorithm:

1. Take the mesh's axis-aligned bounding box.
2. Decide how many cells to cut along X and along Y.
3. Place `n + 1` evenly spaced cuts per axis with `np.linspace`. Z is never subdivided.
4. Build one clipping box per cell.
5. Visit the cells X-outer, Y-inner.
6. Intersect the mesh with each box. Skip an empty section. Save every other section as
   the next part, in a file named `<prefix>_splt-NN.stl`, where `NN` is the part number
   zero-padded to two digits.

The two front ends:

- The Streamlit app (`streamlit_app.py`) takes either an explicit count or a maximum chunk
  size per axis. It derives a chunk-size count with `calculate_splits` (`ceil(size / max)`),
  clamps every count to at least 1, and returns a report: dimensions, splits, segment
  sizes and output files.
- The command-line script (`split-file.py`) takes two counts, 3 by 3 by default, and does
  not clamp them.

Modelling choices:

- The mesh enters only through its bounding box and a predicate
  `isEmpty: Box -> bool`, which says whether the mesh's intersection with a box is empty.
  The geometry kernel itself is not modelled. Every result is therefore stated for every
  possible kernel.
- Coordinates are exact reals.
- Errors are values of `Outcome.Result`:
  - `InvalidChunkSize` is the `ValueError` of `calculate_splits`.
  - `NegativeSampleCount` is the error `np.linspace` raises for a negative sample count.

Modules, in dependency order:

- `Outcome`: the option, error and result types.
- `Geometry`: points, bounding boxes and clipping boxes.
- `Splits`: split-count resolution.
- `Extents`: `np.linspace`.
- `Grids`: the planned cut grid and each cell's clipping box.
- `Naming`: part numbers and file names.
- `Scan`: the cell loop, as a functional specification and as the nested loops.
- `StreamlitSplitter` and `CliSplitter`: the two entry points.

The central specification is `Scan.IsScanOf`. It requires:

- the parts are numbered 1, 2, … without gaps;
- each part comes from a grid cell with a non-empty section and carries that cell's box;
- the parts are in scan order;
- every cell with a non-empty section yields a part.

`Scan.ScanIsUnique` proves that at most one part list meets it. `Scan.ScanGrid` proves
that the scan meets it, and `Scan.ScanCells` proves that the imperative nested loops
compute exactly that scan.

Two behaviours at the edges are modelled as the code has them:

- `calculate_splits` returns `ceil(0 / max) = 0` for a zero-size axis, and
  `max(1, xsplit or 1)` then turns that into 1.
- The app clamps non-positive explicit counts to 1; the script visits no cells for a
  count of 0 or -1.

## Model

| member | source | states |
|---|---|---|
| Splits.Ceil | streamlit_app.py:19 | the result is the least integer not below its argument: `k - 1 < x <= k` |
| Splits.CalculateSplits | streamlit_app.py:16-20 | fails with `InvalidChunkSize` exactly when the chunk size is missing or not positive; otherwise returns the least `k` with `(k - 1) * max < size <= k * max` |
| Splits.AtLeastOne | streamlit_app.py:54-55 | `max(1, count or 1)` is at least 1, keeps every count of at least 1, and maps a missing count or any count at most 1 to 1 |
| Splits.ResolveAxis | streamlit_app.py:48-55 | one axis's count: the error is raised exactly when no count is given and the chunk size is not positive; an explicit count wins over a chunk size (clamped to 1); no input gives 1; in chunk mode the cell width `size / n` never exceeds the chunk size |
| Splits.ChunkCountIsLeast | streamlit_app.py:48-55 | the chunk-mode count is minimal: every `k >= 1` whose cells fit the chunk size is at least as large |
| Splits.ChunkSizeScenario | streamlit_app.py:48-55 | a 300 by 150 footprint with chunks of at most 120 by 200 gives 3 columns and 1 row |
| Splits.ZeroChunkScenario | streamlit_app.py:48-55 | a zero chunk size with no count is an error, but is ignored when a count is given |
| Geometry.Dimensions | streamlit_app.py:42-45 | the model size carries the minimum corner onto the maximum corner, and is non-negative exactly when the bounding box is valid |
| Geometry.ClipBox | streamlit_app.py:77-82 | the box built from extents `hi - lo` and centre `(hi + lo) / 2` has corners exactly `lo` and `hi`; its extents are non-negative if and only if `lo <= hi` |
| Extents.Linspace | streamlit_app.py:66-67 | `num` samples; the first is `lo`, the last is `hi` (when `num >= 2`), and consecutive samples are `(hi - lo) / (num - 1)` apart |
| Extents.SampleIsSteps | streamlit_app.py:66-67 | sample `k` is exactly `k` steps past `lo`, the forced last sample included |
| Extents.LinspaceMonotone | split-file.py:49-50 | on an ordered range the samples are ordered and stay within `[lo, hi]` |
| Extents.LinspaceAscending | split-file.py:49-50 | on an ordered range the whole list of cuts is ascending |
| Extents.SegmentIsUnique | split-file.py:49-50 | between ascending cuts, a value strictly inside one segment lies strictly inside no other |
| Extents.SegmentOf | split-file.py:49-50 | a property of these cuts, not a computation of the script: every `x` in `[lo, hi]` lies in some segment `k < n` of the `n + 1` cuts, `cut[k] <= x <= cut[k + 1]` |
| Extents.ExtentScenario | split-file.py:49-50 | three cells over `[0, 300]` are cut at 0, 100, 200 and 300; one cell over `[0, 150]` at 0 and 150 |
| Grids.CellBox | split-file.py:58-65 | the clipping box of cell `(i, j)` has corners `(x[i], y[j], z_min)` and `(x[i+1], y[j+1], z_max)` |
| Grids.PlanGrid | split-file.py:48-51 | `nx + 1` and `ny + 1` cuts, starting at the minimum corner, ending at the maximum corner and evenly spaced by `size / n`; Z spans the full height |
| Grids.CellBoxInsideBounds | streamlit_app.py:73-82 | every cell's box lies inside the bounding box and has non-negative extents |
| Grids.NeighbourBoxesShareFaces | streamlit_app.py:75-82 | adjacent cells' boxes meet at the shared cut: `x[i+1]` along X, `y[j+1]` along Y |
| Grids.CellInteriorsDisjoint | streamlit_app.py:73-82 | on a valid bounding box no two different cells' boxes overlap: a point strictly inside two cells' boxes forces the cells to be equal |
| Grids.InteriorsMeetOnlyInOneCell | streamlit_app.py:75-82 | on any grid with ascending cuts, a point strictly inside the boxes of two cells means the two cells are the same |
| Grids.CellBoxesCoverBounds | streamlit_app.py:66-82 | every point of the bounding box lies in some cell's box, so no part of the mesh is outside every cell |
| Scan.CellOrder | split-file.py:55-56 | the visiting order of the nested loops: `nx * ny` cells (none when a count is not positive), all in the grid, strictly increasing X-outer, Y-inner |
| Scan.CellOrderComplete | split-file.py:55-56 | every cell of the grid is visited |
| Scan.Row | split-file.py:56 | the first `j` visits of `for j in range(ysplit)` at X index `i`: `j` cells (none for `j <= 0`), the `t`-th being `(i, t)` |
| Scan.Number | split-file.py:54-76 | numbering the visited cells yields at most one part per visited cell |
| Scan.NumberSound | split-file.py:54-76 | the saved parts are numbered consecutively from the start number, each comes from a visited cell with a non-empty section and carries its box, and every such cell yields a part |
| Scan.NumberOrdered | split-file.py:54-76 | parts found in scan order stay in scan order |
| Scan.ScanGrid | streamlit_app.py:70-91 | the scan of the grid meets `IsScanOf` (numbering 1, 2, … without gaps; only and all non-empty cells; scan order) and yields at most one part per cell |
| Scan.ScanIsUnique | streamlit_app.py:70-91 | any two part lists that both meet `IsScanOf` for the same grid and kernel are equal, so `IsScanOf` fully determines the output |
| Scan.NumberSnoc | split-file.py:55-76 | visiting one more cell appends at most one part, numbered after those found so far, and only when its section is non-empty |
| Scan.VisitCell | split-file.py:57-76 | one inner-loop step: skips an empty section without using a number; otherwise saves the part and advances the number |
| Scan.ScanRow | split-file.py:56-76 | the inner loop at X index `i` extends the parts to those of all cells visited so far plus row `i` |
| Scan.ScanCells | split-file.py:54-76 | the imperative nested loops with `part_number` starting at 1 compute exactly `ScanGrid` |
| Scan.FileNames | streamlit_app.py:88 | one name per part; each name reads back as its part's number, which by `Naming.PartNameExact` makes it exactly the zero-padded name of that part; parts with different numbers get different names |
| Naming.Decimal | split-file.py:73 | the decimal numeral of `n`: at least one digit, with no leading zero |
| Naming.DecimalRoundTrip | split-file.py:73 | parsing the numeral of `n` gives back `n` |
| Naming.PartNumberText | split-file.py:73 | `{n:02d}` is a padded numeral that reads back as `n`: exactly two digits below 10, the plain numeral from 10 upwards |
| Naming.CanonicalDecimal | split-file.py:73 | a numeral without a superfluous leading zero is the decimal numeral of its value |
| Naming.PaddedNumeralIsPartNumberText | split-file.py:73 | every padded numeral is exactly the `{n:02d}` text of its value, so no other spelling of a number has that shape |
| Naming.PartName | streamlit_app.py:88 | the file name is the prefix, then `_splt-`, then a padded numeral (`PaddedNumeral`) of exactly two characters below 10 and the numeral's own length from 10 up, then `.stl`; `Naming.PartNameExact` pins which digits |
| Naming.PartNameRoundTrip | split-file.py:73 | the part number can be read back from a file name |
| Naming.PartNameExact | split-file.py:73 | a name reads back as part `n` if and only if it is the name written for part `n`, so unpadded or over-padded spellings are rejected |
| Naming.PartNamesDistinct | split-file.py:73 | different part numbers give different file names |
| StreamlitSplitter.SegmentSize | streamlit_app.py:57-59 | `nx` X segments and `ny` Y segments span the model size exactly, and Z is a single segment |
| StreamlitSplitter.Assemble | streamlit_app.py:57-109 | the report for resolved counts contains the dimensions (lo + dims = hi), the counts, the segment sizes, a scan of the planned grid with at most `nx * ny` sections, and one file per section that reads back as part 1, 2, … (so, by `Naming.PartNameExact`, is exactly its zero-padded name) |
| StreamlitSplitter.SplitStlIntoGrid | streamlit_app.py:30-109 | fails with `InvalidChunkSize` exactly when a consulted chunk size is not positive (X or Y); otherwise both counts are at least 1, an explicit count wins, no input gives 1, in chunk mode a segment never exceeds the chunk size, each count equals what `ResolveAxis` gives for its axis (in chunk mode `max(1, ceil(size / max))`, the least fitting count by `Splits.ChunkCountIsLeast`), and the report is the scan for the resolved counts |
| StreamlitSplitter.OutputFilesDistinct | streamlit_app.py:88-90 | the app's output files are pairwise distinct |
| CliSplitter.SplitStlIntoGrid | split-file.py:26-76 | fails exactly when a count is below -1 (`np.linspace` with a negative `num`), X first; otherwise the sections meet `IsScanOf` for the unclamped counts, counts of 0 or -1 write nothing, and there is one file per section, reading back as part 1, 2, … and so exactly its zero-padded name |
| CliSplitter.ScanAndSave | split-file.py:54-76 | the loop over a planned grid yields a scan meeting `IsScanOf`, with at most one section per cell and one file per section, reading back as part 1, 2, … |
| CliSplitter.Run | split-file.py:83-89 | in every one of the four combinations of given and missing options the result is `SplitStlIntoGrid` with each missing option at the default 3, so files as well as sections are fixed |
| CliSplitter.DefaultRunScans3By3 | split-file.py:83-89 | `python split-file.py model.stl` scans a 3 by 3 grid, saves at most 9 parts, and writes part `t` to exactly `PartName(prefix, t)` |
| CliSplitter.FrontEndsAgree | split-file.py:26-76 | for positive explicit counts the script and the app cut the same sections and, given the same prefix, write the same file names, whatever chunk sizes are given (the app derives the prefix from the file stem inside a temporary directory, the script from the input path with its directory) |
| CliSplitter.OnlyTheAppClamps | split-file.py:55-56 | a zero X count makes the script write nothing, while the app scans exactly as if asked for one column |

## Left out

- Mesh loading (`trimesh.load`) and the `ValueError` for input that is not a single mesh are not modelled: they are file I/O and a foreign type check.
- The optional `flip` rotation about the X axis is not modelled: it is a floating-point transform done by the geometry kernel before the bounding box is read. The model starts from the bounding box it produces.
- Mesh intersection and `section.export` are not modelled. They belong to the geometry kernel; only the emptiness of each section enters, as `isEmpty`. A kernel failure during intersection is not modelled either.
- Float64 rounding is not modelled. Coordinates, `np.ceil` and `np.linspace` are computed on exact reals, so a ceiling that float rounding would push one higher or lower is not reproduced.
- Extents.Linspace: a negative sample count cannot be passed, because `num` is a `nat`. Its error is modelled one level up, as `NegativeSampleCount` in `CliSplitter.SplitStlIntoGrid`.
- The temporary directory, the path joining of output names, `create_zip_file` and the Streamlit page (widgets, downloads, cleanup) are left out as I/O and UI. The widgets' `min_value` bounds only restrict which requests reach the core.
- Output-prefix derivation (`Path(...).stem` in the app, `os.path.splitext` in the script) is not modelled: the prefix is an arbitrary string parameter.
- Argument parsing and the `Saved:` messages of the script are not modelled: they are I/O. `CliSplitter.Run` starts from the already-parsed options.
- Python's `int` conversion of a float count is not modelled separately: `Splits.Ceil` already yields an integer.
