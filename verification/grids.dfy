/** The planned grid: cut coordinates along X and Y, the full Z range, and the clipping
    box of every cell. */
module Grids {
  import opened Geometry
  import opened Extents

  /** Grid cell `(i, j)`: the `i`-th X segment and the `j`-th Y segment. */
  datatype Cell = Cell(i: int, j: int)

  /** The cell lies in an `nx` by `ny` grid. */
  predicate InGrid(c: Cell, nx: int, ny: int) {
    0 <= c.i < nx && 0 <= c.j < ny
  }

  /** `x_extent`, `y_extent` and `z_min`, `z_max` of one run. */
  datatype Grid = Grid(xs: seq<real>, ys: seq<real>, zMin: real, zMax: real) {

    /** Both cut pairs `xs[i], xs[i+1]` and `ys[j], ys[j+1]` exist. */
    predicate Indexes(c: Cell) {
      0 <= c.i && c.i + 1 < |xs| && 0 <= c.j && c.j + 1 < |ys|
    }
  }

  /** The clipping box of cell `c`: its corners are the cell's cut coordinates on X and Y
      and the full Z range. */
  function CellBox(g: Grid, c: Cell): (b: Box)
    requires g.Indexes(c)
    ensures b.MinCorner() == Vec3(g.xs[c.i], g.ys[c.j], g.zMin)
    ensures b.MaxCorner() == Vec3(g.xs[c.i + 1], g.ys[c.j + 1], g.zMax)
  {
    ClipBox(Vec3(g.xs[c.i], g.ys[c.j], g.zMin), Vec3(g.xs[c.i + 1], g.ys[c.j + 1], g.zMax))
  }

  /** The extents for `nx` by `ny` cells over `bounds`: `nx + 1` and `ny + 1` evenly spaced
      cuts from the minimum to the maximum corner; Z is not subdivided. A count of -1 asks
      for no samples at all, as `np.linspace` with `num = 0` does. */
  function PlanGrid(bounds: BoundingBox, nx: int, ny: int): (g: Grid)
    requires nx >= -1 && ny >= -1
    ensures |g.xs| == nx + 1 && |g.ys| == ny + 1
    ensures nx >= 0 ==> g.xs[0] == bounds.lo.x
    ensures ny >= 0 ==> g.ys[0] == bounds.lo.y
    ensures nx >= 1 ==> g.xs[nx] == bounds.hi.x
    ensures ny >= 1 ==> g.ys[ny] == bounds.hi.y
    ensures nx >= 1 ==> EvenlySpaced(g.xs, Dimensions(bounds).x / nx as real)
    ensures ny >= 1 ==> EvenlySpaced(g.ys, Dimensions(bounds).y / ny as real)
    ensures g.zMin == bounds.lo.z && g.zMax == bounds.hi.z
  {
    Grid(Linspace(bounds.lo.x, bounds.hi.x, nx + 1), Linspace(bounds.lo.y, bounds.hi.y, ny + 1),
         bounds.lo.z, bounds.hi.z)
  }

  /** Every cell's clipping box lies inside the model's bounding box and has non-negative
      extents. */
  lemma CellBoxInsideBounds(bounds: BoundingBox, nx: int, ny: int, c: Cell)
    requires bounds.Valid()
    requires nx >= 1 && ny >= 1
    requires InGrid(c, nx, ny)
    ensures PlanGrid(bounds, nx, ny).Indexes(c)
    ensures bounds.Contains(CellBox(PlanGrid(bounds, nx, ny), c).MinCorner())
    ensures bounds.Contains(CellBox(PlanGrid(bounds, nx, ny), c).MaxCorner())
    ensures LessEq(Vec3(0.0, 0.0, 0.0), CellBox(PlanGrid(bounds, nx, ny), c).extents)
  {
    LinspaceMonotone(bounds.lo.x, bounds.hi.x, nx + 1, c.i, c.i + 1);
    LinspaceMonotone(bounds.lo.y, bounds.hi.y, ny + 1, c.j, c.j + 1);
  }

  /** Neighbouring cells' clipping boxes meet at their shared cut: `x[i + 1]` between
      `(i, j)` and `(i + 1, j)`, `y[j + 1]` between `(i, j)` and `(i, j + 1)`. */
  lemma NeighbourBoxesShareFaces(bounds: BoundingBox, nx: int, ny: int, c: Cell)
    requires nx >= 1 && ny >= 1
    requires InGrid(c, nx, ny)
    ensures c.i + 1 < nx ==>
      CellBox(PlanGrid(bounds, nx, ny), c).MaxCorner().x == CellBox(PlanGrid(bounds, nx, ny), Cell(c.i + 1, c.j)).MinCorner().x
    ensures c.j + 1 < ny ==>
      CellBox(PlanGrid(bounds, nx, ny), c).MaxCorner().y == CellBox(PlanGrid(bounds, nx, ny), Cell(c.i, c.j + 1)).MinCorner().y
  {
  }

  /** The clipping boxes of different cells do not overlap: a point strictly inside the
      boxes of two cells of the grid means the two cells are the same. */
  lemma CellInteriorsDisjoint(bounds: BoundingBox, nx: int, ny: int, c: Cell, d: Cell, p: Vec3)
    requires bounds.Valid()
    requires nx >= 1 && ny >= 1
    requires InGrid(c, nx, ny) && InGrid(d, nx, ny)
    ensures CellBox(PlanGrid(bounds, nx, ny), c).Interior(p) && CellBox(PlanGrid(bounds, nx, ny), d).Interior(p)
      ==> c == d
  {
    var g := PlanGrid(bounds, nx, ny);
    LinspaceAscending(bounds.lo.x, bounds.hi.x, nx + 1);
    LinspaceAscending(bounds.lo.y, bounds.hi.y, ny + 1);
    if CellBox(g, c).Interior(p) && CellBox(g, d).Interior(p) {
      InteriorsMeetOnlyInOneCell(g, c, d, p);
    }
  }

  /** On any grid with ascending cuts, a point strictly inside two cells' boxes lies
      strictly between the same pair of cuts on each axis, so the cells are the same. */
  lemma InteriorsMeetOnlyInOneCell(g: Grid, c: Cell, d: Cell, p: Vec3)
    requires Ascending(g.xs) && Ascending(g.ys)
    requires g.Indexes(c) && g.Indexes(d)
    requires CellBox(g, c).Interior(p) && CellBox(g, d).Interior(p)
    ensures c == d
  {
    SegmentIsUnique(g.xs, c.i, d.i, p.x);
    SegmentIsUnique(g.ys, c.j, d.j, p.y);
  }

  /** The cell of the grid whose clipping box holds a point of the bounding box. */
  predicate HoldsPoint(g: Grid, nx: int, ny: int, c: Cell, p: Vec3)
    requires nx < |g.xs| && ny < |g.ys|
  {
    InGrid(c, nx, ny) && CellBox(g, c).Contains(p)
  }

  /** Every point of the model's bounding box lies in the clipping box of some cell: the
      boxes together cover the whole bounding box, so the scan loses no part of the mesh. */
  lemma CellBoxesCoverBounds(bounds: BoundingBox, nx: int, ny: int, p: Vec3)
    requires bounds.Valid()
    requires nx >= 1 && ny >= 1
    requires bounds.Contains(p)
    ensures exists c :: HoldsPoint(PlanGrid(bounds, nx, ny), nx, ny, c, p)
  {
    var g := PlanGrid(bounds, nx, ny);
    var c := Cell(SegmentOf(bounds.lo.x, bounds.hi.x, nx, p.x), SegmentOf(bounds.lo.y, bounds.hi.y, ny, p.y));
    assert HoldsPoint(g, nx, ny, c, p);
  }
}
