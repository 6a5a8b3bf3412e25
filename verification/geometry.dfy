/** Points, the model's axis-aligned bounding box, and the box solids used to clip it.
    Coordinates are exact reals: float64 rounding is not modelled. */
module Geometry {

  datatype Vec3 = Vec3(x: real, y: real, z: real)

  function Add(a: Vec3, b: Vec3): Vec3 {
    Vec3(a.x + b.x, a.y + b.y, a.z + b.z)
  }

  function Sub(a: Vec3, b: Vec3): Vec3 {
    Vec3(a.x - b.x, a.y - b.y, a.z - b.z)
  }

  /** Component-wise order. */
  predicate LessEq(a: Vec3, b: Vec3) {
    a.x <= b.x && a.y <= b.y && a.z <= b.z
  }

  /** `mesh.bounds`: the minimum and maximum corner of the mesh. */
  datatype BoundingBox = BoundingBox(lo: Vec3, hi: Vec3) {

    /** What the geometry kernel guarantees of every bounding box. */
    predicate Valid() {
      LessEq(lo, hi)
    }

    predicate Contains(p: Vec3) {
      LessEq(lo, p) && LessEq(p, hi)
    }
  }

  /** The model size per axis (`bounds[1] - bounds[0]`): the vector that carries the
      minimum corner onto the maximum one, non-negative exactly when the box is valid. */
  function Dimensions(bounds: BoundingBox): (s: Vec3)
    ensures Add(bounds.lo, s) == bounds.hi
    ensures bounds.Valid() <==> (s.x >= 0.0 && s.y >= 0.0 && s.z >= 0.0)
  {
    Sub(bounds.hi, bounds.lo)
  }

  /** A solid box as `trimesh.creation.box(extents, transform=translation_matrix(center))`
      builds it: side lengths `extents`, centred on `center`. */
  datatype Box = Box(extents: Vec3, center: Vec3) {

    function MinCorner(): Vec3 {
      Vec3(center.x - extents.x / 2.0, center.y - extents.y / 2.0, center.z - extents.z / 2.0)
    }

    function MaxCorner(): Vec3 {
      Vec3(center.x + extents.x / 2.0, center.y + extents.y / 2.0, center.z + extents.z / 2.0)
    }

    predicate Contains(p: Vec3) {
      LessEq(MinCorner(), p) && LessEq(p, MaxCorner())
    }

    /** `p` lies strictly inside the box, off all of its faces. */
    predicate Interior(p: Vec3) {
      var lo, hi := MinCorner(), MaxCorner();
      lo.x < p.x < hi.x && lo.y < p.y < hi.y && lo.z < p.z < hi.z
    }
  }

  /** The clipping box built for the range `lo`..`hi`: extents `hi - lo`, translated to the
      midpoint `(hi + lo) / 2`. Its corners are exactly `lo` and `hi`, and its extents are
      non-negative exactly when `lo <= hi`. */
  function ClipBox(lo: Vec3, hi: Vec3): (b: Box)
    ensures b.MinCorner() == lo && b.MaxCorner() == hi
    ensures LessEq(lo, hi) <==> LessEq(Vec3(0.0, 0.0, 0.0), b.extents)
  {
    Box(Sub(hi, lo), Vec3((hi.x + lo.x) / 2.0, (hi.y + lo.y) / 2.0, (hi.z + lo.z) / 2.0))
  }
}
