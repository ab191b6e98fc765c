/**
 * Rectangle arithmetic of furniture footprints on the floor grid.
 *
 * A piece anchored at cell (x, z) with size (sx, sy) covers the cells
 * [x, x + sx) × [z, z + sy); the rectangle is empty as soon as one side is not
 * positive, which is what happens to a rotated piece (its width is negated).
 */
module Geometry {

  /** Cell (i, j) lies in the footprint anchored at (x, z) with size (sx, sy). */
  predicate InFootprint(i: int, j: int, x: int, z: int, sx: int, sy: int)
  {
    x <= i < x + sx && z <= j < z + sy
  }

  /**
   * Every cell of the footprint lies inside a w × h grid: exactly when the
   * nested loops over the footprint never index outside the grid array.
   */
  predicate Fits(x: int, z: int, sx: int, sy: int, w: int, h: int)
  {
    sx <= 0 || sy <= 0 || (0 <= x && x + sx <= w && 0 <= z && z + sy <= h)
  }

  lemma FitsIffFootprintInside(x: int, z: int, sx: int, sy: int, w: int, h: int)
    ensures Fits(x, z, sx, sy, w, h) <==>
            forall i, j :: InFootprint(i, j, x, z, sx, sy) ==> 0 <= i < w && 0 <= j < h
  {
    if sx > 0 && sy > 0 && forall i, j :: InFootprint(i, j, x, z, sx, sy) ==> 0 <= i < w && 0 <= j < h {
      assert InFootprint(x, z, x, z, sx, sy);
      assert InFootprint(x + sx - 1, z + sy - 1, x, z, sx, sy);
    }
  }

  /**
   * The border test applied to a candidate anchor during a drag. It compares
   * the far corner with the grid size without looking at the sign of the
   * size, so for a positive size it is the same as Fits plus a non-negative
   * anchor, while for a rotated piece (sx < 0) it admits anchors up to
   * w - sx, past the right border.
   */
  function WithinBorders(x: int, z: int, sx: int, sy: int, w: int, h: int): (r: bool)
    ensures r ==> Fits(x, z, sx, sy, w, h)
    ensures sx > 0 && sy > 0 ==> (r <==> Fits(x, z, sx, sy, w, h))
    ensures r ==> 0 <= x && 0 <= z
    ensures sx < 0 && 0 < sy && z + sy <= h ==> (r <==> 0 <= x <= w - sx && 0 <= z)
  {
    x + sx <= w && z + sy <= h && x >= 0 && z >= 0
  }

  /** A rotated piece (negative width) covers no cell at all. */
  lemma RotatedFootprintEmpty(x: int, z: int, sx: int, sy: int)
    requires sx > 0
    ensures FootprintCells(x, z, -sx, sy) == {}
  {
  }

  /** The cells of column i from row z up to (not including) row z + n. */
  function Column(i: int, z: int, n: int): (r: set<(int, int)>)
    decreases if n > 0 then n else 0
    ensures forall a, b :: (a, b) in r <==> a == i && z <= b < z + n
    ensures |r| == if n > 0 then n else 0
  {
    if n <= 0 then {}
    else
      var rest := Column(i, z, n - 1);
      assert (i, z + n - 1) !in rest;
      rest + {(i, z + n - 1)}
  }

  /**
   * The set of cells a piece anchored at (x, z) with size (sx, sy) covers:
   * sx · sy of them for a positive size, none for a rotated piece.
   */
  function FootprintCells(x: int, z: int, sx: int, sy: int): (r: set<(int, int)>)
    decreases if sx > 0 then sx else 0
    ensures forall i, j :: (i, j) in r <==> InFootprint(i, j, x, z, sx, sy)
    ensures |r| == if sx > 0 && sy > 0 then sx * sy else 0
  {
    if sx <= 0 || sy <= 0 then {}
    else
      var left := FootprintCells(x, z, sx - 1, sy);
      var col := Column(x + sx - 1, z, sy);
      assert left * col == {} by {
        forall c | c in col ensures c !in left {
          var (i, j) := c;
          assert (i, j) in col;
        }
      }
      left + col
  }
}
