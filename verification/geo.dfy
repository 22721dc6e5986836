/**
 This module holds the plain values both grid builders work with: lattice
 points, the bounding rectangle they are built over, the builders' one
 failure, and the two pieces of Python semantics the builders rely on —
 `int()` on a float and the length of `range(n)`.
 */
module Geo {
  import opened Arith

  /** A lattice point as (longitude, latitude), in degrees. */
  type Point = (real, real)

  /** An axis-aligned rectangle given by its minimum and maximum corners, in degrees. */
  datatype Rect = Rect(minLon: real, minLat: real, maxLon: real, maxLat: real)
  {
    /** The minimum corner is not beyond the maximum corner on either axis. */
    predicate WellFormed() {
      minLon <= maxLon && minLat <= maxLat
    }

    /** The point lies in the closed rectangle. */
    predicate Contains(p: Point) {
      minLon <= p.0 <= maxLon && minLat <= p.1 <= maxLat
    }
  }

  /** The fixed kilometres-per-degree factor both builders convert the spacing with. */
  const KmPerDegree: real := 111.0

  /** `spacing_deg`: the lattice spacing converted from kilometres to degrees. */
  function SpacingDeg(spacingKm: real): (d: real)
    ensures d * KmPerDegree == spacingKm
    ensures 0.0 < spacingKm <==> 0.0 < d
  {
    spacingKm / KmPerDegree
  }

  /** The inputs the lattice properties are stated for: a well-formed rectangle and a positive spacing. */
  predicate ValidInput(region: Rect, spacingKm: real) {
    region.WellFormed() && 0.0 < spacingKm
  }

  /** The rectangle the scripts sample: Roswell, New Mexico. */
  const Roswell: Rect := Rect(-104.75, 33.25, -104.3, 33.5)

  /**
   The only way a grid builder fails in exact arithmetic: dividing by a zero
   spacing raises ZeroDivisionError.
   */
  datatype GridError = ZeroDivision

  /** Either the built lattice or the error the builder raised. */
  datatype Result<+T> = Ok(value: T) | Err(error: GridError)

  /** Python's `int()` on a float: truncation toward zero. */
  function PyInt(x: real): (n: int)
    ensures 0.0 <= x ==> 0 <= n && n as real <= x < n as real + 1.0
    ensures x < 0.0 ==> n <= 0 && n as real - 1.0 < x <= n as real
  {
    if x >= 0.0 then x.Floor else -((-x).Floor)
  }

  /** n is the number of whole steps of size `step` that fit in `extent`. */
  predicate WholeSpacings(n: int, extent: real, step: real) {
    0 <= n && n as real * step <= extent && extent < (n as real + 1.0) * step
  }

  /**
   For a non-negative extent and a positive step, int(extent / step) is the
   number of whole steps that fit in the extent.
   */
  lemma WholeSteps(extent: real, step: real)
    ensures 0.0 <= extent && 0.0 < step ==>
              WholeSpacings(PyInt(extent / step), extent, step)
  {
    if 0.0 <= extent && 0.0 < step {
      var n := PyInt(extent / step);
      var x := extent / step;
      assert x * step == extent;
      RealMulLe(n as real, x, step);
      RealMulLt(x, n as real + 1.0, step);
      assert extent < (n as real + 1.0) * step;
    }
  }

  /** The number of values `range(n)` yields: n of them, or none when n is zero or negative. */
  function RangeLen(n: int): (r: nat)
    ensures 0 <= n ==> r == n
    ensures n <= 0 ==> r == 0
  {
    if n < 0 then 0 else n
  }
}
