/**
 `create_grid` as the temperature/humidity script writes it: the inclusive
 lattice. Both loops run over `range(points + 1)`, so the far endpoint of each
 axis is included whenever it falls on the lattice, and for a well-formed
 rectangle and a positive spacing the grid always contains the minimum corner.
 */
module TempHumidityGrid {
  import opened Geo
  import opened Lattice
  import opened Arith

  /**
   `lon_points` / `lat_points`: int(extent / spacing_deg). For a non-negative
   extent and a positive spacing, the number of whole spacings that fit in the extent.
   */
  function StepCount(extent: real, spacingKm: real): (n: int)
    requires spacingKm != 0.0
    ensures 0.0 <= extent && 0.0 < spacingKm ==>
              WholeSpacings(n, extent, SpacingDeg(spacingKm))
  {
    WholeSteps(extent, SpacingDeg(spacingKm));
    PyInt(extent / SpacingDeg(spacingKm))
  }

  /** `lon_points`: how many whole spacings fit across the rectangle's width. */
  function LonPoints(region: Rect, spacingKm: real): (n: int)
    requires spacingKm != 0.0
    ensures ValidInput(region, spacingKm) ==>
              WholeSpacings(n, region.maxLon - region.minLon, SpacingDeg(spacingKm))
  {
    StepCount(region.maxLon - region.minLon, spacingKm)
  }

  /** `lat_points`: how many whole spacings fit across the rectangle's height. */
  function LatPoints(region: Rect, spacingKm: real): (n: int)
    requires spacingKm != 0.0
    ensures ValidInput(region, spacingKm) ==>
              WholeSpacings(n, region.maxLat - region.minLat, SpacingDeg(spacingKm))
  {
    StepCount(region.maxLat - region.minLat, spacingKm)
  }

  /**
   The whole builder, given the rectangle's corners. A zero spacing divides by
   zero; any other input yields the lattice, whose loops run zero times for a
   negative bound.
   */
  function CreateGrid(region: Rect, spacingKm: real): (res: Result<seq<Point>>)
    ensures res.Err? <==> spacingKm == 0.0
    ensures res.Ok? ==>
              |res.value| == RangeLen(LonPoints(region, spacingKm) + 1)
                             * RangeLen(LatPoints(region, spacingKm) + 1)
  {
    if spacingKm == 0.0 then Err(ZeroDivision)
    else
      var spacingDeg := SpacingDeg(spacingKm);
      var lonPoints := LonPoints(region, spacingKm);
      var latPoints := LatPoints(region, spacingKm);
      Ok(Grid(region.minLon, region.minLat, spacingDeg, RangeLen(lonPoints + 1), RangeLen(latPoints + 1)))
  }

  /**
   For a non-negative extent the truncation is a floor, and the step count is
   the number of whole spacings that fit in the extent.
   */
  lemma StepCountIsFloor(extent: real, spacingKm: real)
    requires 0.0 <= extent && 0.0 < spacingKm
    ensures StepCount(extent, spacingKm) == (extent / SpacingDeg(spacingKm)).Floor
  {
  }

  /** For valid input the builder succeeds with the lattice of lon_points + 1 columns and lat_points + 1 rows. */
  lemma CreateGridIsLattice(region: Rect, spacingKm: real)
    requires ValidInput(region, spacingKm)
    ensures 0 <= LonPoints(region, spacingKm)
    ensures 0 <= LatPoints(region, spacingKm)
    ensures CreateGrid(region, spacingKm)
            == Ok(Grid(region.minLon, region.minLat, SpacingDeg(spacingKm),
                       LonPoints(region, spacingKm) + 1,
                       LatPoints(region, spacingKm) + 1))
  {
  }

  /** The grid has (lon_points + 1) * (lat_points + 1) points. */
  lemma GridSize(region: Rect, spacingKm: real)
    requires ValidInput(region, spacingKm)
    ensures CreateGrid(region, spacingKm).Ok?
    ensures 0 <= LonPoints(region, spacingKm)
    ensures 0 <= LatPoints(region, spacingKm)
    ensures |CreateGrid(region, spacingKm).value|
            == (LonPoints(region, spacingKm) + 1)
               * (LatPoints(region, spacingKm) + 1)
  {
  }

  /**
   Row-major layout: the point for longitude index i and latitude index j
   sits at position i * (lat_points + 1) + j.
   */
  lemma PointAt(region: Rect, spacingKm: real, i: int, j: int)
    requires ValidInput(region, spacingKm)
    requires 0 <= i <= LonPoints(region, spacingKm)
    requires 0 <= j <= LatPoints(region, spacingKm)
    ensures CreateGrid(region, spacingKm).Ok?
    ensures i * (LatPoints(region, spacingKm) + 1) + j < |CreateGrid(region, spacingKm).value|
    ensures CreateGrid(region, spacingKm).value[i * (LatPoints(region, spacingKm) + 1) + j].0
            == Coord(region.minLon, SpacingDeg(spacingKm), i)
    ensures CreateGrid(region, spacingKm).value[i * (LatPoints(region, spacingKm) + 1) + j].1
            == Coord(region.minLat, SpacingDeg(spacingKm), j)
  {
    CreateGridIsLattice(region, spacingKm);
    GridPoint(region.minLon, region.minLat, SpacingDeg(spacingKm),
              LonPoints(region, spacingKm) + 1,
              LatPoints(region, spacingKm) + 1, i, j);
  }

  /**
   The grid is never empty, and its first point is the minimum corner, even
   when the rectangle is narrower than one spacing.
   */
  lemma StartsAtMinCorner(region: Rect, spacingKm: real)
    requires ValidInput(region, spacingKm)
    ensures CreateGrid(region, spacingKm).Ok?
    ensures |CreateGrid(region, spacingKm).value| > 0
    ensures CreateGrid(region, spacingKm).value[0] == (region.minLon, region.minLat)
  {
    PointAt(region, spacingKm, 0, 0);
  }

  /** The point at lattice index (i, j), for i and j within the step counts, lies in the rectangle. */
  lemma LatticePointWithin(region: Rect, spacingKm: real, i: int, j: int)
    requires ValidInput(region, spacingKm)
    requires 0 <= i <= LonPoints(region, spacingKm)
    requires 0 <= j <= LatPoints(region, spacingKm)
    ensures region.Contains((Coord(region.minLon, SpacingDeg(spacingKm), i), Coord(region.minLat, SpacingDeg(spacingKm), j)))
  {
    CoordWithin(region.minLon, region.maxLon, SpacingDeg(spacingKm), LonPoints(region, spacingKm), i);
    CoordWithin(region.minLat, region.maxLat, SpacingDeg(spacingKm), LatPoints(region, spacingKm), j);
  }

  /** In exact arithmetic every point lies inside the closed rectangle. */
  lemma WithinRegion(region: Rect, spacingKm: real)
    requires ValidInput(region, spacingKm)
    ensures CreateGrid(region, spacingKm).Ok?
    ensures forall k :: 0 <= k < |CreateGrid(region, spacingKm).value| ==>
              region.Contains(CreateGrid(region, spacingKm).value[k])
  {
    var lonPoints := LonPoints(region, spacingKm);
    var latPoints := LatPoints(region, spacingKm);
    GridSize(region, spacingKm);
    var g := CreateGrid(region, spacingKm).value;
    forall k | 0 <= k < |g|
      ensures region.Contains(g[k])
    {
      IndexSplit(k, lonPoints + 1, latPoints + 1);
      var i, j := k / (latPoints + 1), k % (latPoints + 1);
      PointAt(region, spacingKm, i, j);
      LatticePointWithin(region, spacingKm, i, j);
    }
  }

  /**
   Row-major order: longitudes never decrease along the sequence, and within
   one longitude column the latitudes strictly increase.
   */
  lemma RowMajorOrder(region: Rect, spacingKm: real)
    requires ValidInput(region, spacingKm)
    ensures CreateGrid(region, spacingKm).Ok?
    ensures forall k, k' :: 0 <= k < k' < |CreateGrid(region, spacingKm).value| ==>
              Precedes(CreateGrid(region, spacingKm).value[k], CreateGrid(region, spacingKm).value[k'])
    ensures forall k, k' :: 0 <= k < k' < |CreateGrid(region, spacingKm).value| ==>
              CreateGrid(region, spacingKm).value[k].0 <= CreateGrid(region, spacingKm).value[k'].0
    ensures forall k, k' ::
              (0 <= k < k' < |CreateGrid(region, spacingKm).value|
               && CreateGrid(region, spacingKm).value[k].0 == CreateGrid(region, spacingKm).value[k'].0) ==>
              CreateGrid(region, spacingKm).value[k].1 < CreateGrid(region, spacingKm).value[k'].1
  {
    var lonPoints := LonPoints(region, spacingKm);
    var latPoints := LatPoints(region, spacingKm);
    GridSize(region, spacingKm);
    GridRowMajor(region.minLon, region.minLat, SpacingDeg(spacingKm), lonPoints + 1, latPoints + 1);
  }

  /**
   Outside ValidInput the bound can fail: an inverted rectangle 0.5 degrees
   wide truncates its negative step count to 0, so the single point is the
   minimum corner, which lies outside the closed rectangle.
   */
  lemma InvertedCornerOutside()
    ensures CreateGrid(Rect(0.5, 0.0, 0.0, 0.0), 111.0).Ok?
    ensures |CreateGrid(Rect(0.5, 0.0, 0.0, 0.0), 111.0).value| == 1
    ensures !Rect(0.5, 0.0, 0.0, 0.0).Contains(CreateGrid(Rect(0.5, 0.0, 0.0, 0.0), 111.0).value[0])
  {
    var r := Rect(0.5, 0.0, 0.0, 0.0);
    assert SpacingDeg(111.0) == 1.0;
    assert LonPoints(r, 111.0) == 0;
    assert LatPoints(r, 111.0) == 0;
    GridPoint(0.5, 0.0, 1.0, 1, 1, 0, 0);
  }

  /**
   Outside ValidInput the order can fail: a negative spacing over an inverted
   rectangle steps downward, so the longitude drops from 1 to 0 along the lattice.
   */
  lemma InvertedDescends()
    ensures CreateGrid(Rect(1.0, 1.0, 0.0, 0.0), -111.0).Ok?
    ensures |CreateGrid(Rect(1.0, 1.0, 0.0, 0.0), -111.0).value| == 4
    ensures CreateGrid(Rect(1.0, 1.0, 0.0, 0.0), -111.0).value[0].0 == 1.0
    ensures CreateGrid(Rect(1.0, 1.0, 0.0, 0.0), -111.0).value[2].0 == 0.0
  {
    var r := Rect(1.0, 1.0, 0.0, 0.0);
    assert SpacingDeg(-111.0) == -1.0;
    assert LonPoints(r, -111.0) == 1;
    assert LatPoints(r, -111.0) == 1;
    GridPoint(1.0, 1.0, -1.0, 2, 2, 0, 0);
    GridPoint(1.0, 1.0, -1.0, 2, 2, 1, 0);
  }

  /** The Roswell rectangle at 10 km: 4 longitude steps and 2 latitude steps, so 5 x 3 = 15 points. */
  lemma RoswellGrid()
    ensures LonPoints(Roswell, 10.0) == 4
    ensures LatPoints(Roswell, 10.0) == 2
    ensures CreateGrid(Roswell, 10.0).Ok? && |CreateGrid(Roswell, 10.0).value| == 15
  {
    assert (Roswell.maxLon - Roswell.minLon) / SpacingDeg(10.0) == 4.995;
    assert (Roswell.maxLat - Roswell.minLat) / SpacingDeg(10.0) == 2.775;
  }
}
