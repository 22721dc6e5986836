/**
 `create_grid` as the methane script writes it: the exclusive lattice. Both
 loops run over `range(points)`, so neither far endpoint is ever emitted, and
 a rectangle narrower than one spacing on either axis yields no points at all.
 The step counts are computed as int(extent * 111 / spacing_km) rather than
 int(extent / spacing_deg), which in exact arithmetic is the same number, so
 this lattice is the inclusive one with its last column and last row removed.
 */
module MethaneGrid {
  import opened Geo
  import opened Lattice
  import opened Arith
  import TempHumidityGrid

  /**
   `lon_points` / `lat_points`: int(extent * 111 / spacing_km). For a
   non-negative extent and a positive spacing, the number of whole spacings
   (of spacing_km / 111 degrees) that fit in the extent.
   */
  function StepCount(extent: real, spacingKm: real): (n: int)
    requires spacingKm != 0.0
    ensures 0.0 <= extent && 0.0 < spacingKm ==>
              WholeSpacings(n, extent, SpacingDeg(spacingKm))
  {
    QuotientsAgree(extent, spacingKm);
    WholeSteps(extent, SpacingDeg(spacingKm));
    PyInt(extent * KmPerDegree / spacingKm)
  }

  /** `lon_points`: how many whole spacings fit across the rectangle's width. */
  function LonPoints(region: Rect, spacingKm: real): (n: int)
    requires spacingKm != 0.0
    ensures ValidInput(region, spacingKm) ==>
              WholeSpacings(n, region.maxLon - region.minLon, SpacingDeg(spacingKm))
  {
    StepCount(region.maxLon - region.minLon, spacingKm)
  }

  /** `lat_points`: how many whole spacings fit across the rectangle's height. */
  function LatPoints(region: Rect, spacingKm: real): (n: int)
    requires spacingKm != 0.0
    ensures ValidInput(region, spacingKm) ==>
              WholeSpacings(n, region.maxLat - region.minLat, SpacingDeg(spacingKm))
  {
    StepCount(region.maxLat - region.minLat, spacingKm)
  }

  /**
   The whole builder, given the rectangle's corners. A zero spacing divides by
   zero; any other input yields the lattice of `range(lon_points)` columns and
   `range(lat_points)` rows, each point at min + i * spacing_km / 111.
   */
  function CreateGrid(region: Rect, spacingKm: real): (res: Result<seq<Point>>)
    ensures res.Err? <==> spacingKm == 0.0
    ensures res.Ok? ==>
              |res.value| == RangeLen(LonPoints(region, spacingKm))
                             * RangeLen(LatPoints(region, spacingKm))
  {
    if spacingKm == 0.0 then Err(ZeroDivision)
    else
      var lonPoints := LonPoints(region, spacingKm);
      var latPoints := LatPoints(region, spacingKm);
      Ok(Grid(region.minLon, region.minLat, SpacingDeg(spacingKm), RangeLen(lonPoints), RangeLen(latPoints)))
  }

  /** In exact arithmetic both scripts compute the same step count for every extent and non-zero spacing. */
  lemma StepCountsAgree(extent: real, spacingKm: real)
    requires spacingKm != 0.0
    ensures StepCount(extent, spacingKm) == TempHumidityGrid.StepCount(extent, spacingKm)
  {
    QuotientsAgree(extent, spacingKm);
  }

  /** Both scripts give the same rectangle the same lon_points and lat_points. */
  lemma PointsAgree(region: Rect, spacingKm: real)
    requires spacingKm != 0.0
    ensures LonPoints(region, spacingKm) == TempHumidityGrid.LonPoints(region, spacingKm)
    ensures LatPoints(region, spacingKm) == TempHumidityGrid.LatPoints(region, spacingKm)
  {
    StepCountsAgree(region.maxLon - region.minLon, spacingKm);
    StepCountsAgree(region.maxLat - region.minLat, spacingKm);
  }

  /** extent * 111 / spacing_km and extent / (spacing_km / 111) are the same real number. */
  lemma QuotientsAgree(extent: real, spacingKm: real)
    requires spacingKm != 0.0
    ensures extent * KmPerDegree / spacingKm == extent / SpacingDeg(spacingKm)
  {
    var x := extent / SpacingDeg(spacingKm);
    var y := extent * KmPerDegree / spacingKm;
    assert x * spacingKm == extent * KmPerDegree;
    assert y * spacingKm == extent * KmPerDegree;
    CancelNonZero(x, y, spacingKm);
  }

  /**
   For a non-negative extent the step count is floor(extent * 111 / spacing_km),
   the number of whole spacings that fit in the extent.
   */
  lemma StepCountIsFloor(extent: real, spacingKm: real)
    requires 0.0 <= extent && 0.0 < spacingKm
    ensures StepCount(extent, spacingKm) == (extent * KmPerDegree / spacingKm).Floor
  {
  }

  /** For valid input the builder succeeds with the lattice of lon_points columns and lat_points rows. */
  lemma CreateGridIsLattice(region: Rect, spacingKm: real)
    requires ValidInput(region, spacingKm)
    ensures 0 <= LonPoints(region, spacingKm)
    ensures 0 <= LatPoints(region, spacingKm)
    ensures CreateGrid(region, spacingKm)
            == Ok(Grid(region.minLon, region.minLat, SpacingDeg(spacingKm),
                       LonPoints(region, spacingKm),
                       LatPoints(region, spacingKm)))
  {
  }

  /** The grid has exactly lon_points * lat_points points: no + 1 on either axis. */
  lemma GridSize(region: Rect, spacingKm: real)
    requires ValidInput(region, spacingKm)
    ensures CreateGrid(region, spacingKm).Ok?
    ensures |CreateGrid(region, spacingKm).value|
            == LonPoints(region, spacingKm) * LatPoints(region, spacingKm)
  {
    CreateGridIsLattice(region, spacingKm);
  }

  /** A step count is 0 exactly when the extent is narrower than one spacing. */
  lemma StepCountZeroWhenNarrow(extent: real, spacingKm: real)
    requires 0.0 <= extent && 0.0 < spacingKm
    ensures StepCount(extent, spacingKm) == 0 <==> extent < SpacingDeg(spacingKm)
  {
    StepCountIsFloor(extent, spacingKm);
    var n := StepCount(extent, spacingKm);
    if n > 0 {
      CoordWithin(0.0, extent, SpacingDeg(spacingKm), n, 1);
    }
  }

  /**
   The grid is empty exactly when the rectangle is narrower than one spacing
   on some axis, that is, when some step count is 0. When it is not empty its
   first point is the minimum corner.
   */
  lemma EmptyExactlyWhenNarrow(region: Rect, spacingKm: real)
    requires ValidInput(region, spacingKm)
    ensures CreateGrid(region, spacingKm).Ok?
    ensures |CreateGrid(region, spacingKm).value| == 0
            <==> LonPoints(region, spacingKm) == 0
                 || LatPoints(region, spacingKm) == 0
    ensures |CreateGrid(region, spacingKm).value| == 0
            <==> region.maxLon - region.minLon < SpacingDeg(spacingKm)
                 || region.maxLat - region.minLat < SpacingDeg(spacingKm)
    ensures |CreateGrid(region, spacingKm).value| > 0 ==>
              CreateGrid(region, spacingKm).value[0] == (region.minLon, region.minLat)
  {
    GridSize(region, spacingKm);
    CreateGridIsLattice(region, spacingKm);
    ProductZero(LonPoints(region, spacingKm), LatPoints(region, spacingKm));
    StepCountZeroWhenNarrow(region.maxLon - region.minLon, spacingKm);
    StepCountZeroWhenNarrow(region.maxLat - region.minLat, spacingKm);
    if |CreateGrid(region, spacingKm).value| > 0 {
      PointAt(region, spacingKm, 0, 0);
    }
  }

  /**
   Row-major layout: the point for longitude index i and latitude index j
   sits at position i * lat_points + j, at min + i * spacing_km / 111 on each axis.
   */
  lemma PointAt(region: Rect, spacingKm: real, i: int, j: int)
    requires ValidInput(region, spacingKm)
    requires 0 <= i < LonPoints(region, spacingKm)
    requires 0 <= j < LatPoints(region, spacingKm)
    ensures CreateGrid(region, spacingKm).Ok?
    ensures i * LatPoints(region, spacingKm) + j < |CreateGrid(region, spacingKm).value|
    ensures CreateGrid(region, spacingKm).value[i * LatPoints(region, spacingKm) + j].0
            == Coord(region.minLon, SpacingDeg(spacingKm), i)
    ensures CreateGrid(region, spacingKm).value[i * LatPoints(region, spacingKm) + j].1
            == Coord(region.minLat, SpacingDeg(spacingKm), j)
    ensures CreateGrid(region, spacingKm).value[i * LatPoints(region, spacingKm) + j].0
            == region.minLon + i as real * spacingKm / KmPerDegree
    ensures CreateGrid(region, spacingKm).value[i * LatPoints(region, spacingKm) + j].1
            == region.minLat + j as real * spacingKm / KmPerDegree
  {
    CreateGridIsLattice(region, spacingKm);
    GridPoint(region.minLon, region.minLat, SpacingDeg(spacingKm),
              LonPoints(region, spacingKm),
              LatPoints(region, spacingKm), i, j);
    ScaledStep(region.minLon, spacingKm, i);
    ScaledStep(region.minLat, spacingKm, j);
  }

  /** i steps of spacing_deg from lo is lo + i * spacing_km / 111, the coordinate as the loop body writes it. */
  lemma ScaledStep(lo: real, spacingKm: real, i: int)
    ensures Coord(lo, SpacingDeg(spacingKm), i) == lo + i as real * spacingKm / KmPerDegree
  {
  }

  /** The point at lattice index (i, j), below the step counts, keeps a full spacing short of the maximum corner. */
  lemma LatticePointShortOfMax(region: Rect, spacingKm: real, i: int, j: int)
    requires ValidInput(region, spacingKm)
    requires 0 <= i < LonPoints(region, spacingKm)
    requires 0 <= j < LatPoints(region, spacingKm)
    ensures region.minLon <= Coord(region.minLon, SpacingDeg(spacingKm), i)
    ensures Coord(region.minLon, SpacingDeg(spacingKm), i) + SpacingDeg(spacingKm) <= region.maxLon
    ensures region.minLat <= Coord(region.minLat, SpacingDeg(spacingKm), j)
    ensures Coord(region.minLat, SpacingDeg(spacingKm), j) + SpacingDeg(spacingKm) <= region.maxLat
  {
    CoordShortOfEnd(region.minLon, region.maxLon, SpacingDeg(spacingKm), LonPoints(region, spacingKm), i);
    CoordShortOfEnd(region.minLat, region.maxLat, SpacingDeg(spacingKm), LatPoints(region, spacingKm), j);
  }

  /**
   In exact arithmetic every point is at least one spacing short of the
   maximum corner on both axes, so strictly below the maximum edges, and not
   below the minimum corner.
   */
  lemma ShortOfMax(region: Rect, spacingKm: real)
    requires ValidInput(region, spacingKm)
    ensures CreateGrid(region, spacingKm).Ok?
    ensures forall k :: 0 <= k < |CreateGrid(region, spacingKm).value| ==>
              var p := CreateGrid(region, spacingKm).value[k];
              region.minLon <= p.0 && p.0 + SpacingDeg(spacingKm) <= region.maxLon
              && region.minLat <= p.1 && p.1 + SpacingDeg(spacingKm) <= region.maxLat
    ensures forall k :: 0 <= k < |CreateGrid(region, spacingKm).value| ==>
              CreateGrid(region, spacingKm).value[k].0 < region.maxLon
              && CreateGrid(region, spacingKm).value[k].1 < region.maxLat
  {
    var lonPoints := LonPoints(region, spacingKm);
    var latPoints := LatPoints(region, spacingKm);
    GridSize(region, spacingKm);
    var g := CreateGrid(region, spacingKm).value;
    forall k | 0 <= k < |g|
      ensures region.minLon <= g[k].0 && g[k].0 + SpacingDeg(spacingKm) <= region.maxLon
      ensures region.minLat <= g[k].1 && g[k].1 + SpacingDeg(spacingKm) <= region.maxLat
    {
      IndexSplit(k, lonPoints, latPoints);
      var i, j := k / latPoints, k % latPoints;
      PointAt(region, spacingKm, i, j);
      assert i * latPoints + j == k;
      LatticePointShortOfMax(region, spacingKm, i, j);
    }
  }

  /** Row-major order: each point strictly precedes every later one (longitude first, then latitude). */
  lemma RowMajorOrder(region: Rect, spacingKm: real)
    requires ValidInput(region, spacingKm)
    ensures CreateGrid(region, spacingKm).Ok?
    ensures forall k, k' :: 0 <= k < k' < |CreateGrid(region, spacingKm).value| ==>
              Precedes(CreateGrid(region, spacingKm).value[k], CreateGrid(region, spacingKm).value[k'])
  {
    CreateGridIsLattice(region, spacingKm);
    GridRowMajor(region.minLon, region.minLat, SpacingDeg(spacingKm),
                 LonPoints(region, spacingKm),
                 LatPoints(region, spacingKm));
  }

  /**
   For the same rectangle and spacing this grid is exactly the inclusive grid
   with its last longitude column dropped and the last latitude row of every
   other column dropped.
   */
  lemma IsTrimmedInclusive(region: Rect, spacingKm: real)
    requires ValidInput(region, spacingKm)
    ensures CreateGrid(region, spacingKm).Ok? && TempHumidityGrid.CreateGrid(region, spacingKm).Ok?
    ensures LonPoints(region, spacingKm) * (LatPoints(region, spacingKm) + 1)
            <= |TempHumidityGrid.CreateGrid(region, spacingKm).value|
    ensures CreateGrid(region, spacingKm).value
            == TrimColumns(TempHumidityGrid.CreateGrid(region, spacingKm).value,
                           LatPoints(region, spacingKm) + 1,
                           LonPoints(region, spacingKm),
                           LatPoints(region, spacingKm))
  {
    PointsAgree(region, spacingKm);
    CreateGridIsLattice(region, spacingKm);
    TempHumidityGrid.CreateGridIsLattice(region, spacingKm);
    GridTrim(region.minLon, region.minLat, SpacingDeg(spacingKm),
             LonPoints(region, spacingKm),
             LatPoints(region, spacingKm));
  }

  /**
   This grid is an ordered subsequence of the inclusive grid: Embed sends its
   positions, strictly increasingly, to positions of the inclusive grid that
   hold the same points.
   */
  lemma IsOrderedSubsequenceOfInclusive(region: Rect, spacingKm: real)
    requires ValidInput(region, spacingKm)
    ensures CreateGrid(region, spacingKm).Ok? && TempHumidityGrid.CreateGrid(region, spacingKm).Ok?
    ensures forall k :: 0 <= k < |CreateGrid(region, spacingKm).value| ==>
              Embed(k, LatPoints(region, spacingKm))
                < |TempHumidityGrid.CreateGrid(region, spacingKm).value|
              && CreateGrid(region, spacingKm).value[k]
                 == TempHumidityGrid.CreateGrid(region, spacingKm).value[Embed(k, LatPoints(region, spacingKm))]
    ensures forall k, k' :: 0 <= k < k' < |CreateGrid(region, spacingKm).value| ==>
              Embed(k, LatPoints(region, spacingKm))
                < Embed(k', LatPoints(region, spacingKm))
  {
    PointsAgree(region, spacingKm);
    CreateGridIsLattice(region, spacingKm);
    TempHumidityGrid.CreateGridIsLattice(region, spacingKm);
    GridEmbeds(region.minLon, region.minLat, SpacingDeg(spacingKm),
               LonPoints(region, spacingKm),
               LatPoints(region, spacingKm));
  }

  /**
   Outside ValidInput the order can fail: a negative spacing over an inverted
   rectangle steps downward, so the longitude drops from 2 to 1 along the lattice.
   */
  lemma InvertedDescends()
    ensures CreateGrid(Rect(2.0, 2.0, 0.0, 0.0), -111.0).Ok?
    ensures |CreateGrid(Rect(2.0, 2.0, 0.0, 0.0), -111.0).value| == 4
    ensures CreateGrid(Rect(2.0, 2.0, 0.0, 0.0), -111.0).value[0].0 == 2.0
    ensures CreateGrid(Rect(2.0, 2.0, 0.0, 0.0), -111.0).value[2].0 == 1.0
  {
    var r := Rect(2.0, 2.0, 0.0, 0.0);
    assert SpacingDeg(-111.0) == -1.0;
    assert LonPoints(r, -111.0) == 2;
    assert LatPoints(r, -111.0) == 2;
    GridPoint(2.0, 2.0, -1.0, 2, 2, 0, 0);
    GridPoint(2.0, 2.0, -1.0, 2, 2, 1, 0);
  }

  /** The Roswell rectangle at 10 km: 4 longitude steps and 2 latitude steps, so 4 x 2 = 8 points. */
  lemma RoswellGrid()
    ensures LonPoints(Roswell, 10.0) == 4
    ensures LatPoints(Roswell, 10.0) == 2
    ensures CreateGrid(Roswell, 10.0).Ok? && |CreateGrid(Roswell, 10.0).value| == 8
  {
    assert (Roswell.maxLon - Roswell.minLon) * KmPerDegree / 10.0 == 4.995;
    assert (Roswell.maxLat - Roswell.minLat) * KmPerDegree / 10.0 == 2.775;
  }
}
