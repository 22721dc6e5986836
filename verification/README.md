# Grid lattices of the methane-modelling scripts

The MethaneModeling thesis scripts sample satellite data over a rectangle around
Roswell, New Mexico. They sample it at the points of a regular lattice built by a
local function, `create_grid`. Everything else the scripts do happens in the Earth
Engine backend. The function exists in two versions that disagree:

- **Inclusive** (`HumidityAndTempDataAccessor.py`, module `TempHumidityGrid`):
  - converts the spacing to degrees, `spacing_deg = spacing_km / 111.0`;
  - takes `lon_points = int(extent / spacing_deg)` on each axis;
  - runs `range(lon_points + 1)` × `range(lat_points + 1)`.
  The far endpoint of an axis is kept whenever it falls on the lattice.
- **Exclusive** (`dataAccessor.py`, module `MethaneGrid`):
  - takes `lon_points = int(extent * 111 / spacing_km)`;
  - runs `range(lon_points)` × `range(lat_points)`, with each coordinate at
    `min + i * spacing_km / 111`.

Both versions emit points in row-major order: the outer loop is longitude and
the inner loop is latitude.

The model is organised as five modules:

- `Arith` holds a few facts about products that the solver does not find unaided.
- `Geo` holds the plain values:
  - a point as a `(real, real)` pair;
  - the rectangle `Rect`, given by its corners;
  - the kilometres-per-degree factor 111;
  - the builders' single failure in exact arithmetic, `ZeroDivision`;
  - two pieces of Python semantics: `PyInt`, which is `int()` on a float and truncates toward zero, and `RangeLen`, the number of values `range(n)` yields.
- `Lattice` is the shared nested-loop builder, written two ways:
  - the pure function `Grid`;
  - the loop-for-loop method `BuildGrid`.
  It also holds the facts about the lattice: closed form, row-major order, and dropping the last column and row.
- `TempHumidityGrid` and `MethaneGrid` each hold one `create_grid`, modelled as a total function from the corners and the spacing to `Result<seq<Point>>`, together with the properties of that variant.

The main result relates the two variants. In exact arithmetic they compute the
same step counts. So the exclusive grid is exactly the inclusive grid with its
last longitude column dropped and the last latitude row of every remaining
column dropped. That also makes it an ordered subsequence of the inclusive grid.

Coordinates are exact reals. Every claim about bounds and coordinates holds in
exact arithmetic, not under IEEE double rounding.

How the code treats unusual inputs:

- A spacing of 0 raises `ZeroDivisionError`; this is modelled as `Err(ZeroDivision)`. In exact arithmetic it is the only failure. Floating-point overflow and underflow add others, which are listed under "Left out".
- A negative spacing or an inverted rectangle is accepted without any error. `int()` truncates toward zero, and a negative `range` bound runs its loop zero times. `CreateGrid` models these inputs exactly as written.
- The properties below are stated for a well-formed rectangle and a positive spacing (`ValidInput`).

## Model

| member | source | states |
|---|---|---|
| Geo.PyInt | Desktop/ThesisFiles/HumidityAndTempDataAccessor.py:18-19 | `int()` of a float truncates toward zero: for x ≥ 0 the result n satisfies n ≤ x < n+1; for x < 0 it satisfies n-1 < x ≤ n, with n ≤ 0 |
| Geo.SpacingDeg | Desktop/ThesisFiles/HumidityAndTempDataAccessor.py:12 | spacing_deg is the spacing in kilometres divided by 111: spacing_deg·111 = spacing_km, and spacing_deg is positive exactly when spacing_km is |
| Geo.WholeSteps | Desktop/ThesisFiles/HumidityAndTempDataAccessor.py:18-19 | for a non-negative extent and a positive step, int(extent / step) = n is non-negative and n·step ≤ extent < (n+1)·step |
| Geo.RangeLen | Desktop/ThesisFiles/HumidityAndTempDataAccessor.py:22-23 | `range(n)` yields n values when n ≥ 0 and none when n ≤ 0 |
| Lattice.CoordSteps | Desktop/ThesisFiles/HumidityAndTempDataAccessor.py:24-25 | the loop-body coordinate min + i·step is min at index 0, and each further index adds exactly one step |
| Lattice.Column | Desktop/ThesisFiles/HumidityAndTempDataAccessor.py:23-26 | one pass of the inner loop has exactly nLat points, and the j-th is (lon, minLat + j·step) |
| Lattice.Grid | Desktop/ThesisFiles/HumidityAndTempDataAccessor.py:21-26 | the two nested loops produce exactly nLon·nLat points |
| Lattice.GridAt | Desktop/ThesisFiles/HumidityAndTempDataAccessor.py:22-26 | the point from outer index i and inner index j sits at position i·nLat + j and equals (minLon + i·step, minLat + j·step) |
| Lattice.GridPoint | Desktop/ThesisFiles/dataAccessor.py:23-27 | the same row-major position, stated one coordinate at a time |
| Lattice.GridClosedForm | Desktop/ThesisFiles/HumidityAndTempDataAccessor.py:22-26 | position k holds column k / nLat and row k % nLat, for every k |
| Lattice.GridRowMajor | Desktop/ThesisFiles/HumidityAndTempDataAccessor.py:22-25 | for a positive step, every point strictly precedes every later one: a smaller longitude, or the same longitude and a smaller latitude |
| Lattice.BuildGrid | Desktop/ThesisFiles/dataAccessor.py:22-27 | the nested `for` loops, with `append`, build exactly the lattice `Grid` with range(lonPoints) columns and range(latPoints) rows; a negative bound yields no iterations |
| Lattice.CoordWithin | Desktop/ThesisFiles/HumidityAndTempDataAccessor.py:18-25 | when n steps fit in [lo, hi], every step index from 0 to n lands in [lo, hi] |
| Lattice.CoordShortOfEnd | Desktop/ThesisFiles/dataAccessor.py:19-26 | when n steps fit in [lo, hi], every step index below n still has a full step of room before hi |
| Lattice.TrimColumns | Desktop/ThesisFiles/dataAccessor.py:23-26 | keeping the first `keep` rows of the first `cols` columns yields cols·keep points |
| Lattice.TrimColumnsAt | Desktop/ThesisFiles/dataAccessor.py:23-26 | row r of trimmed column c is row r of column c of the original lattice |
| Lattice.GridTrim | Desktop/ThesisFiles/dataAccessor.py:23-26 | the n×m lattice equals the (n+1)×(m+1) lattice with the last column and the last row of each column removed |
| Lattice.EmbedMonotone | Desktop/ThesisFiles/dataAccessor.py:23-26 | the map from n×m positions to (n+1)×(m+1) positions is strictly increasing |
| Lattice.GridCellMoves | Desktop/ThesisFiles/dataAccessor.py:23-26 | cell (i, j) of the n×m lattice holds the same point as cell (i, j) of the (n+1)×(m+1) lattice, at positions i·m+j and i·(m+1)+j |
| Lattice.GridEmbedAt | Desktop/ThesisFiles/dataAccessor.py:23-26 | the k-th point of the n×m lattice is the Embed(k)-th point of the (n+1)×(m+1) lattice |
| Lattice.GridEmbeds | Desktop/ThesisFiles/dataAccessor.py:23-26 | the n×m lattice is an ordered subsequence of the (n+1)×(m+1) lattice |
| TempHumidityGrid.CreateGrid | Desktop/ThesisFiles/HumidityAndTempDataAccessor.py:11-28 | it fails exactly when the spacing is 0; otherwise it returns range(lon_points+1)·range(lat_points+1) points |
| TempHumidityGrid.StepCount | Desktop/ThesisFiles/HumidityAndTempDataAccessor.py:12-19 | int(extent / spacing_deg) = n; for a non-negative extent and a positive spacing, n ≥ 0 and n·spacing_deg ≤ extent < (n+1)·spacing_deg, the number of whole spacings that fit |
| TempHumidityGrid.LonPoints | Desktop/ThesisFiles/HumidityAndTempDataAccessor.py:18 | for valid input, lon_points is the number of whole spacings across the width: n·spacing_deg ≤ max_lon − min_lon < (n+1)·spacing_deg |
| TempHumidityGrid.LatPoints | Desktop/ThesisFiles/HumidityAndTempDataAccessor.py:19 | for valid input, lat_points is the number of whole spacings across the height: n·spacing_deg ≤ max_lat − min_lat < (n+1)·spacing_deg |
| TempHumidityGrid.StepCountIsFloor | Desktop/ThesisFiles/HumidityAndTempDataAccessor.py:18-19 | for a non-negative extent and a positive spacing, the truncation is a floor: the step count is floor(extent / spacing_deg) |
| TempHumidityGrid.CreateGridIsLattice | Desktop/ThesisFiles/HumidityAndTempDataAccessor.py:11-28 | for valid input the builder succeeds with the (lon_points+1)×(lat_points+1) lattice stepping spacing_deg from the minimum corner |
| TempHumidityGrid.GridSize | Desktop/ThesisFiles/HumidityAndTempDataAccessor.py:21-26 | the grid has exactly (lon_points+1)·(lat_points+1) points |
| TempHumidityGrid.PointAt | Desktop/ThesisFiles/HumidityAndTempDataAccessor.py:22-26 | the point at position i·(lat_points+1)+j is (min_lon + i·spacing_deg, min_lat + j·spacing_deg), for 0 ≤ i ≤ lon_points and 0 ≤ j ≤ lat_points |
| TempHumidityGrid.StartsAtMinCorner | Desktop/ThesisFiles/HumidityAndTempDataAccessor.py:18-25 | the grid is never empty, and its first point is (min_lon, min_lat), even for a rectangle narrower than one spacing |
| TempHumidityGrid.LatticePointWithin | Desktop/ThesisFiles/HumidityAndTempDataAccessor.py:18-25 | lattice indices within the step counts give points inside the closed rectangle |
| TempHumidityGrid.WithinRegion | Desktop/ThesisFiles/HumidityAndTempDataAccessor.py:18-25 | every point lies in the closed rectangle |
| TempHumidityGrid.RowMajorOrder | Desktop/ThesisFiles/HumidityAndTempDataAccessor.py:22-25 | each point strictly precedes every later one; longitudes never decrease; within one longitude, latitudes strictly increase |
| TempHumidityGrid.InvertedCornerOutside | Desktop/ThesisFiles/HumidityAndTempDataAccessor.py:18-25 | for an inverted rectangle 0.5° wide at 111 km, `int()` truncates the negative step count to 0, so the grid is the minimum corner alone, and that corner lies outside the closed rectangle |
| TempHumidityGrid.InvertedDescends | Desktop/ThesisFiles/HumidityAndTempDataAccessor.py:12-25 | for the inverted rectangle (1,1)–(0,0) at −111 km, the grid has 4 points and longitude falls from 1 to 0 between positions 0 and 2 |
| TempHumidityGrid.RoswellGrid | Desktop/ThesisFiles/HumidityAndTempDataAccessor.py:8-30 | the Roswell rectangle at 10 km gives step counts 4 and 2, so 15 points |
| MethaneGrid.CreateGrid | Desktop/ThesisFiles/dataAccessor.py:11-29 | it fails exactly when the spacing is 0; otherwise it returns range(lon_points)·range(lat_points) points |
| MethaneGrid.QuotientsAgree | Desktop/ThesisFiles/dataAccessor.py:19-20 | extent·111 / spacing_km and extent / (spacing_km/111) are the same real number |
| MethaneGrid.StepCountsAgree | Desktop/ThesisFiles/dataAccessor.py:19-20 | for every extent and non-zero spacing, this step count equals the inclusive variant's |
| MethaneGrid.StepCount | Desktop/ThesisFiles/dataAccessor.py:19-20 | int(extent·111 / spacing_km) = n; for a non-negative extent and a positive spacing, n ≥ 0 and n·spacing_deg ≤ extent < (n+1)·spacing_deg |
| MethaneGrid.LonPoints | Desktop/ThesisFiles/dataAccessor.py:19 | for valid input, lon_points is the number of whole spacings across the width: n·spacing_deg ≤ max_lon − min_lon < (n+1)·spacing_deg |
| MethaneGrid.LatPoints | Desktop/ThesisFiles/dataAccessor.py:20 | for valid input, lat_points is the number of whole spacings across the height: n·spacing_deg ≤ max_lat − min_lat < (n+1)·spacing_deg |
| MethaneGrid.PointsAgree | Desktop/ThesisFiles/dataAccessor.py:19-20 | for every rectangle and non-zero spacing, lon_points and lat_points equal the inclusive script's |
| MethaneGrid.StepCountIsFloor | Desktop/ThesisFiles/dataAccessor.py:19-20 | for a non-negative extent and a positive spacing, the step count is floor(extent·111 / spacing_km) |
| MethaneGrid.CreateGridIsLattice | Desktop/ThesisFiles/dataAccessor.py:11-29 | for valid input the builder succeeds with the lon_points×lat_points lattice stepping spacing_deg from the minimum corner |
| MethaneGrid.GridSize | Desktop/ThesisFiles/dataAccessor.py:22-27 | the grid has exactly lon_points·lat_points points, with no +1 |
| MethaneGrid.StepCountZeroWhenNarrow | Desktop/ThesisFiles/dataAccessor.py:19-20 | a step count is 0 if and only if the extent is less than one spacing |
| MethaneGrid.EmptyExactlyWhenNarrow | Desktop/ThesisFiles/dataAccessor.py:19-24 | the grid is empty if and only if some step count is 0, which holds if and only if some extent is less than one spacing; when it is not empty, the first point is the minimum corner |
| MethaneGrid.PointAt | Desktop/ThesisFiles/dataAccessor.py:23-27 | the point at position i·lat_points+j is (min_lon + i·spacing_km/111, min_lat + j·spacing_km/111) |
| MethaneGrid.LatticePointShortOfMax | Desktop/ThesisFiles/dataAccessor.py:19-26 | lattice indices below the step counts give coordinates at least one spacing short of the maximum corner |
| MethaneGrid.ShortOfMax | Desktop/ThesisFiles/dataAccessor.py:19-26 | every point satisfies min ≤ coordinate and coordinate + spacing_deg ≤ max on both axes, so it lies strictly below the maximum edges |
| MethaneGrid.RowMajorOrder | Desktop/ThesisFiles/dataAccessor.py:23-26 | each point strictly precedes every later one in row-major order |
| MethaneGrid.IsTrimmedInclusive | Desktop/ThesisFiles/dataAccessor.py:23-26 | this grid equals the inclusive grid for the same input with its last longitude column and last latitude row removed |
| MethaneGrid.IsOrderedSubsequenceOfInclusive | Desktop/ThesisFiles/dataAccessor.py:23-26 | this grid is an ordered subsequence of the inclusive grid: the positions map strictly increasingly onto equal points |
| MethaneGrid.InvertedDescends | Desktop/ThesisFiles/dataAccessor.py:19-26 | for the inverted rectangle (2,2)–(0,0) at −111 km, the grid has 4 points and longitude falls from 2 to 1 between positions 0 and 2 |
| MethaneGrid.RoswellGrid | Desktop/ThesisFiles/dataAccessor.py:8-32 | the Roswell rectangle at 10 km gives step counts 4 and 2, so 4·2 = 8 points |

## Left out

- Earth Engine authentication and initialisation (`ee.Authenticate`, `ee.Initialize`): these are remote-service session state.
- `region.bounds().coordinates().get(0).getInfo()`: a remote call. The corners are parameters of the model, so the assumption that ring vertices 0 and 2 are opposite corners belongs to the backend.
- `ee.Geometry.Point`, `ee.Feature`, `ee.FeatureCollection` and `.buffer(7000)`: geometry objects from a library whose code is not part of this model. A point is a plain (longitude, latitude) pair, and the grid is the sequence of those pairs in emission order.
- The exclusive variant's unused `spacing_m = spacing_km * 1000`: it affects nothing.
- The backend pipeline is not modelled: `ee.Filter.neq` / `inList` / `date`, `filterDate`, `.mean()`, `unmask(-9999)`, `reduceRegions`, `ee.Join.inner` and `Export.table.toDrive`. Its semantics live in Earth Engine.
- The Kelvin-to-Celsius subtraction in HumidityAndTempDataAccessor.py: remote floating-point raster arithmetic.
- The commented-out date-cleaning block in HumidityAndTempDataAccessor.py: dead code.
- Desktop/ThesisFiles/test_regression.py: pandas CSV input, scikit-learn regression and plotting.
- Floating-point overflow and underflow: a spacing so small that extent / spacing_deg overflows to `inf` makes `int()` raise OverflowError in both scripts. A non-zero subnormal spacing such as 5e-324 underflows `spacing_km / 111.0` to 0.0, so the inclusive script raises ZeroDivisionError. Over exact reals, `CreateGrid` returns `Ok` for both inputs.
- Floating-point rounding: coordinates and step counts are exact reals. The float division by 111 and `int()` at an exact lattice boundary may round differently in the scripts.
- Determinism is not stated separately: each builder is a pure function of its inputs.
- TempHumidityGrid.StepCount, MethaneGrid.StepCount, TempHumidityGrid.StepCountIsFloor, MethaneGrid.StepCountIsFloor: these state the floor and the spacing bounds only for a non-negative extent and a positive spacing. For other inputs the count is still computed by `PyInt`, whose contract covers truncation toward zero on both signs.
- TempHumidityGrid.WithinRegion, MethaneGrid.ShortOfMax, TempHumidityGrid.RowMajorOrder, MethaneGrid.RowMajorOrder: these are stated under `ValidInput`, meaning a rectangle with min ≤ max and a positive spacing. The scripts' only call site meets this: it passes the corners of `region.bounds()` and `spacing_km=10` (HumidityAndTempDataAccessor.py:30, dataAccessor.py:32). Outside `ValidInput`, the claims hold for some inputs and fail for others:
  - Negative spacing, well-formed rectangle: both step counts truncate to at most 0. The exclusive grid is empty. The inclusive grid is empty or the minimum corner alone. The bound and order claims all hold.
  - Positive spacing, inverted rectangle: the exclusive grid is empty. The inclusive grid still keeps row-major order. Its bound can fail: with a rectangle less than one spacing wide, the grid is the minimum corner alone, and that corner lies outside the closed rectangle (TempHumidityGrid.InvertedCornerOutside).
  - Negative spacing, inverted rectangle: the lattice steps downward from the minimum corner. Rect(1,1,0,0) at −111 km gives the inclusive grid (1,1), (1,0), (0,1), (0,0) (TempHumidityGrid.InvertedDescends). Rect(2,2,0,0) at −111 km gives the exclusive grid (2,2), (2,1), (1,2), (1,1) (MethaneGrid.InvertedDescends). Both break row-major order.
