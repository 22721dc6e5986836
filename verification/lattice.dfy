/**
 The nested-loop lattice both `create_grid` variants build: for every
 longitude index i (outer loop) and every latitude index j (inner loop) the
 point (minLon + i*step, minLat + j*step) is appended, so the points come out
 in row-major order with longitude as the major key. The two variants differ
 only in how many indices each loop runs over; that choice is made by their
 own modules, and everything about the lattice itself is proved here once.
 */
module Lattice {
  import opened Geo
  import opened Arith

  /** The coordinate reached after i steps of size `step` from `lo`: lo + i*step. */
  function Coord(lo: real, step: real, i: int): real {
    lo + i as real * step
  }

  /**
   The coordinates the loop bodies compute form an arithmetic progression:
   index 0 is the minimum itself and each further index adds one step.
   */
  lemma CoordSteps(lo: real, step: real, i: int)
    ensures Coord(lo, step, 0) == lo
    ensures Coord(lo, step, i + 1) == Coord(lo, step, i) + step
  {
  }

  /** Between 0 and n steps of a positive step, where n steps fit in [lo, hi], stay within [lo, hi]. */
  lemma CoordWithin(lo: real, hi: real, step: real, n: int, i: int)
    requires 0 <= i <= n && 0.0 < step
    requires n as real * step <= hi - lo
    ensures lo <= Coord(lo, step, i) <= hi
  {
    assert 0.0 <= i as real * step <= n as real * step;
  }

  /** Below n steps, where n steps fit in [lo, hi], one more step still stays within [lo, hi]. */
  lemma CoordShortOfEnd(lo: real, hi: real, step: real, n: int, i: int)
    requires 0 <= i < n && 0.0 < step
    requires n as real * step <= hi - lo
    ensures lo <= Coord(lo, step, i)
    ensures Coord(lo, step, i) + step <= hi
  {
    CoordWithin(lo, hi, step, n, i + 1);
    assert (i + 1) as real * step == i as real * step + step;
  }

  /** One pass of the inner loop: `nLat` points at longitude `lon`, latitudes minLat, minLat+step, ... */
  function Column(lon: real, minLat: real, step: real, nLat: nat): (c: seq<Point>)
    ensures |c| == nLat
    ensures forall j :: 0 <= j < nLat ==> c[j] == (lon, Coord(minLat, step, j))
  {
    if nLat == 0 then []
    else Column(lon, minLat, step, nLat - 1) + [(lon, Coord(minLat, step, nLat - 1))]
  }

  /** Both loops: one column per longitude index in range(nLon), appended in order. */
  function Grid(minLon: real, minLat: real, step: real, nLon: nat, nLat: nat): (g: seq<Point>)
    ensures |g| == nLon * nLat
  {
    if nLon == 0 then []
    else
      var rest := Grid(minLon, minLat, step, nLon - 1, nLat);
      assert |rest| + nLat == nLon * nLat by { MulPred(nLon, nLat); }
      rest + Column(Coord(minLon, step, nLon - 1), minLat, step, nLat)
  }

  /** Strict row-major precedence: smaller longitude, or the same longitude and smaller latitude. */
  predicate Precedes(p: Point, q: Point) {
    p.0 < q.0 || (p.0 == q.0 && p.1 < q.1)
  }

  // ---------------------------------------------------------------------
  // Index arithmetic

  /** The row-major index i*m + j of a column-i, row-j point is in range and decodes back to (i, j). */
  lemma {:induction false} IndexDecode(i: nat, j: nat, n: nat, m: nat)
    requires i < n && j < m
    ensures i * m + j < n * m
    ensures (i * m + j) / m == i && (i * m + j) % m == j
  {
    MulMonotone(i, n - 1, m);
    MulPred(n, m);
    var k := i * m + j;
    var q, r := k / m, k % m;
    assert k == q * m + r;
    if q < i {
      MulMonotone(q + 1, i, m);
      assert false;
    } else if q > i {
      MulMonotone(i + 1, q, m);
      assert false;
    }
  }

  /** Every index below n*m is the row-major index of some column i < n and row j < m. */
  lemma {:induction false} IndexSplit(k: int, n: nat, m: nat)
    requires 0 <= k < n * m
    ensures 0 < m && 0 <= k / m < n && 0 <= k % m < m
    ensures k == (k / m) * m + k % m
  {
    if k / m >= n {
      MulMonotone(n, k / m, m);
      assert false;
    }
  }

  /** Later positions are in the same or a later column, and further down when in the same column. */
  lemma IndexOrder(k: int, k': int, m: nat)
    requires 0 <= k < k' && 0 < m
    ensures k / m <= k' / m
    ensures k / m == k' / m ==> k % m < k' % m
  {
    var i, j, i', j' := k / m, k % m, k' / m, k' % m;
    if i' < i {
      MulMonotone(i' + 1, i, m);
      assert false;
    }
  }

  // ---------------------------------------------------------------------
  // The lattice's shape

  /** The point the loops emit for indices (i, j) sits at position i*nLat + j. */
  lemma {:induction false} GridAt(minLon: real, minLat: real, step: real, nLon: nat, nLat: nat, i: nat, j: nat)
    requires i < nLon && j < nLat
    ensures i * nLat + j < |Grid(minLon, minLat, step, nLon, nLat)|
    ensures Grid(minLon, minLat, step, nLon, nLat)[i * nLat + j]
            == (Coord(minLon, step, i), Coord(minLat, step, j))
  {
    IndexDecode(i, j, nLon, nLat);
    var rest := Grid(minLon, minLat, step, nLon - 1, nLat);
    var col := Column(Coord(minLon, step, nLon - 1), minLat, step, nLat);
    assert Grid(minLon, minLat, step, nLon, nLat) == rest + col;
    if i < nLon - 1 {
      GridAt(minLon, minLat, step, nLon - 1, nLat, i, j);
    } else {
      assert |rest| == i * nLat;
      assert (rest + col)[i * nLat + j] == col[j];
    }
  }

  /**
   GridAt one coordinate at a time. Callers use this form: an equation between
   pairs is far costlier for the solver than one per coordinate.
   */
  lemma GridPoint(minLon: real, minLat: real, step: real, nLon: nat, nLat: nat, i: nat, j: nat)
    requires i < nLon && j < nLat
    ensures i * nLat + j < |Grid(minLon, minLat, step, nLon, nLat)|
    ensures Grid(minLon, minLat, step, nLon, nLat)[i * nLat + j].0 == Coord(minLon, step, i)
    ensures Grid(minLon, minLat, step, nLon, nLat)[i * nLat + j].1 == Coord(minLat, step, j)
  {
    GridAt(minLon, minLat, step, nLon, nLat, i, j);
  }

  /** Closed form: position k holds column k / nLat, row k % nLat. */
  lemma GridClosedForm(minLon: real, minLat: real, step: real, nLon: nat, nLat: nat)
    ensures forall k :: 0 <= k < |Grid(minLon, minLat, step, nLon, nLat)| ==>
              Grid(minLon, minLat, step, nLon, nLat)[k]
              == (Coord(minLon, step, k / nLat), Coord(minLat, step, k % nLat))
  {
    forall k | 0 <= k < |Grid(minLon, minLat, step, nLon, nLat)|
      ensures Grid(minLon, minLat, step, nLon, nLat)[k]
              == (Coord(minLon, step, k / nLat), Coord(minLat, step, k % nLat))
    {
      IndexSplit(k, nLon, nLat);
      GridAt(minLon, minLat, step, nLon, nLat, k / nLat, k % nLat);
    }
  }

  /** With a positive step, more steps reach strictly further. */
  lemma CoordStrict(lo: real, step: real, a: int, b: int)
    requires a < b && 0.0 < step
    ensures Coord(lo, step, a) < Coord(lo, step, b)
  {
    assert (b - a) as real * step > 0.0;
  }

  /** Position k of the lattice precedes position k' whenever k < k'. */
  lemma {:induction false} GridPrecedesAt(minLon: real, minLat: real, step: real, nLon: nat, nLat: nat, k: int, k': int)
    requires 0.0 < step
    requires 0 <= k < k' < nLon * nLat
    ensures Precedes(Grid(minLon, minLat, step, nLon, nLat)[k], Grid(minLon, minLat, step, nLon, nLat)[k'])
  {
    IndexSplit(k, nLon, nLat);
    IndexSplit(k', nLon, nLat);
    var i, j, i', j' := k / nLat, k % nLat, k' / nLat, k' % nLat;
    GridAt(minLon, minLat, step, nLon, nLat, i, j);
    GridAt(minLon, minLat, step, nLon, nLat, i', j');
    IndexOrder(k, k', nLat);
    if i < i' {
      CoordStrict(minLon, step, i, i');
    } else {
      CoordStrict(minLat, step, j, j');
    }
  }

  /**
   With a positive step the lattice is strictly increasing in row-major order:
   each point precedes every later one, so no point repeats.
   */
  lemma GridRowMajor(minLon: real, minLat: real, step: real, nLon: nat, nLat: nat)
    requires 0.0 < step
    ensures forall k, k' :: 0 <= k < k' < |Grid(minLon, minLat, step, nLon, nLat)| ==>
              Precedes(Grid(minLon, minLat, step, nLon, nLat)[k], Grid(minLon, minLat, step, nLon, nLat)[k'])
  {
    forall k, k' | 0 <= k < k' < |Grid(minLon, minLat, step, nLon, nLat)|
      ensures Precedes(Grid(minLon, minLat, step, nLon, nLat)[k], Grid(minLon, minLat, step, nLon, nLat)[k'])
    {
      GridPrecedesAt(minLon, minLat, step, nLon, nLat, k, k');
    }
  }

  // ---------------------------------------------------------------------
  // The loops themselves

  /** One more inner iteration appends one point to the column. */
  lemma ColumnSnoc(lon: real, minLat: real, step: real, j: nat)
    ensures Column(lon, minLat, step, j + 1) == Column(lon, minLat, step, j) + [(lon, Coord(minLat, step, j))]
  {
  }

  /** One more outer iteration appends one column to the lattice. */
  lemma GridSnoc(minLon: real, minLat: real, step: real, i: nat, nLat: nat)
    ensures Grid(minLon, minLat, step, i + 1, nLat)
            == Grid(minLon, minLat, step, i, nLat) + Column(Coord(minLon, step, i), minLat, step, nLat)
  {
  }

  /**
   The two nested loops as written: `for i in range(lonPoints): for j in
   range(latPoints): points.append(...)`. A negative bound runs its loop zero times.
   */
  method BuildGrid(minLon: real, minLat: real, step: real, lonPoints: int, latPoints: int)
    returns (points: seq<Point>)
    ensures |points| == RangeLen(lonPoints) * RangeLen(latPoints)
    ensures points == Grid(minLon, minLat, step, RangeLen(lonPoints), RangeLen(latPoints))
  {
    points := [];
    var nLat := RangeLen(latPoints);
    var i := 0;
    while i < lonPoints
      invariant 0 <= i <= RangeLen(lonPoints)
      invariant points == Grid(minLon, minLat, step, i, nLat)
    {
      ghost var before := points;
      var j := 0;
      while j < latPoints
        invariant 0 <= j <= nLat
        invariant points == before + Column(Coord(minLon, step, i), minLat, step, j)
      {
        var lon := minLon + i as real * step;
        var lat := minLat + j as real * step;
        ColumnSnoc(Coord(minLon, step, i), minLat, step, j);
        points := points + [(lon, lat)];
        j := j + 1;
      }
      GridSnoc(minLon, minLat, step, i, nLat);
      i := i + 1;
    }
  }

  // ---------------------------------------------------------------------
  // Dropping the last row and column

  /**
   The first `keep` points of each of the first `cols` columns of a lattice
   whose columns hold `height` points each, in their original order.
   */
  function TrimColumns(g: seq<Point>, height: nat, cols: nat, keep: nat): (t: seq<Point>)
    requires keep <= height && cols * height <= |g|
    ensures |t| == cols * keep
  {
    if cols == 0 then []
    else
      MulPred(cols, height);
      MulPred(cols, keep);
      TrimColumns(g, height, cols - 1, keep) + g[(cols - 1) * height .. (cols - 1) * height + keep]
  }

  /** Row r of trimmed column c is row r of column c of the untrimmed lattice. */
  lemma {:induction false} TrimColumnsAt(g: seq<Point>, height: nat, cols: nat, keep: nat, c: nat, r: nat)
    requires keep <= height && cols * height <= |g|
    requires c < cols && r < keep
    ensures c * keep + r < |TrimColumns(g, height, cols, keep)|
    ensures c * height + r < |g|
    ensures TrimColumns(g, height, cols, keep)[c * keep + r] == g[c * height + r]
  {
    IndexDecode(c, r, cols, keep);
    IndexDecode(c, r, cols, height);
    MulPred(cols, height);
    MulPred(cols, keep);
    var rest := TrimColumns(g, height, cols - 1, keep);
    var slice := g[(cols - 1) * height .. (cols - 1) * height + keep];
    assert TrimColumns(g, height, cols, keep) == rest + slice;
    if c < cols - 1 {
      TrimColumnsAt(g, height, cols - 1, keep, c, r);
    } else {
      assert |rest| == c * keep;
      assert (rest + slice)[c * keep + r] == slice[r];
    }
  }

  /**
   The n-by-m lattice is exactly the (n+1)-by-(m+1) lattice with its last
   column dropped and the last row of every remaining column dropped.
   */
  lemma GridTrim(minLon: real, minLat: real, step: real, n: nat, m: nat)
    ensures n * (m + 1) <= |Grid(minLon, minLat, step, n + 1, m + 1)|
    ensures Grid(minLon, minLat, step, n, m)
            == TrimColumns(Grid(minLon, minLat, step, n + 1, m + 1), m + 1, n, m)
  {
    var small := Grid(minLon, minLat, step, n, m);
    var big := Grid(minLon, minLat, step, n + 1, m + 1);
    MulMonotone(n, n + 1, m + 1);
    var t := TrimColumns(big, m + 1, n, m);
    forall k | 0 <= k < |small|
      ensures small[k] == t[k]
    {
      IndexSplit(k, n, m);
      var i, j := k / m, k % m;
      GridAt(minLon, minLat, step, n, m, i, j);
      TrimColumnsAt(big, m + 1, n, m, i, j);
      GridAt(minLon, minLat, step, n + 1, m + 1, i, j);
    }
  }

  /** Where the k-th point of the n-by-m lattice sits in the (n+1)-by-(m+1) lattice. */
  function Embed(k: nat, m: nat): nat {
    if m == 0 then 0 else (k / m) * (m + 1) + k % m
  }

  /** Embed is strictly increasing on the positions of an n-by-m lattice. */
  lemma EmbedMonotone(k: nat, k': nat, m: nat)
    requires k < k' && 0 < m
    ensures Embed(k, m) < Embed(k', m)
  {
    IndexOrder(k, k', m);
    var i, i' := k / m, k' / m;
    if i < i' {
      MulMonotone(i + 1, i', m + 1);
    }
  }

  /** The k-th point of the n-by-m lattice is the Embed(k)-th point of the (n+1)-by-(m+1) lattice. */
  lemma GridEmbedAt(minLon: real, minLat: real, step: real, n: nat, m: nat, k: int)
    requires 0 <= k < n * m
    ensures Embed(k, m) < |Grid(minLon, minLat, step, n + 1, m + 1)|
    ensures Grid(minLon, minLat, step, n, m)[k] == Grid(minLon, minLat, step, n + 1, m + 1)[Embed(k, m)]
  {
    IndexSplit(k, n, m);
    GridCellMoves(minLon, minLat, step, n, m, k / m, k % m);
  }

  /** Cell (i, j) of the n-by-m lattice holds the same point as cell (i, j) of the (n+1)-by-(m+1) lattice. */
  lemma GridCellMoves(minLon: real, minLat: real, step: real, n: nat, m: nat, i: nat, j: nat)
    requires i < n && j < m
    ensures i * m + j < |Grid(minLon, minLat, step, n, m)|
    ensures i * (m + 1) + j < |Grid(minLon, minLat, step, n + 1, m + 1)|
    ensures Grid(minLon, minLat, step, n, m)[i * m + j]
            == Grid(minLon, minLat, step, n + 1, m + 1)[i * (m + 1) + j]
  {
    GridPoint(minLon, minLat, step, n, m, i, j);
    GridPoint(minLon, minLat, step, n + 1, m + 1, i, j);
  }

  /**
   The n-by-m lattice is an ordered subsequence of the (n+1)-by-(m+1) one:
   Embed maps its positions strictly increasingly onto equal points.
   */
  lemma GridEmbeds(minLon: real, minLat: real, step: real, n: nat, m: nat)
    ensures forall k :: 0 <= k < |Grid(minLon, minLat, step, n, m)| ==>
              Embed(k, m) < |Grid(minLon, minLat, step, n + 1, m + 1)|
              && Grid(minLon, minLat, step, n, m)[k] == Grid(minLon, minLat, step, n + 1, m + 1)[Embed(k, m)]
    ensures forall k, k' :: 0 <= k < k' < |Grid(minLon, minLat, step, n, m)| ==> Embed(k, m) < Embed(k', m)
  {
    forall k | 0 <= k < |Grid(minLon, minLat, step, n, m)|
      ensures Embed(k, m) < |Grid(minLon, minLat, step, n + 1, m + 1)|
              && Grid(minLon, minLat, step, n, m)[k] == Grid(minLon, minLat, step, n + 1, m + 1)[Embed(k, m)]
    {
      GridEmbedAt(minLon, minLat, step, n, m, k);
    }
    forall k, k' | 0 <= k < k' < |Grid(minLon, minLat, step, n, m)|
      ensures Embed(k, m) < Embed(k', m)
    {
      IndexSplit(k', n, m);
      EmbedMonotone(k, k', m);
    }
  }
}
