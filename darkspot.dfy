/** The dark-spot search over one window of radiance samples: masking no-data,
    the exclusion radius in pixels, and the loop that repeatedly takes the
    lowest unmasked sample and masks the square around it.

    The sample grid is a value; the working mask is a 2-D boolean array
    (true = masked) that the search allocates for itself and updates in place.
 */
module DarkSpot {
  import opened DarkSpotSpec

  datatype Option<T> = None | Some(value: T)

  /** A result record: where the spot is, and the sample found there. */
  datatype DarkSpot = DarkSpot(lat: real, lon: real, value: real)

  /** The rows and columns a suppression touches: [rowMin, rowMax) x [colMin, colMax). */
  datatype Block = Block(rowMin: int, rowMax: int, colMin: int, colMax: int)

  /** Conversion of a real to an integer by dropping its fraction (towards zero). */
  function TruncToInt(x: real): (n: int)
    ensures x >= 0.0 ==> n as real <= x < n as real + 1.0
    ensures x < 0.0 ==> n as real - 1.0 < x <= n as real
  {
    if x >= 0.0 then x.Floor else -((-x).Floor)
  }

  /** The exclusion radius in pixels: a quarter of the search radius, at
      111 km per degree, divided by the pixel size in degrees, truncated and
      raised to at least one pixel. A zero pixel size is a division by zero,
      which the search reports as finding nothing. */
  function MaskRadius(searchKm: real, pixelResDeg: real): (r: Option<nat>)
    ensures r.None? <==> pixelResDeg == 0.0
    ensures r.Some? ==> r.value >= 1
    ensures r.Some? && (searchKm / 4.0 / 111.0) / pixelResDeg >= 1.0 ==>
      r.value as real <= (searchKm / 4.0 / 111.0) / pixelResDeg < r.value as real + 1.0
    ensures r.Some? && (searchKm / 4.0 / 111.0) / pixelResDeg < 1.0 ==> r.value == 1
  {
    if pixelResDeg == 0.0 then None
    else
      var separationDeg := (searchKm / 4.0) / 111.0;
      var px := TruncToInt(separationDeg / pixelResDeg);
      Some(if px < 1 then 1 else px)
  }

  /** The square of half-width `radius` around (row, col), clipped to a grid of
      `rows` x `cols`. */
  function ClippedBlock(row: nat, col: nat, radius: nat, rows: nat, cols: nat): (b: Block)
    requires row < rows && col < cols
    ensures 0 <= b.rowMin <= b.rowMax <= rows && 0 <= b.colMin <= b.colMax <= cols
    ensures forall r, c :: 0 <= r < rows && 0 <= c < cols ==>
      ((b.rowMin <= r < b.rowMax && b.colMin <= c < b.colMax) <==> Chebyshev(row, col, r, c) <= radius)
  {
    Block(if row - radius < 0 then 0 else row - radius,
          if rows < row + radius + 1 then rows else row + radius + 1,
          if col - radius < 0 then 0 else col - radius,
          if cols < col + radius + 1 then cols else col + radius + 1)
  }

  /** Masks every cell of the clipped square of half-width `radius` around
      (row, col); no other cell of the mask changes. */
  method MaskSquare(mask: array2<bool>, row: nat, col: nat, radius: nat)
    requires row < mask.Length0 && col < mask.Length1
    modifies mask
    ensures forall r, c :: 0 <= r < mask.Length0 && 0 <= c < mask.Length1 ==>
      mask[r, c] == (old(mask[r, c]) || Chebyshev(row, col, r, c) <= radius)
  {
    var b := ClippedBlock(row, col, radius, mask.Length0, mask.Length1);
    var i := b.rowMin;
    while i < b.rowMax
      invariant b.rowMin <= i <= b.rowMax
      invariant forall r, c :: 0 <= r < mask.Length0 && 0 <= c < mask.Length1 ==>
        mask[r, c] == (old(mask[r, c]) || (b.rowMin <= r < i && b.colMin <= c < b.colMax))
    {
      var j := b.colMin;
      while j < b.colMax
        invariant b.colMin <= j <= b.colMax
        invariant forall r, c :: 0 <= r < mask.Length0 && 0 <= c < mask.Length1 ==>
          mask[r, c] == (old(mask[r, c]) || (b.colMin <= c < b.colMax && (b.rowMin <= r < i || (r == i && c < j))))
      {
        mask[i, j] := true;
        j := j + 1;
      }
      i := i + 1;
    }
  }

  /** Counts the unmasked cells; the count is zero exactly when every cell is masked. */
  method CountUnmasked(mask: array2<bool>) returns (n: nat)
    ensures n == 0 <==> forall r, c :: 0 <= r < mask.Length0 && 0 <= c < mask.Length1 ==> mask[r, c]
  {
    n := 0;
    var i := 0;
    while i < mask.Length0
      invariant 0 <= i <= mask.Length0
      invariant n == 0 <==> forall r, c :: 0 <= r < i && 0 <= c < mask.Length1 ==> mask[r, c]
    {
      var j := 0;
      while j < mask.Length1
        invariant 0 <= j <= mask.Length1
        invariant n == 0 <==> forall r, c :: 0 <= c < mask.Length1 && (r < i || (r == i && c < j)) && 0 <= r ==> mask[r, c]
      {
        if !mask[i, j] {
          n := n + 1;
        }
        j := j + 1;
      }
      i := i + 1;
    }
  }

  /** Finds the least unmasked sample, scanning row by row so that of several
      equal least samples the first in row-major order is returned. */
  method ArgMinUnmasked(grid: Grid, mask: array2<bool>) returns (row: nat, col: nat)
    requires Rectangular(grid) && mask.Length0 == |grid| && mask.Length1 == Cols(grid)
    requires exists r, c :: 0 <= r < mask.Length0 && 0 <= c < mask.Length1 && !mask[r, c]
    ensures row < mask.Length0 && col < mask.Length1 && !mask[row, col]
    ensures forall r, c :: 0 <= r < mask.Length0 && 0 <= c < mask.Length1 && !mask[r, c] ==>
      grid[row][col] <= grid[r][c] && (RowMajorBefore(r, c, row, col) ==> grid[row][col] < grid[r][c])
  {
    var found := false;
    row, col := 0, 0;
    var i := 0;
    while i < mask.Length0
      invariant 0 <= i <= mask.Length0
      invariant found ==> row < i && col < mask.Length1 && !mask[row, col]
      invariant !found ==> forall r, c :: 0 <= r < i && 0 <= c < mask.Length1 ==> mask[r, c]
      invariant found ==> forall r, c :: 0 <= r < i && 0 <= c < mask.Length1 && !mask[r, c] ==>
        grid[row][col] <= grid[r][c] && (RowMajorBefore(r, c, row, col) ==> grid[row][col] < grid[r][c])
    {
      var j := 0;
      while j < mask.Length1
        invariant 0 <= j <= mask.Length1
        invariant found ==> RowMajorBefore(row, col, i, j) && col < mask.Length1 && !mask[row, col]
        invariant !found ==> forall r, c :: 0 <= r && 0 <= c < mask.Length1 && RowMajorBefore(r, c, i, j) ==> mask[r, c]
        invariant found ==> forall r, c :: 0 <= r && 0 <= c < mask.Length1 && RowMajorBefore(r, c, i, j) && !mask[r, c] ==>
          grid[row][col] <= grid[r][c] && (RowMajorBefore(r, c, row, col) ==> grid[row][col] < grid[r][c])
      {
        if !mask[i, j] && (!found || grid[i][j] < grid[row][col]) {
          row, col, found := i, j, true;
        }
        j := j + 1;
      }
      i := i + 1;
    }
  }

  /** The least unmasked sample, under a mask that marks exactly the cells a
      history of picks leaves unselectable, is the next pick of the run. */
  lemma UnmaskedMinIsFirstMin(grid: Grid, mask: array2<bool>, prior: seq<Pick>, radius: nat, row: nat, col: nat)
    requires Rectangular(grid) && mask.Length0 == |grid| && mask.Length1 == Cols(grid)
    requires forall r, c :: 0 <= r < mask.Length0 && 0 <= c < mask.Length1 ==>
      (mask[r, c] <==> !Free(grid, prior, radius, r, c))
    requires row < mask.Length0 && col < mask.Length1 && !mask[row, col]
    requires forall r, c :: 0 <= r < mask.Length0 && 0 <= c < mask.Length1 && !mask[r, c] ==>
      grid[row][col] <= grid[r][c] && (RowMajorBefore(r, c, row, col) ==> grid[row][col] < grid[r][c])
    ensures IsFirstMin(grid, prior, radius, Pick(row, col, grid[row][col]))
  {
    forall r, c | Free(grid, prior, radius, r, c)
      ensures grid[row][col] <= grid[r][c] && (RowMajorBefore(r, c, row, col) ==> grid[row][col] < grid[r][c])
    {
      assert 0 <= r < mask.Length0 && 0 <= c < mask.Length1 && !mask[r, c];
    }
  }

  /** The record for a pick: the window offset plus the local index gives the
      global pixel, which `pixelToGeo` maps to (longitude, latitude). */
  function Locate(p: Pick, rowOff: real, colOff: real, pixelToGeo: (real, real) -> (real, real)): DarkSpot
  {
    var (lon, lat) := pixelToGeo(rowOff + p.row as real, colOff + p.col as real);
    DarkSpot(lat, lon, p.value)
  }

  /** Number of iterations of the search loop for a requested count. */
  function Iterations(numSpots: int): nat
  {
    if numSpots > 0 then numSpots else 0
  }

  /** The search over one window read from the raster: `grid` is the window's
      samples, (rowOff, colOff) its offset in the raster, `pixelResDeg` the
      raster's pixel width in degrees and `pixelToGeo` its pixel-to-geographic
      mapping. Returns the spots in discovery order; `picks` are the same
      spots as local cells. */
  method FindNearestDarkSpot(grid: Grid, rowOff: real, colOff: real, searchKm: real, pixelResDeg: real,
                             numSpots: int, pixelToGeo: (real, real) -> (real, real))
    returns (spots: seq<DarkSpot>, ghost picks: seq<Pick>)
    requires Rectangular(grid)
    ensures |spots| == |picks| <= Iterations(numSpots)
    ensures forall k :: 0 <= k < |picks| ==>
      spots[k].value == picks[k].value &&
      (spots[k].lon, spots[k].lat) == pixelToGeo(rowOff + picks[k].row as real, colOff + picks[k].col as real)
    ensures !HasValidSample(grid) ==> spots == []
    ensures MaskRadius(searchKm, pixelResDeg).None? ==> spots == []
    ensures MaskRadius(searchKm, pixelResDeg).Some? ==>
      IsGreedyRun(grid, MaskRadius(searchKm, pixelResDeg).value, Iterations(numSpots), picks)
  {
    spots, picks := [], [];
    if |grid| == 0 || Cols(grid) == 0 {
      return;
    }
    var rows, cols := |grid|, Cols(grid);
    // The working mask: no-data samples start out masked.
    var mask := new bool[rows, cols]((r, c) requires 0 <= r < rows && 0 <= c < cols => grid[r][c] < 0.0);
    var count := CountUnmasked(mask);
    if count == 0 {
      assert forall r, c :: InGrid(grid, r, c) ==> mask[r, c];
      return;
    }
    var maybeRadius := MaskRadius(searchKm, pixelResDeg);
    if maybeRadius.None? {
      return;
    }
    var radius := maybeRadius.value;

    var i := 0;
    while i < numSpots
      invariant i == |picks| == |spots| <= Iterations(numSpots)
      invariant forall k :: 0 <= k < |picks| ==> spots[k] == Locate(picks[k], rowOff, colOff, pixelToGeo)
      invariant forall k :: 0 <= k < |picks| ==> ChosenAt(grid, picks, radius, k)
      invariant forall r, c :: 0 <= r < rows && 0 <= c < cols ==> (mask[r, c] <==> !Free(grid, picks, radius, r, c))
    {
      count := CountUnmasked(mask);
      if count == 0 {
        assert forall r, c :: InGrid(grid, r, c) ==> mask[r, c];
        break;
      }
      var row, col := ArgMinUnmasked(grid, mask);
      var p := Pick(row, col, grid[row][col]);
      ghost var prior := picks;
      UnmaskedMinIsFirstMin(grid, mask, prior, radius, row, col);
      ChosenAfterAppend(grid, prior, radius, p);
      spots, picks := spots + [Locate(p, rowOff, colOff, pixelToGeo)], picks + [p];
      MaskSquare(mask, row, col, radius);
      forall r, c | 0 <= r < rows && 0 <= c < cols
        ensures mask[r, c] <==> !Free(grid, picks, radius, r, c)
      {
        FreeAfterPick(grid, prior, radius, p, r, c);
      }
      i := i + 1;
    }
  }
}
