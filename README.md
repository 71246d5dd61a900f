# Dark-spot search, modelled in Dafny

This project models the search at the centre of darkfinder. The search takes a point and a search radius in kilometres. It returns up to `num_spots` locations with the lowest night-time radiance around the point, spread apart so that they are not one cluster.

The search starts from one window of radiance samples read from the raster. It masks every negative sample as no-data. It returns nothing when the window is empty or holds no valid sample. It computes an exclusion radius in pixels: a quarter of the search radius, at 111 km per degree, divided by the pixel width in degrees, truncated and raised to at least 1. Then, up to `num_spots` times, it does the following:

- It stops early when no unmasked sample is left.
- It takes the least unmasked sample. Of several equal ones, it takes the first in row-major order.
- It records the sample's value and the geographic location of its global pixel. The global pixel is the window offset plus the local index.
- It masks the square of half-width `mask_radius` around that sample, clipped to the window.

The model has two modules:

- `DarkSpotSpec` (`darkspot_spec.dfy`) states the search on values. A sample grid is `seq<seq<real>>`. `Free` says which cells are still selectable after a history of picks. `IsFirstMin` describes the pick the search makes next, and `IsGreedyRun` describes a whole run of picks. Lemmas state what a run guarantees: the same inputs always give the same run, picks are separated, values never decrease, and a run is bounded.
- `DarkSpot` (`darkspot.dfy`) is the imperative search. The working mask is an `array2<bool>` that the loop updates in place: square suppression writes `true` over a clipped block. Separate methods count the unmasked cells and find the first least unmasked sample with nested loops. `FindNearestDarkSpot` runs the early returns and the bounded loop with `break`, and is proved to produce an `IsGreedyRun`.

The raster's pixel-to-geographic mapping (`raster.xy`) is a function parameter, `pixelToGeo`. The window's offset and the raster's pixel width are inputs too.

The model follows the code in these details, where a reading of the intent alone could suggest otherwise:

- The exclusion radius is truncated towards zero (`int(...)`), not floored. The two differ only for a negative ratio, and there the clamp to 1 gives the same result.
- Two returned spots are strictly more than `mask_radius` pixels apart in Chebyshev distance, not "at least" `mask_radius`. The masked square includes its border.
- The window offsets come from `from_bounds` and are not rounded, so they are reals here.
- A pixel width of zero makes the division raise. The broad `except` turns that into an empty result, and the model returns `[]` in that case.

## Model

| member | source | states |
|---|---|---|
| `DarkSpot.FindNearestDarkSpot` | backend/darkspot.py:22-99 | Returns at most `num_spots` spots (none for `num_spots <= 0`). It returns none when the window has no valid sample (including an empty window) or the pixel width is zero. Otherwise its picks form the greedy run for the computed exclusion radius. Spot k carries pick k's sample value and `pixelToGeo` of the window offset plus pick k's local index, as (lon, lat). |
| `DarkSpot.MaskRadius` | backend/darkspot.py:54-64 | The radius is absent exactly when the pixel width is zero (division by zero). Otherwise it is at least 1. It is the integer part of (km / 4 / 111) / width when that ratio is at least 1, and 1 when the ratio is below 1. |
| `DarkSpot.TruncToInt` | backend/darkspot.py:61 | Python's `int()` on a float: the result lies within one unit of x, on the side of zero. |
| `DarkSpot.ClippedBlock` | backend/darkspot.py:91-94 | The bounds satisfy 0 <= r_min <= r_max <= rows and 0 <= c_min <= c_max <= cols. An in-grid cell lies in the block exactly when it is within Chebyshev distance `radius` of the chosen cell. |
| `DarkSpot.MaskSquare` | backend/darkspot.py:91-96 | Afterwards every cell within Chebyshev distance `radius` of the chosen cell is masked. Every other cell keeps its old mask, so masks only grow. |
| `DarkSpot.CountUnmasked` | backend/darkspot.py:72-73 | The count of unmasked cells is zero exactly when every cell is masked. |
| `DarkSpot.ArgMinUnmasked` | backend/darkspot.py:75-77 | The returned cell is unmasked. Its sample is <= every unmasked sample, and strictly < every unmasked sample before it in row-major order. This is the first-occurrence tie-break of `argmin`, which treats masked cells as +infinity. |
| `DarkSpot.UnmaskedMinIsFirstMin` | backend/darkspot.py:75-76 | When the working mask marks exactly the cells that earlier picks and no-data leave unselectable, the first least unmasked sample is the next pick of the greedy run. |
| `DarkSpotSpec.FirstMinUnique` | backend/darkspot.py:75-76 | After a given history, at most one cell qualifies as the next pick, so ties never leave a choice. |
| `DarkSpotSpec.FreeAfterPrefix` | backend/darkspot.py:91-96 | A cell selectable after a history of picks was selectable after every prefix of it (suppression never unmasks). |
| `DarkSpotSpec.FreeAfterPick` | backend/darkspot.py:91-96 | After one more pick, a cell is selectable exactly when it was selectable before and lies farther than `radius` from the new pick. |
| `DarkSpotSpec.PicksAreFree` | backend/darkspot.py:45-48 | Each pick was selectable when it was made: a valid, in-grid sample not suppressed by earlier picks. A non-empty run implies the grid has a valid sample. |
| `DarkSpotSpec.GreedyDeterministic` | backend/darkspot.py:71-96 | Two runs over the same grid, radius and count are the same sequence of picks. |
| `DarkSpotSpec.GreedySeparated` | backend/darkspot.py:75-96 | Every pick is an in-grid, non-negative original sample with the value recorded. Any two picks are more than `radius` apart in Chebyshev distance, so no cell is picked twice. |
| `DarkSpotSpec.GreedyNonDecreasing` | backend/darkspot.py:75-96 | Pick values are non-decreasing in discovery order. |
| `DarkSpotSpec.PickShrinksFree` | backend/darkspot.py:96 | A pick removes at least itself from the selectable cells: the new set is a proper subset, and its size strictly decreases. |
| `DarkSpotSpec.GreedyBoundedByValid` | backend/darkspot.py:71-96 | In a run, every pick strictly shrinks the selectable set. The number of picks plus the cells still selectable never exceeds the number of valid samples. |
| `DarkSpotSpec.GreedyEmptyWithoutValid` | backend/darkspot.py:41-48 | A grid without any valid sample, an empty one included, yields no picks. |
| `DarkSpotSpec.CoveringRadiusOneSpot` | backend/darkspot.py:91-96 | When the first pick's square covers the whole grid, the run has exactly one pick. |
| `DarkSpotSpec.CentreDipYieldsOneSpot` | backend/darkspot.py:71-96 | On a 5 x 5 all-valid window (least value 3 at the centre, next least 4 at a corner), radius 3 and two requested spots, the run is exactly the centre with value 3. |

## Left out

- Reading the raster: `rasterio.open`, `from_bounds`, `raster.read`, `raster.index`, `raster.res` and the bounding-box arithmetic (backend/darkspot.py:7, 30-39, 59). These are I/O and foreign library calls. The window's samples, its offsets and the pixel width are inputs instead.
- `raster.xy` (backend/darkspot.py:82) is a foreign call. It is the function parameter `pixelToGeo`, and nothing is assumed about it.
- `get_radiance` (backend/darkspot.py:10-19): a one-pixel read wrapped in a catch-all, which is I/O only.
- The broad `except` (backend/darkspot.py:101-103) is modelled only for the one failure inside the modelled code, a zero pixel width. Failures of the raster read and of `raster.xy` belong to the parts left out above.
- Floating point: samples, offsets and the radius arithmetic are exact reals. Rounding of `search_km / 4.0 / 111.0 / res`, NaN and infinite samples are not modelled. (`argmin` fills masked cells with +infinity, so an unmasked +infinity sample could lose a tie to an earlier masked cell.)
- `np.ma.masked_less` and `.copy()` (backend/darkspot.py:45, 69) are fused into one fresh mask array. The sample grid is a value, so it cannot change.
- `CountUnmasked`: states only whether the count is zero, because the loop uses nothing else. The exact count of unmasked cells is stated on values by `GreedyBoundedByValid` (the size of `FreeCells`).
- All `print` logging, the HTTP layer (backend/main.py), the browser client (frontend/script.js) and the manual scripts (backend/test.py, backend/test_darkspot.py, backend/test_radius.py). These are transport, UI, or scripts that run against real data. The radius comparison in backend/test_radius.py only prints a warning, so it does not promise anything.
