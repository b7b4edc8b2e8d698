# TCRM hazard, statistics and track-export core in Dafny

This project models the deterministic core of TCRM, the Tropical Cyclone Risk Model. It covers five pieces:

- **Wind-hazard calculation** (`HazardInterface`):
  - the choice of the computation window inside the wind-field grid from the configured bounding box;
  - the cutting of that window into tiles of 20 by 20 cells;
  - for each tile: loading the ensemble of simulated maximum wind speeds, sorting it in place, fitting a generalised extreme-value distribution cell by cell, and optionally bootstrapping 5th/95th-percentile bounds;
  - writing each tile back into its own region of the output grids;
  - recording the `[min, max]` range of every output grid.
- **Track-data reductions of the statistics plots** (`plotStats`):
  - the lag-1 and paired filters that drop `sys.maxint` sentinels;
  - the longitude/latitude steps with the +360 correction across 180E;
  - the per-track minimum-pressure loop.
- **Shapefile export of cyclone tracks** (`tracks2shp`):
  - the record-array field filter `recdropfields`;
  - the points, segments, parts and records that `tracks2point` and `tracks2line` hand to the shapefile writer.
- **Segment builder of the track maps** (`make_segments` in `tracks.py`).
- **File-name handling of the timeseries plots** (`plotTimeseries`): the `ts.` selection, the location ID read back with `rstrip`/`lstrip`, and the input and output names.

Modules (one per file):

- `Common`: Option, Result and the Python exceptions raised.
- `Numeric`: the numpy/scipy primitives: sort, max, percentile, `np.where`, fancy indexing and `np.diff`.
- `Tiling`: `_return_subset_edges`.
- `GridLimits`: the window selection.
- `CellFit`: `_calculate` and `_calculateCI`.
- `HazardInterface`: the output store, the tile loop of `calculateWindHazard`, `_loadData` and the range recording.
- `PlotStats`: the plotStats reductions.
- `Tracks2Shp`: the tracks2shp module.
- `Tracks`: `make_segments`.
- `PlotTimeseries`: the file names.

Where the source works in place (the ensemble `Vr`, the output grids, the scratch matrix `w`, the `dlon` array, the record arrays and the shapefile writer), the model does too. It uses arrays, classes with `modifies` clauses, and loops with invariants. Each such method is proved against a specification function, and the properties the source promises are proved about that function.

Foreign code and randomness become parameters:

- **GEV fitter.** `evd.estimate_EVD` is a function parameter `fit`. It is bound by `FitterContract`: it returns one speed per return period, and the all-sentinel result when fewer than `minRecords` samples are positive.
- **Random draws.** `random.choice` is a chooser `choose(i, j, n, m)` that names the index drawn for cell (i, j), resample n, draw m. Any concrete random stream is one such function, because the loop order is fixed.
- **Wind fields.** The simulated wind fields are a function `field(n, lat, lon)`.
- **Input files.** File existence is a predicate `present`.

Numbers are mathematical reals and integers.

## Model

| member | source | states |
|---|---|---|
| Numeric.Insert | HazardInterface/HazardInterface.py:272 | inserting into an ascending sequence keeps it ascending and adds exactly that value to its multiset |
| Numeric.Sort | HazardInterface/HazardInterface.py:272 | np.sort: the result is ascending, a permutation of the input, and of the same length |
| Numeric.SortSorted | HazardInterface/HazardInterface.py:272 | sorting data that is already ascending leaves it unchanged |
| Numeric.MaxOf | HazardInterface/HazardInterface.py:279 | the maximum is an element of the column and bounds every element |
| Numeric.SortKeepsMax | HazardInterface/HazardInterface.py:272-279 | the `max() > 0` test on the sorted column sees the maximum of the column as loaded |
| Numeric.CountPositive | HazardInterface/HazardInterface.py:280-282 | the number of positive records never exceeds the number of records |
| Numeric.CountPositiveInsert | HazardInterface/HazardInterface.py:272 | inserting a value raises the count of positive records by one exactly when that value is positive |
| Numeric.SortKeepsCountPositive | HazardInterface/HazardInterface.py:272-282 | sorting keeps the count of positive records, on which the fitter's minimum-records test depends |
| Numeric.Position | HazardInterface/HazardInterface.py:319-320 | the fractional position per/100*(n-1) of a percentile lies between 0 and n-1 |
| Numeric.Interpolate | HazardInterface/HazardInterface.py:319-320 | linear interpolation: fraction 0 gives the lower value, 1 the upper, and a fraction in [0, 1] between ordered values lies between them |
| Numeric.ScoreSorted | HazardInterface/HazardInterface.py:319-320 | the percentile of sorted data: the 0th is the first value, the 100th the last, and every percentile lies between them |
| Numeric.Score | HazardInterface/HazardInterface.py:319-320 | `scoreatpercentile` of any non-empty sample lies within the sample's range: some element is at most it and some element at least it |
| Numeric.PositionMonotone | HazardInterface/HazardInterface.py:319-320 | a lower percentile sits at a position no later than a higher one |
| Numeric.ScoreSortedBracket | HazardInterface/HazardInterface.py:319-320 | a percentile lies between the two order statistics around its position |
| Numeric.ScoreMonotone | HazardInterface/HazardInterface.py:319-320 | for one sample, the p-th percentile does not exceed the q-th when p <= q |
| Numeric.SameCellMonotone | HazardInterface/HazardInterface.py:319-320 | interpolation between two ordered values grows with the fraction |
| Numeric.Where | HazardInterface/HazardInterface.py:112-113 | np.where / nonzero: exactly the indices where the mask holds, each once, ascending |
| Numeric.WhereSnoc | HazardInterface/HazardInterface.py:112-113 | extending the mask by one entry appends that index exactly when the new entry holds |
| Numeric.WhereFind | HazardInterface/HazardInterface.py:112-113 | every index where the mask holds has a position in the result of np.where |
| Numeric.Take | PlotInterface/plotStats.py:166-167 | fancy indexing a[idx] has one element per index, and element t is a[idx[t]] |
| Numeric.Tail | PlotInterface/plotStats.py:134 | x[1:] has one element fewer (none for an empty x), and element i is x[i+1] |
| Numeric.Init | PlotInterface/plotStats.py:135 | x[:-1] has one element fewer (none for an empty x), and element i is x[i] |
| Numeric.Diffs | Utilities/tracks2shp.py:142 | np.diff has one element fewer, and element i is a[i+1] - a[i] |
| Tiling.CeilDivIsCeiling | HazardInterface/HazardInterface.py:346-347 | the tile count along an axis is the least count whose tiles reach the dimension, and it is zero only for an empty dimension |
| Tiling.TileCount | HazardInterface/HazardInterface.py:346-348 | there are ceil(x_dim/x_step) * ceil(y_dim/y_step) tiles, and none exactly when a dimension is zero |
| Tiling.StepInBounds | HazardInterface/HazardInterface.py:357-360 | tile i along an axis starts at i*step and ends inside the dimension, at most step cells later |
| Tiling.TileInBounds | HazardInterface/HazardInterface.py:355-361 | every tile has 0 <= start <= end <= dim-1 on both axes and is at most step wide |
| Tiling.TileAt | HazardInterface/HazardInterface.py:339-362 | tile k of the nested loops ends inside the grid on both axes and spans less than one step on each |
| Tiling.SubsetEdges | HazardInterface/HazardInterface.py:339-362 | the subset edges list ceil(xDim/xStep) * ceil(yDim/yStep) tiles |
| Tiling.SubsetEdgesAt | HazardInterface/HazardInterface.py:355-361 | tile k is the tile of column block k / rows and row block k % rows of the nested loops |
| Tiling.InStep | HazardInterface/HazardInterface.py:357-360 | a coordinate lies in block i of an axis exactly when coordinate / step == i |
| Tiling.TileAtSplit | HazardInterface/HazardInterface.py:355-361 | the counter k = i*rows + j of the nested loops names the tile of column block i and row block j |
| Tiling.TilePartition | HazardInterface/HazardInterface.py:355-361 | each cell of the grid lies in tile k exactly when k is its own tile index: the tiles cover the grid with no gap and no overlap |
| Tiling.OnlyOwnTile | HazardInterface/HazardInterface.py:355-361 | a cell lies in no tile but its own |
| Tiling.OwnTileContains | HazardInterface/HazardInterface.py:355-361 | a cell lies in its own tile |
| Tiling.StepOwner | HazardInterface/HazardInterface.py:357-360 | a coordinate between i*step and (i+1)*step belongs to block i |
| Tiling.StepBelowCeiling | HazardInterface/HazardInterface.py:346-347 | the block of every coordinate inside the dimension is one of the ceil(dim/step) blocks |
| Tiling.TileIndexInRange | HazardInterface/HazardInterface.py:346-361 | the tile index of every cell is a valid tile number |
| Tiling.FortyFiveByFortyFive | HazardInterface/HazardInterface.py:171-173 | a 45 by 45 window with step 20 gives 9 tiles, and the last column and row of tiles are 5 cells wide |
| Tiling.ReturnSubsetEdges | HazardInterface/HazardInterface.py:339-362 | the four arrays have ceil*ceil entries, and entry k holds the edges of tile k of SubsetEdges |
| GridLimits.Between | HazardInterface/HazardInterface.py:112-113 | the mask holds exactly at the coordinates inside [lo, hi] |
| GridLimits.Span | HazardInterface/HazardInterface.py:112-117 | IndexError exactly when no coordinate is inside the limits; otherwise the first and last inside indices, with every inside index between them |
| GridLimits.WhereEnds | HazardInterface/HazardInterface.py:114-117 | ii[0] and ii[-1] enclose every index where the mask holds |
| GridLimits.WhereBetween | HazardInterface/HazardInterface.py:112-117 | taking ii[0] and ii[-1] of np.where over the in-range mask raises IndexError exactly when no coordinate is in range; otherwise the two ends are in range and enclose every in-range index |
| GridLimits.SelectWindow | HazardInterface/HazardInterface.py:112-117 | the window exists exactly when both axes meet the limits (else IndexError), and it spans the first to last inside index on each axis |
| GridLimits.WindowCoords | HazardInterface/HazardInterface.py:118-119 | the slice from first to last inclusive has last-first+1 coordinates, coordinate k being v[first+k] |
| CellFit.Sentinel | HazardInterface/HazardInterface.py:273-276 | the result of a cell without a fit is -9999 for every return period and for loc, scale and shp |
| CellFit.FitSorted | HazardInterface/HazardInterface.py:279-286 | the per-cell branch of _calculate on a sorted column: under the fitter contract one speed per return period |
| CellFit.CellResult | HazardInterface/HazardInterface.py:272-286 | the fit of a cell from its ensemble as loaded (sorted, then fitted unless degenerate): under the fitter contract one speed per return period |
| CellFit.DegenerateCell | HazardInterface/HazardInterface.py:279 | a cell whose ensemble maximum is not positive keeps -9999 everywhere |
| CellFit.NoStormCell | HazardInterface/HazardInterface.py:279 | a cell whose every simulated speed is zero or less keeps -9999 everywhere |
| CellFit.FittedCell | HazardInterface/HazardInterface.py:279-286 | a cell with a positive maximum receives exactly the fitter's result on its sorted column |
| CellFit.TooFewRecords | HazardInterface/HazardInterface.py:280-282 | a cell with fewer than minRecords positive speeds ends with -9999 everywhere, whether or not it is fitted |
| CellFit.CellResultShape | HazardInterface/HazardInterface.py:280-283 | every cell result holds one speed per return period |
| CellFit.Resample | HazardInterface/HazardInterface.py:312 | a bootstrap resample has the column's length, and every element is drawn from the column |
| CellFit.Estimate | HazardInterface/HazardInterface.py:312-316 | the speeds estimated from resample n: one per return period, and the sentinel when the resample has fewer than minRecords positive values |
| CellFit.BootRow | HazardInterface/HazardInterface.py:311-318 | the row of one return period holds one estimate per resample, 200 in all |
| CellFit.BootBounds | HazardInterface/HazardInterface.py:317-320 | the bounds hold one 5th and one 95th percentile per return period |
| CellFit.CIResult | HazardInterface/HazardInterface.py:309-323 | the per-cell branch of _calculateCI: a lower and an upper bound per return period |
| CellFit.BoundsOrdered | HazardInterface/HazardInterface.py:317-323 | for every cell and return period, the 5th-percentile bound does not exceed the 95th-percentile bound |
| CellFit.DegenerateBounds | HazardInterface/HazardInterface.py:300-310 | a cell whose maximum is not positive keeps -9999 in both bounds |
| CellFit.ScoreOfSortedRow | HazardInterface/HazardInterface.py:318-320 | sorting a row in place before taking percentiles does not change them |
| CellFit.Column | HazardInterface/HazardInterface.py:279 | Vr[:, i, j] has one entry per realization, entry n being Vr[n, i, j] |
| CellFit.Row | HazardInterface/HazardInterface.py:318 | w[n, :] has one entry per resample, entry m being w[n, m] |
| CellFit.SetColumn | HazardInterface/HazardInterface.py:272 | writing a column changes that column only |
| CellFit.SetMatrixColumn | HazardInterface/HazardInterface.py:314 | w[:, n] = estimate changes column n of w only |
| CellFit.SortRow | HazardInterface/HazardInterface.py:318 | w[n, :].sort() leaves row n sorted and every other row unchanged |
| CellFit.SortColumns | HazardInterface/HazardInterface.py:272 | Vr.sort(axis=0) leaves every cell's column equal to the sort of its old column |
| CellFit.StoreFit | HazardInterface/HazardInterface.py:283-286 | the cell receives the fit in Rp, loc2D, scale2D and shp2D, and every other cell is unchanged |
| CellFit.FitRow | HazardInterface/HazardInterface.py:278-286 | every cell of row i holds the fit of its sorted column (or -9999), and other rows are unchanged |
| CellFit.FitCells | HazardInterface/HazardInterface.py:273-286 | fresh sentinel-initialised outputs in which every cell holds the fit of its column |
| CellFit.Calculate | HazardInterface/HazardInterface.py:264-287 | Vr is sorted in place along the realization axis, and every cell holds CellResult of its column as loaded |
| CellFit.FillResamples | HazardInterface/HazardInterface.py:311-316 | all 200 columns of the shared scratch w are overwritten with this cell's resample estimates |
| CellFit.ReadRow | HazardInterface/HazardInterface.py:317-320 | w95[n] and w05[n] are the 95th and 5th percentiles of row n as filled, and other rows and entries are unchanged |
| CellFit.ReadPercentiles | HazardInterface/HazardInterface.py:317-320 | w95 and w05 hold the 95th and 5th percentile of every row of w as filled |
| CellFit.CellBootstrap | HazardInterface/HazardInterface.py:310-320 | for a valid cell, w95 and w05 end as the bootstrap bounds of its column, whatever w held before |
| CellFit.BoundsRow | HazardInterface/HazardInterface.py:309-323 | every cell of row i holds its CI result in Rp95/Rp05, and other rows are unchanged |
| CellFit.CalculateCI | HazardInterface/HazardInterface.py:289-324 | fresh Rp95/Rp05 of the tile's shape in which every cell holds its CI result (-9999 for degenerate cells) |
| HazardInterface.FieldColumn | HazardInterface/HazardInterface.py:248-249 | the ensemble of a cell holds one speed per simulation, from that simulation's field |
| HazardInterface.HazardAt | HazardInterface/HazardInterface.py:191-192 | the fit window cell (y, x) must hold: under the fitter contract one speed per return period |
| HazardInterface.TileColumn | HazardInterface/HazardInterface.py:191-192 | the ensemble of a tile position after the in-place sort of _calculate: one value per simulation |
| HazardInterface.BoundsAt | HazardInterface/HazardInterface.py:194-195 | the bounds a tile position must hold, from the sorted ensemble: one lower and one upper bound per return period |
| HazardInterface.CopyBlock2 | HazardInterface/HazardInterface.py:201-203 | the slice assignment writes the block at (y1, x1) and leaves every cell outside it unchanged |
| HazardInterface.CopyBlock3 | HazardInterface/HazardInterface.py:204 | the slice assignment writes the block for all years and leaves every cell outside it unchanged |
| HazardInterface.SortedEnsembleValidity | HazardInterface/HazardInterface.py:192-195 | _calculateCI running on the ensemble that _calculate sorted gives the sentinel for degenerate cells and the bootstrap bounds otherwise |
| HazardInterface.HazardStore.constructor | HazardInterface/HazardInterface.py:160-162 | the output grids have the window's shape and hold -9999 everywhere |
| HazardInterface.HazardStore.WriteTile | HazardInterface/HazardInterface.py:197-204 | loc, scale, shp and wspd take the tile's arrays inside the tile and keep their old values outside |
| HazardInterface.HazardStore.WriteBoundsTile | HazardInterface/HazardInterface.py:205-207 | wspd95 and wspd05 take the tile's bounds inside the tile and keep their old values outside; tile cell (a, b) of every year lands at (yStart+a, xStart+b) |
| HazardInterface.SelectInputFiles | HazardInterface/HazardInterface.py:238-246 | the first nsim listed files when all are present; SystemExit exactly when one of them is missing; IndexError when the listing is too short |
| HazardInterface.LoadTile | HazardInterface/HazardInterface.py:230-250 | a fresh nsim by rows by columns array whose cell columns are the ensembles of the tile's grid cells |
| HazardInterface.TileColumnSorted | HazardInterface/HazardInterface.py:272 | the sorted tile column is the specification's sorted ensemble of that grid cell |
| HazardInterface.FitTileArrays | HazardInterface/HazardInterface.py:191-192 | the tile's ensemble ends sorted, and the fitted tile arrays hold the fit of each cell |
| HazardInterface.FitTile | HazardInterface/HazardInterface.py:191-204 | every cell of the tile holds its hazard fit in the store, and cells outside the tile are unchanged |
| HazardInterface.FitTileNamed | HazardInterface/HazardInterface.py:191-204 | the tile's cells hold the fits named for them, the ensemble is left sorted, and cells outside the tile are unchanged |
| HazardInterface.BootstrapTile | HazardInterface/HazardInterface.py:194-207 | every cell of the tile holds its bounds in wspd95/wspd05, and cells outside the tile are unchanged |
| HazardInterface.TileBoundsArrays | HazardInterface/HazardInterface.py:194-195 | fresh Rp95/Rp05 arrays of the tile's shape holding the bounds of every tile position |
| HazardInterface.BootstrapCells | HazardInterface/HazardInterface.py:194-207 | the tile's cells hold the bounds of tile k, and the bound grids outside the tile are unchanged |
| HazardInterface.ProcessTile | HazardInterface/HazardInterface.py:189-207 | one tile: hazard inside it, bounds inside it when calcCI, nothing outside it changed, bounds untouched without calcCI |
| HazardInterface.ProcessNextTile | HazardInterface/HazardInterface.py:188-207 | adds tile k to the tiles already processed, whose cells keep their results because the tiles are disjoint |
| HazardInterface.ProcessTiles | HazardInterface/HazardInterface.py:188-207 | after the loop, every cell of every tile holds its hazard fit (and bounds when calcCI) |
| HazardInterface.TileBoundsNamed | HazardInterface/HazardInterface.py:194-207 | the bounds each tile's loop iteration stored are the bootstrap bounds of that tile's cells |
| HazardInterface.RunTiles | HazardInterface/HazardInterface.py:171-207 | the tile loop over the subset edges leaves every tile cell with its hazard fit and its bounds when calcCI |
| HazardInterface.CalculateWindHazard | HazardInterface/HazardInterface.py:171-207 | every cell of the window holds its hazard fit; with calcCI every cell holds its bounds; without it the bound grids are untouched |
| HazardInterface.Range2 | HazardInterface/HazardInterface.py:220-222 | `[min, max]` of a 2-D grid, attained and bounding every cell; ValueError exactly for an empty grid |
| HazardInterface.Range3 | HazardInterface/HazardInterface.py:219 | `[min, max]` of a 3-D grid, attained and bounding every cell; ValueError exactly for an empty grid |
| HazardInterface.RecordRanges | HazardInterface/HazardInterface.py:219-225 | the actual_range of every output grid, ValueError exactly for an empty grid; the percentile grids' only when calcCI |
| HazardInterface.PercentileRanges | HazardInterface/HazardInterface.py:223-225 | the wspd95/wspd05 ranges are recorded exactly when calcCI, are ValueError exactly for empty grids, and are their grids' true ranges |
| HazardInterface.StoredBoundsOrdered | HazardInterface/HazardInterface.py:205-207 | in the stored output, wspd05 never exceeds wspd95 at any bootstrapped cell |
| PlotStats.Zip | PlotInterface/plotStats.py:31 | pairing two series of equal length gives one pair per index, pair i being (x[i], y[i]) |
| PlotStats.LagPairs | PlotInterface/plotStats.py:31 | the lag-1 pairs are (data[i+1], data[i]), one fewer than the data |
| PlotStats.Keep | PlotInterface/plotStats.py:32 | keeps exactly the pairs whose two values are below sys.maxint |
| PlotStats.BothMask | PlotInterface/plotStats.py:83 | the mask of (x < maxint) & (y < maxint) has one entry per index, true exactly where both values are below maxint |
| PlotStats.TakeSnoc | PlotInterface/plotStats.py:84-85 | gathering one more index appends that element |
| PlotStats.TakePrefix | PlotInterface/plotStats.py:84-85 | gathering indices below m reads only the first m elements |
| PlotStats.ZipSnoc | PlotInterface/plotStats.py:31 | pairing extended series appends the new pair |
| PlotStats.SelectedSnoc | PlotInterface/plotStats.py:83-85 | the index-selected pairs of extended series grow by the last pair exactly when both its values are below maxint |
| PlotStats.KeepSnoc | PlotInterface/plotStats.py:32 | the kept pairs of extended series grow by the last pair exactly when both its values are below maxint |
| PlotStats.SelectIsKeep | PlotInterface/plotStats.py:83-85 | gathering x[i] and y[i] at the np.where indices gives the sentinel-free pairs in their order |
| PlotStats.LinregPairs | PlotInterface/plotStats.py:31-32 | linreg regresses exactly the sentinel-free lag-1 pairs, in index order |
| PlotStats.ScatterFilter | PlotInterface/plotStats.py:83-85 | scatterHistogram keeps exactly the indices where both series are below maxint, in order |
| PlotStats.Compress | PlotInterface/plotStats.py:137-138 | compress keeps one element per true condition: the t-th kept element is a at the t-th index where the condition holds |
| PlotStats.RegressionFilter | PlotInterface/plotStats.py:134-138 | plotRegression keeps exactly the sentinel-free lag-1 pairs, in order |
| PlotStats.SameTrack | PlotInterface/plotStats.py:165 | position i of the mask holds exactly when indicator[i+1] == 0 |
| PlotStats.Steps | PlotInterface/plotStats.py:163-167 | one step per position inside a track |
| PlotStats.StepsAligned | PlotInterface/plotStats.py:163-167 | the t-th kept dlon and dlat are the differences across the same i, with indicator[i+1] == 0 |
| PlotStats.StepsComplete | PlotInterface/plotStats.py:163-167 | every step inside a track is kept |
| PlotStats.Wrap | PlotInterface/plotStats.py:171-172 | a step is kept or raised by exactly 360, and ends at or above -180 unless it was below -540 |
| PlotStats.WrapAll | PlotInterface/plotStats.py:171-172 | the correction keeps the number of steps |
| PlotStats.WrapLongitudes | PlotInterface/plotStats.py:171-172 | dlon[k] += 360 in place turns the array into the corrected steps |
| PlotStats.WrapAllChanges | PlotInterface/plotStats.py:171-172 | a step below -180 has exactly 360 added and every other step is unchanged |
| PlotStats.LonLatSteps | PlotInterface/plotStats.py:163-172 | dlon is the corrected in-track longitude steps, dlat the uncorrected latitude steps |
| PlotStats.Py2Min | PlotInterface/plotStats.py:348-351 | Python 2 `<` against None: a None minimum stays None, a None reading leaves the minimum unchanged, otherwise the result is the smaller of the two |
| PlotStats.MinOfTrack | PlotInterface/plotStats.py:348-351 | the track minimum is None exactly when its start reading is None, and otherwise bounds every later non-None reading of the track |
| PlotStats.MinOfTrackAttained | PlotInterface/plotStats.py:348-351 | the recorded minimum is one of the track's own readings |
| PlotStats.StartMask | PlotInterface/plotStats.py:346 | the start mask of the first n positions has n entries, true exactly where the index is 1 |
| PlotStats.Tracks | PlotInterface/plotStats.py:345-351 | one minimum per track start among the visited positions, in order |
| PlotStats.WhereExtend | PlotInterface/plotStats.py:346-347 | visiting one more position adds a track start exactly when index[i] == 1 |
| PlotStats.TracksStart | PlotInterface/plotStats.py:346-347 | a start appends p[i] as the new track's running minimum |
| PlotStats.TracksContinue | PlotInterface/plotStats.py:348-351 | a non-start position folds p[i] into the last track's minimum and leaves the earlier tracks alone |
| PlotStats.NoStartsBefore | PlotInterface/plotStats.py:348-350 | no track start yet means no index[k] == 1 before that position |
| PlotStats.StartedNotOrphan | PlotInterface/plotStats.py:348-350 | once a track has started, no reading can hit the empty pcarray |
| PlotStats.FoldReading | PlotInterface/plotStats.py:248-251 | the else branch, identical in minPressureHist and plotMinPressure: IndexError exactly for a reading before any start, otherwise the minima after position i |
| PlotStats.TrackMinima | PlotInterface/plotStats.py:343-351 | the per-track minima over range(len(index)-1), the same loop as minPressureHist at 242-251; IndexError exactly when a reading precedes every start or p is too short |
| PlotStats.MinOfTrackPrefix | PlotInterface/plotStats.py:345 | a track minimum depends only on the readings the loop visits |
| PlotStats.TracksIgnoreLast | PlotInterface/plotStats.py:345 | the minima over n positions do not depend on anything after position n, so the last element is never examined |
| Tracks2Shp.KeptNames | Utilities/tracks2shp.py:66-67 | the kept field names are no more than the original names |
| Tracks2Shp.KeptNamesMembers | Utilities/tracks2shp.py:66-67 | a field is kept exactly when it exists and is not named for dropping |
| Tracks2Shp.KeptNamesAppend | Utilities/tracks2shp.py:66-67 | the filter works name by name, keeping dtype order |
| Tracks2Shp.KeptNamesTwice | Utilities/tracks2shp.py:64-67 | filtering the names twice equals filtering once |
| Tracks2Shp.KeptNamesIgnoresAbsent | Utilities/tracks2shp.py:64-67 | names to drop that are not fields make no difference |
| Tracks2Shp.KeptNamesSameOnNames | Utilities/tracks2shp.py:64 | two drop sets that agree on the fields give the same result |
| Tracks2Shp.DropTable | Utilities/tracks2shp.py:64-73 | the new record array keeps the record count and exactly the fields not dropped, each with its values unchanged |
| Tracks2Shp.DropTwice | Utilities/tracks2shp.py:275-277 | dropping Datetime from tracks that tracks2point already stripped changes nothing more |
| Tracks2Shp.RecDropFields | Utilities/tracks2shp.py:64-73 | a fresh record array whose value is DropTable of the old one |
| Tracks2Shp.DropKeepsTrack | Utilities/tracks2shp.py:96 | dropping Datetime keeps every field the writer reads |
| Tracks2Shp.Writer.Point | Utilities/tracks2shp.py:98 | sf.point appends one point shape and no record |
| Tracks2Shp.Writer.Line | Utilities/tracks2shp.py:156 | sf.line appends one line shape with the given parts and no record |
| Tracks2Shp.Writer.Record | Utilities/tracks2shp.py:99 | sf.record appends one record and no shape |
| Tracks2Shp.Field | Utilities/tracks2shp.py:168-175 | a track field has one value per observation |
| Tracks2Shp.Row | Utilities/tracks2shp.py:99 | a record has one value per remaining field |
| Tracks2Shp.Rows | Utilities/tracks2shp.py:97 | one record per observation |
| Tracks2Shp.Tables | Utilities/tracks2shp.py:95 | one record array per track |
| Tracks2Shp.DropDatetime | Utilities/tracks2shp.py:96 | track.data is reassigned to a fresh array without Datetime |
| Tracks2Shp.DropNext | Utilities/tracks2shp.py:95-96 | track i is stripped of Datetime, and the other tracks keep their state |
| Tracks2Shp.Points | Utilities/tracks2shp.py:97-98 | one point per observation, at (Longitude[i], Latitude[i]) |
| Tracks2Shp.PointsPerObservation | Utilities/tracks2shp.py:97-99 | tracks2point writes exactly one point and one record per observation |
| Tracks2Shp.WritePoints | Utilities/tracks2shp.py:97-99 | a track's points and records are appended in observation order |
| Tracks2Shp.PointTrack | Utilities/tracks2shp.py:95-99 | one iteration strips track i and appends its points and records |
| Tracks2Shp.Tracks2Point | Utilities/tracks2shp.py:76-107 | the writer holds every observation's point and record, track by track, and every track lost Datetime |
| Tracks2Shp.SegmentLines | Utilities/tracks2shp.py:180-205 | a track of n observations gives n lines |
| Tracks2Shp.SegmentLinesAre | Utilities/tracks2shp.py:186-205 | line k joins point k to point k+1, or is degenerate at point k across 0E and at the last point |
| Tracks2Shp.SegmentLinesConnect | Utilities/tracks2shp.py:193-196 | consecutive lines that do not cross 0E share their joining point |
| Tracks2Shp.WriteSegments | Utilities/tracks2shp.py:180-205 | the segment lines and one record per observation are appended in order |
| Tracks2Shp.WritePairs | Utilities/tracks2shp.py:186-198 | the loop appends the first n-1 segment lines and the records of all observations but the last, in order |
| Tracks2Shp.WriteSegment | Utilities/tracks2shp.py:187-197 | one segment line is appended, degenerate at point n when the step to n+1 crosses 0E; the records are unchanged |
| Tracks2Shp.ArgMin | Utilities/tracks2shp.py:146 | np.argmin: the first index of a smallest value |
| Tracks2Shp.Polyline | Utilities/tracks2shp.py:148-158 | the vertices of positions lo to hi, in order |
| Tracks2Shp.PolylineSplit | Utilities/tracks2shp.py:148-156 | two adjacent stretches of a track join into the whole stretch |
| Tracks2Shp.SplitAt | Utilities/tracks2shp.py:142-146 | the split is at the first step of the most negative dlon, and that step is below -180 |
| Tracks2Shp.AsWrittenParts | Utilities/tracks2shp.py:141-162 | the parts the dissolved writer emits: the whole track without a crossing, otherwise `[:idx]` and `[idx+1:]`, with point idx in neither part |
| Tracks2Shp.AsWrittenDropsPoint | Utilities/tracks2shp.py:148-153 | across 0E the two written parts together hold one point fewer than the track: exactly point idx is lost |
| Tracks2Shp.AsWrittenExample | Utilities/tracks2shp.py:148-153 | the track 350E, 355E, 5E loses its 355E point |
| Tracks2Shp.DissolvedParts | Utilities/tracks2shp.py:148-153 | the evidently intended split (`[:idx+1]` and `[idx+1:]`), the corrected half of the finding below, with the first part ending at point idx |
| Tracks2Shp.DissolvedPartsCover | Utilities/tracks2shp.py:141-162 | one part with every point when there is no crossing; otherwise two parts that hold every point once, in order, split across the step below -180 |
| Tracks2Shp.CorrectedAddsSplitPoint | Utilities/tracks2shp.py:148-153 | the corrected split differs from the written one only by point idx at the end of the first part; the second parts agree |
| Tracks2Shp.EventRecord | Utilities/tracks2shp.py:165-177 | nine values; the age is the largest TimeElapsed of the track |
| Tracks2Shp.StartFields | Utilities/tracks2shp.py:170-175 | cyclone number and start year, month, day, hour and minute from the first observation |
| Tracks2Shp.TrackLines | Utilities/tracks2shp.py:138-205 | the lines of one track: one when dissolved, one per observation otherwise |
| Tracks2Shp.TrackRecords | Utilities/tracks2shp.py:138-205 | the records of one track: one nine-value event record when dissolved, one row per observation otherwise |
| Tracks2Shp.LinesMatchRecords | Utilities/tracks2shp.py:180-205 | a track gives as many lines as records: one when dissolved, one per observation otherwise |
| Tracks2Shp.Summaries | Utilities/tracks2shp.py:165-166 | one (minimum pressure, maximum wind) per track |
| Tracks2Shp.FirstEmpty | Utilities/tracks2shp.py:138-141 | the first track without observations, all before it being non-empty |
| Tracks2Shp.EmptyTrackError | Utilities/tracks2shp.py:138-205 | the exception an empty track raises: ValueError exactly when dissolving, otherwise IndexError or NameError |
| Tracks2Shp.WriteDissolved | Utilities/tracks2shp.py:141-177 | one line of the parts as written (point idx dropped across 0E) and one event record are appended |
| Tracks2Shp.LongTrackStep | Utilities/tracks2shp.py:186 | the segment loop has run before track i+1 exactly when it ran before track i or track i has two or more observations |
| Tracks2Shp.EmptyTrackFound | Utilities/tracks2shp.py:180-205 | the first empty track met by the loop is the first empty track of the list |
| Tracks2Shp.LineTrack | Utilities/tracks2shp.py:138-205 | one iteration strips track i and appends its lines (dissolved: the parts as written) and records |
| Tracks2Shp.LineStep | Utilities/tracks2shp.py:138-205 | an empty track raises exactly the exception of the first empty track; otherwise the track's lines (dissolved: the parts as written) and records are appended |
| Tracks2Shp.LineTracks | Utilities/tracks2shp.py:138-205 | the loop over the tracks: with no empty track the writer ends with every track's lines and records in order and every Datetime field dropped; otherwise the error is the one of the first empty track |
| Tracks2Shp.Tracks2Line | Utilities/tracks2shp.py:109-212 | the writer holds every track's lines (dissolved: the parts as written, point idx dropped across 0E) and records in order, unless some track is empty, which raises ValueError (dissolved), IndexError or NameError |
| Tracks.Points | PlotInterface/tracks.py:33 | one point per coordinate pair, point k being (x[k], y[k]) |
| Tracks.MakeSegments | PlotInterface/tracks.py:33-34 | max(n-1, 0) segments, and segment k runs from (x[k], y[k]) to (x[k+1], y[k+1]) |
| Tracks.SegmentsChain | PlotInterface/tracks.py:33-34 | the end of segment k is the start of segment k+1 |
| Tracks.Vertices | PlotInterface/tracks.py:33-34 | walking n segments passes n+1 points |
| Tracks.SegmentsRoundTrip | PlotInterface/tracks.py:33-34 | walking the segments of a track of two or more points gives back its points, in order |
| Tracks.ShortTrackNoSegments | PlotInterface/tracks.py:33-34 | a track of fewer than two points has no segment |
| PlotTimeseries.RStrip | PlotInterface/plotTimeseries.py:96 | rstrip keeps the longest prefix that does not end in a stripped character |
| PlotTimeseries.LStrip | PlotInterface/plotTimeseries.py:96 | lstrip keeps the longest suffix that does not start with a stripped character |
| PlotTimeseries.RStripUnique | PlotInterface/plotTimeseries.py:96 | any prefix that ends in a kept character, with only stripped characters after it, is the rstrip result |
| PlotTimeseries.LStripUnique | PlotInterface/plotTimeseries.py:96 | any suffix that starts with a kept character, with only stripped characters before it, is the lstrip result |
| PlotTimeseries.SelectFiles | PlotInterface/plotTimeseries.py:92-93 | every selected name starts with `ts.` |
| PlotTimeseries.SelectFilesMembers | PlotInterface/plotTimeseries.py:93 | a name is selected exactly when it is listed and starts with `ts.` |
| PlotTimeseries.SelectFilesAppend | PlotInterface/plotTimeseries.py:93-94 | selection keeps listing order |
| PlotTimeseries.LocationId | PlotInterface/plotTimeseries.py:96 | the ID never ends in `.`, `c`, `s` or `v`, never starts with `t`, `s` or `.`, and is a contiguous part of the file name |
| PlotTimeseries.TsName | PlotInterface/plotTimeseries.py:70-71 | `ts.%s` with an extension starts with `ts.`, holds the ID right after the prefix and ends in the extension, so the input `ts.%s.csv` and the image `ts.%s.png` are each 7 characters longer than the ID |
| PlotTimeseries.ListingOutputName | PlotInterface/plotTimeseries.py:97 | `%s.png` of the stripped name is at most 4 characters longer than the file name |
| PlotTimeseries.StemOfInput | PlotInterface/plotTimeseries.py:96-97 | rstrip of `ts.L.csv` is `ts.L` when L ends in a kept character |
| PlotTimeseries.RoundTrip | PlotInterface/plotTimeseries.py:70-96 | the ID read back from `ts.L.csv` is L exactly when L is empty or neither starts with `t`, `s`, `.` nor ends in `.`, `c`, `s`, `v` |
| PlotTimeseries.RoundTripExample | PlotInterface/plotTimeseries.py:96 | `ts.site.csv` gives the ID `ite` |
| PlotTimeseries.OutputNamesAgree | PlotInterface/plotTimeseries.py:71-97 | the two branches name L's image alike exactly when L is non-empty and does not end in `.`, `c`, `s` or `v` |

## Left out

- **File and netCDF I/O.** This covers `_loadFile`, the output-file creation, `_create_output_files`, `shapefile.Writer.save`, `os.listdir`, `np.genfromtxt` and the configuration reads. Wind fields, the file listing and file existence are parameters; the output file is the `HazardStore` object; the writer is the `Writer` object.
- **`evd.estimate_EVD`** (an L-moments GEV fit in floating point, not part of this model): a function parameter bound only by `FitterContract`. What it computes beyond that contract is not modelled.
- **`random.choice`**: an explicit chooser function. The model proves properties for every chooser, not for a distribution.
- **Number formats.** Floating point and the float32 (`'f'`) arrays are not modelled: numbers are reals. The hazard's percentile is interpolation over reals, so rounding in `scipy.stats.scoreatpercentile` (imported as `percentile`) and float32 truncation are not modelled.
- **Logging and the progress bar** (HazardInterface/HazardInterface.py:209-216): left out, since they change no data.
- **Drawing.** All matplotlib, seaborn and Basemap drawing is left out, including `linregress`, `frechet_l` fits, `colorline` and the titles. Only the data handed to those calls is modelled.
- **The pressure sentinel filter.** The `pcarray < sys.maxint` filter after the per-track minimum loop (PlotInterface/plotStats.py:254 and 355) is left out. It feeds only the histogram.
- **Tracks2Shp.SegmentLines**: a single-observation track's line from the array-valued `Longitude`/`Latitude` (Utilities/tracks2shp.py:181-182) is modelled as a degenerate segment at its one point.
- **Tracks.MakeSegments**: requires x and y of equal length. numpy would fail to build the point array otherwise; that failure is not modelled.
- **Shape-mismatch preconditions.** Several members require matching lengths or shapes where numpy would raise on a mismatch. This applies to `PlotStats.Zip`, `PlotStats.ScatterFilter`, `PlotStats.Steps` and `PlotStats.LonLatSteps` (an indicator longer than the longitudes, whose extra entries are non-zero, does not raise in the source), the `CellFit` array methods and `HazardInterface.HazardStore.WriteTile`. Those numpy errors are not modelled.
- **HazardInterface.CalculateWindHazard**: requires nsim > 0. With nsim = 0 the source raises ValueError at `Vr[:,i,j].max()` (HazardInterface/HazardInterface.py:279) on an empty ensemble; the model does not capture that error. The same holds for `HazardInterface.HazardAt`, `HazardInterface.ProcessTile` and the other `HazardInterface` members that require nsim > 0.
- **HazardInterface.CalculateWindHazard**: models the tile loop (HazardInterface/HazardInterface.py:171-207) on an ensemble already loaded. It does not compose the file selection of `_loadData`, so the SystemExit or IndexError of `HazardInterface.SelectInputFiles` on a missing or short file list stays with that member. It also does not compose the actual_range step (219-225): `HazardInterface.RecordRanges` models it separately, including the ValueError of `min()` on an empty grid (an empty `years` list).
- **CellFit.Calculate**: requires Vr.Length0 > 0, for the same reason: the empty-ensemble ValueError of `max()` (HazardInterface/HazardInterface.py:279) is not modelled. `CellFit.CalculateCI` and the other `CellFit` members that require Vr.Length0 > 0 leave out the same error.
- **Tracks2Shp.Tracks2Line**: states nothing about the writer or the tracks when it returns an error, since the source raises and the partial state is lost.
- **Tracks2Shp.Tracks2Point**: requires every track's record array to carry the fields the writer reads (a missing field raises in the source). An empty track contributes nothing, as in the source.
- **HazardInterface.SelectInputFiles**: `sys.exit()` is modelled as the error SystemExit. The process exit itself is not modelled.
- **`unittests/test_all.py`**: left out. It discovers and runs tests and contains no logic of the core.
- **PlotTimeseries.OutputNamesAgree**: the two branches' image names do not agree exactly for the location IDs that round-trip. The condition is weaker: the ID must be non-empty and must not end in `.`, `c`, `s` or `v`, while its first character plays no part. An empty ID takes the listing branch in the source (`if locID:`), so the model states the exact condition rather than the round-trip one.

## Findings

| source | as written | input that shows it | evidently intended | confidence | as-written member | corrected member |
|---|---|---|---|---|---|---|
| Utilities/tracks2shp.py:148-153 | the dissolved track is split into `Longitude[:idx]` and `Longitude[idx+1:]`, so point idx, the last point before the 0E crossing, is in neither part | Longitude [350, 355, 5], Latitude [-10, -11, -12]: argmin of dlon [5, -350] is 1, and the parts are [(350, -10)] and [(5, -12)], so 355E is lost | the first part ends at point idx (`[:idx+1]`) so that every observation appears once; the writer members (`Tracks2Shp.WriteDissolved`, `Tracks2Shp.Tracks2Line`) keep the parts as written, and `Tracks2Shp.CorrectedAddsSplitPoint` relates the two splits | not executed | Tracks2Shp.AsWrittenDropsPoint | Tracks2Shp.DissolvedPartsCover |
