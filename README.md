# Urban region building features — a verified Dafny model

This project models the deterministic core of two feature scripts. Each script turns city regions
(US census tracts, or Chinese regions) into one record per region. The record holds population,
building statistics, building density, plot ratio and a standardised feature vector.

- `get_MS_buildings.py` serves the US cities (NYC footprints, or Microsoft building tiles).
- `get_CN_buildings.py` serves the Chinese cities (OSM footprints with CNBH10m raster heights and
  WorldPop population).

The model follows the scripts step by step:

| module | file | what it models |
|---|---|---|
| `Common` | common.dfy | `Option`, `fillna(0)`, `int()` (truncation toward zero), slicing, filtering, `pd.concat` |
| `Frames` | frames.dfy | the pandas left merge on a key column |
| `Aggregation` | aggregation.dfy | `get_building_feature` (shared by both scripts): volume column, group-by, left merge, zero fill, density and plot ratio |
| `MsCensus` | census.dfy | `get_statistics`: GEOID prefix stripping, the `"-"` to 0.8 × population rule, the two left merges |
| `MsRegions` | regions.dfy | `get_gdf_region`: the state ids, the per-state read loop, the requested-tract filter |
| `MsSources` | sources.dfy | `get_nyc_building` and `get_MS_building`: the `feat_code` filter, feet to metres, the quadkey fetch loop, the join rows |
| `CnTiles` | tiles.dfy | `download_tifs`: padding, odd snapping, the tile grid and its order, the download loop |
| `CnBuildings` | cn_buildings.dfy | `get_footprint_from_osmnx`, the per-tile loop and height filter of `get_CN_building`, `get_pop` |
| `Export` | export.dfy | `dump_region2info` of both scripts: the standard scaler written in place, the GEOID-keyed records |

Results of libraries that are not part of this model are inputs to the Dafny functions:

- The geodesic area comes from pyproj.
- The `within` spatial join comes from geopandas. Each feature carries the GEOIDs of the regions
  that contain it.
- The tile intersection test and the masked raster values come from rasterio.
- The quadkeys come from mercantile.
- The contents of files and downloads are inputs too.
- The scaler's standard deviation is a positive input per column (`scales`).

Areas, heights and ratios are Dafny `real`s. pandas' NaN and inf results of a division by a land
area of 0 are modelled explicitly (`Aggregation.Ratio`, `Export.Cell`).

### Where the code and its description differ (the model follows the code)

- Heights ≤ 0 are dropped only on the CN path (`get_CN_buildings.py:142`). The MS and NYC paths
  keep zero-height buildings, including NYC rows whose missing `heightroof` was filled with 0.
  Those buildings count in `area_sum`, in `area_mean` and in the denominator of `height_mean`
  (`Aggregation.UnfilteredExample`, `CnBuildings.FilteredExample`).
- The standardised `feature` vector includes ALAND and the population columns. The MS/NYC vector
  has 8 columns and the CN vector has 6 (`get_MS_buildings.py:192-205`,
  `get_CN_buildings.py:200-211`).
- Region GEOIDs need not be unique. A later duplicate GEOID overwrites the earlier record in
  the dictionary (`Export.KeyedLast`).
- Nothing guards against a land area of 0:
  - A 0 / 0 ratio is NaN, which the scaler accepts and keeps.
  - A nonzero / 0 ratio is infinite, and then `fit_transform` raises (`Export.MsRegion2InfoFails`,
    `Export.CnRegion2InfoFails`).
- A CN footprint that meets k tiles yields k rows, one per tile, before the region join
  (`CnBuildings.FramesOccurrences`).

## Model

| member | source | states |
|---|---|---|
| Common.OrZero | get_MS_buildings.py:185 | `fillna(0)` on one cell: a missing value becomes 0, a present value is kept |
| Common.FillNa | get_MS_buildings.py:185 | `fillna(0)` on a column: same length, each cell zero-filled as above |
| Common.Trunc | get_MS_buildings.py:209-212 | `int()` truncates toward zero: for x ≥ 0, t ≤ x < t + 1 with t ≥ 0; for x < 0, t − 1 < x ≤ t with t ≤ 0 |
| Common.Drop | get_MS_buildings.py:57 | `x[k:]`: empty when the string is no longer than k, otherwise the suffix after the first k characters |
| Common.Take | get_MS_buildings.py:37 | `x[:k]`: the first min(k, len) characters, unchanged |
| Common.Filter | get_CN_buildings.py:142 | a boolean-mask selection keeps exactly the rows satisfying the mask, and never adds rows |
| Common.FilterCount | get_CN_buildings.py:142 | each row satisfying the mask is kept as often as it occurs and no other row appears; a mask every row satisfies keeps the table unchanged |
| Common.FilterAppend | get_CN_buildings.py:141-142 | filtering a concatenation is the concatenation of the filtered parts |
| Common.FilterFilter | get_CN_buildings.py:37-49 | two successive masks select the same rows, in the same order, as their conjunction |
| Common.ConcatAppend | get_CN_buildings.py:141 | `pd.concat` of a longer list of frames appends the later frames' rows after the earlier ones |
| Common.SumAppend | get_CN_buildings.py:171 | a sum over a concatenation is the sum of the parts' sums |
| Frames.Matches | get_MS_buildings.py:184 | the right rows matching a key are exactly those whose key is equal to it |
| Frames.MatchesCount | get_MS_buildings.py:184 | each right row of the key occurs among the matches as often as in the right table and no other row does; when every right row has the key, the matches are the whole table |
| Frames.MergedRows | get_MS_buildings.py:184 | one left row yields one merged row per match, pairing it with the matches in order, or a single row with a missing right side when it has none |
| Frames.Find | get_MS_buildings.py:184 | a lookup returns a right row with that key, or nothing when no right row has it |
| Frames.Pair | get_MS_buildings.py:184 | a left row meeting n matches yields n merged rows, one per match, in order |
| Frames.LeftMerge | get_MS_buildings.py:184 | a left merge never drops a left row: there are at least as many merged rows as left rows |
| Frames.LeftMergeExactly | get_MS_buildings.py:184 | every merged row comes from a left row; a left row is paired with a right row exactly when their keys are equal, and with nothing exactly when it has no match |
| Frames.MergedRowsExactly | get_MS_buildings.py:184 | the merged rows of a left row all carry that row; they pair it with a right row exactly when the keys are equal, and with nothing exactly when it has no match |
| Frames.LeftMergeFrom | get_MS_buildings.py:184 | every row of a merge is one of the merged rows of one of the left rows |
| Frames.LeftMergeHas | get_MS_buildings.py:184 | every merged row of every left row appears in the merge |
| Frames.LeftMergeAppend | get_MS_buildings.py:184 | the merge goes row by row: merging concatenated left tables concatenates their merges, in order |
| Frames.LeftMergeSplit | get_MS_buildings.py:184 | left row `i` contributes exactly its own merged rows, after those of the rows before it and before those of the rows after it |
| Frames.MatchesUnique | get_MS_buildings.py:184 | with unique right keys a key has at most one match, and that match is what `Find` returns |
| Frames.MergedRowsUnique | get_MS_buildings.py:69-77 | with unique right keys a left row yields exactly one merged row, paired with its match or with nothing |
| Frames.LeftMergeOneToOne | get_MS_buildings.py:69-77 | with unique right keys the left merge keeps every left row exactly once and in order, paired with its match or with nothing |
| Aggregation.JoinRows | get_MS_buildings.py:123 | the inner `within` join yields one row per containing region, carrying the feature's area and height |
| Aggregation.SumByAppend | get_MS_buildings.py:179 | a column sum over concatenated rows is the sum of the parts' sums |
| Aggregation.RowsOf | get_MS_buildings.py:178 | a group holds exactly the joined rows whose GEOID is that group's GEOID |
| Aggregation.RowsOfCount | get_MS_buildings.py:178 | a group keeps each of its rows as often as it occurs and no other row; on rows all of one GEOID the group is the rows themselves |
| Aggregation.GroupKeys | get_MS_buildings.py:177-181 | the group keys are distinct, and are exactly the GEOIDs with at least one joined row |
| Aggregation.GroupBy | get_MS_buildings.py:177-183 | one aggregate row per group key |
| Aggregation.GroupByUnique | get_MS_buildings.py:177-183 | the aggregate table has unique GEOIDs (what makes the merge one-to-one) |
| Aggregation.FindGroup | get_MS_buildings.py:184 | a region finds an aggregate row exactly when it has joined rows, and the row holds the statistics of those rows |
| Aggregation.Divide | get_MS_buildings.py:186-187 | a column division gives a finite value exactly when ALAND ≠ 0 (and then q × ALAND = numerator), NaN exactly for 0 / 0, and inf otherwise |
| Aggregation.BuildingFeaturesPerRegion | get_MS_buildings.py:175-188 | the output has one row per region, in region order, holding the zero-filled aggregates of that region's own joined rows |
| Aggregation.RegionAggregates | get_MS_buildings.py:176-187 | per region: the GEOID and ALAND are kept; `area_sum` and `volume_sum` are sums over its rows; the means divide by the row count, zero heights included; the census columns are zero-filled; density and plot ratio are the sums divided by ALAND |
| Aggregation.NoBuildingsAllZero | get_MS_buildings.py:184-185 | a region without joined rows gets 0 for `area_mean`, `area_sum`, `height_mean` and `volume_sum`, and, when its ALAND is nonzero, a density and plot ratio of 0 |
| Aggregation.SumByPositive | get_CN_buildings.py:182-184 | the height sum of rows whose heights are all positive is ≥ 0, and > 0 when there is a row |
| Aggregation.HeightMeanPositiveIff | get_CN_buildings.py:181-190 | when every joined height is positive, a region's `height_mean` is positive exactly when the region has joined rows |
| Aggregation.StatsHeightPositive | get_CN_buildings.py:182-184 | the mean height of a non-empty group of positive heights is positive |
| Aggregation.RegionTotalCons | get_MS_buildings.py:177-184 | one more joined row adds its value to the regional total exactly when its GEOID is a region's |
| Aggregation.RegionTotalEmpty | get_MS_buildings.py:184-185 | with no joined rows every regional total is 0 |
| Aggregation.RegionTotalConserved | get_MS_buildings.py:177-184 | with unique region GEOIDs and every joined row in a region, summing per region and then over the regions gives the total over all rows |
| Aggregation.ColumnsMatchRegionTotals | get_MS_buildings.py:182-184 | the `area_sum` and `volume_sum` columns add up to the regional totals |
| Aggregation.TotalsConserved | get_MS_buildings.py:175-188 | no building's area or volume is lost or counted twice: the output's `area_sum` and `volume_sum` columns add up to the joined rows' total area and volume |
| Aggregation.UnfilteredExample | get_MS_buildings.py:175-188 | for regions "001" (ALAND 1000; buildings 100 x 10 and 50 x 0) and "002" (ALAND 500, no building): the zero-height building still counts in the area mean and in the height mean's denominator, and a region without buildings gets zeros |
| Aggregation.BuildingFrame.Rows | get_MS_buildings.py:176 | the frame's rows are its GEOID, area and height columns, row by row |
| Aggregation.BuildingFrame.AddVolume | get_MS_buildings.py:176 | the caller's frame gains a `volume` column equal to area × height row by row, and its other columns are unchanged |
| Aggregation.GetBuildingFeature | get_MS_buildings.py:175-188 | the frame gains its volume column in place, and the result is the aggregation of its rows |
| MsCensus.GeoidOf | get_MS_buildings.py:57 | the GEOID is `Geography` without its first 9 characters (empty when it is no longer than 9) |
| MsCensus.GeographyRoundTrip | get_MS_buildings.py:57 | stripping a 9-character prefix returns the GEOID it was put in front of |
| MsCensus.Over18 | get_MS_buildings.py:61-68 | `population_over18` becomes 0.8 × `pop_overall` exactly when it is `"-"`, and is otherwise kept |
| MsCensus.CleanPopulation | get_MS_buildings.py:57-68 | every population row is cleaned, in order, with none added or dropped |
| MsCensus.CleanEmployment | get_MS_buildings.py:74-76 | every employment row keeps its count under its stripped GEOID, in order |
| MsCensus.StatisticsPerTract | get_MS_buildings.py:53-79 | with unique census GEOIDs, every tract is kept once and in order, with its matching population and employment values or with nothing |
| MsCensus.CensusColumnsZeroFilled | get_MS_buildings.py:184-185 | a tract missing from the census files gets 0 for `pop_overall`, `population_over18` and `pop_employment` after the zero fill |
| MsRegions.StateId | get_MS_buildings.py:37 | the state id is the first 2 characters of a tract id |
| MsRegions.StateIds | get_MS_buildings.py:37 | the state ids are exactly the distinct 2-character prefixes of the requested ids |
| MsRegions.StateIdsEmptyIff | get_MS_buildings.py:37-45 | no state file is read exactly when no tract is requested |
| MsRegions.KeepRequested | get_MS_buildings.py:46 | the tracts kept are exactly those whose GEOID is requested |
| MsRegions.KeepRequestedCount | get_MS_buildings.py:46 | each requested tract is kept as often as it occurs and no other tract; when every tract is requested nothing is dropped |
| MsRegions.KeepRequestedAppend | get_MS_buildings.py:45-46 | selecting from concatenated state files is the concatenation of the selections |
| MsRegions.GetGdfRegion | get_MS_buildings.py:34-50 | fails (empty concat) exactly when nothing is requested; otherwise every kept tract is requested and comes from a file read, and every requested tract found in its own state's file is kept |
| MsSources.NycHeight | get_MS_buildings.py:130-132 | a missing roof height becomes 0, and a present one is converted from feet to metres (× 0.3048) |
| MsSources.NycRowsAppend | get_MS_buildings.py:121-123 | the NYC rows of concatenated features are the rows of each part, in order |
| MsSources.NycRowsExactly | get_MS_buildings.py:121-133 | a row exists exactly for a `2100` feature and a region containing it, with the feature's area and its roof height in metres; zero heights are kept |
| MsSources.NycRowsCount | get_MS_buildings.py:121-123 | a building feature adds one row per containing region, and any other feature adds none |
| MsSources.MsRowsExactly | get_MS_buildings.py:161-169 | a row exists exactly for a Microsoft feature and a region containing it, with the feature's own height; no height filter |
| MsSources.FetchedFeaturesExactly | get_MS_buildings.py:151-158 | a feature is fetched exactly when it is in the file of a link whose quadkey is wanted |
| MsSources.FetchQuadKeyTiles | get_MS_buildings.py:149-158 | the loop fails (empty concat) exactly when no link is wanted, and otherwise returns the wanted files' features in link order |
| CnTiles.Padded | get_CN_buildings.py:71-77 | the box grows by exactly 0.5 on every side: each lower bound moves down by 0.5, each upper bound up by 0.5, so each width grows by 1 |
| CnTiles.SnapOdd | get_CN_buildings.py:78 | a snapped bound is odd and lies in [t, t + 1]; an odd t is kept |
| CnTiles.SnapOddMonotone | get_CN_buildings.py:78 | snapping preserves order |
| CnTiles.TruncMonotone | get_CN_buildings.py:78 | truncation preserves order |
| CnTiles.BoundsInt | get_CN_buildings.py:71-78 | all four snapped bounds are odd, and each is the padded bound truncated then snapped |
| CnTiles.Arange | get_CN_buildings.py:80-81 | `np.arange(start, stop, 2)` has ⌈(stop − start)/2⌉ elements start + 2k, all below stop |
| CnTiles.ArangeExactly | get_CN_buildings.py:80-81 | a value is in the range exactly when start ≤ v < stop and v has start's parity |
| CnTiles.ArangeDistinct | get_CN_buildings.py:80-81 | the range has no repeated value |
| CnTiles.GridRow | get_CN_buildings.py:79-83 | one row of the mesh pairs every X with the same Y |
| CnTiles.GridLength | get_CN_buildings.py:79-83 | the flattened mesh has \|xs\| × \|ys\| tiles |
| CnTiles.GridAt | get_CN_buildings.py:79-83 | element i × \|xs\| + j of the flattened mesh is (xs[j], ys[i]): Y outer, X inner |
| CnTiles.GridExactly | get_CN_buildings.py:79-83 | the mesh holds exactly the pairs of an X of xs and a Y of ys |
| CnTiles.GridDistinct | get_CN_buildings.py:79-83 | distinct axes give a mesh without repeated tiles |
| CnTiles.AxisExactly | get_CN_buildings.py:80-81 | an axis from an odd bound to a bound hi holds exactly the odd values up to hi, inclusive |
| CnTiles.TileGridExactly | get_CN_buildings.py:78-83 | a tile is in the grid exactly when both coordinates are odd and lie within the snapped bounds, inclusive |
| CnTiles.TileGridDistinct | get_CN_buildings.py:79-83 | each tile appears once |
| CnTiles.AxisLength | get_CN_buildings.py:80-81 | an axis between odd bounds lo and hi has (hi − lo)/2 + 1 values, or none when lo > hi |
| CnTiles.TileGridAt | get_CN_buildings.py:79-83 | the enumeration order is fixed: position i × \|X axis\| + j holds (x0 + 2j, y0 + 2i) |
| CnTiles.TileGridShape | get_CN_buildings.py:79-83 | the axis lengths follow from the snapped bounds, and the grid has \|Y axis\| × \|X axis\| tiles |
| CnTiles.TileGridNonEmpty | get_CN_buildings.py:71-82 | a well-formed box (min ≤ max) always needs at least one tile |
| CnTiles.MissingExactly | get_CN_buildings.py:83-89 | the tiles downloaded are exactly the grid tiles whose file is absent, each once |
| CnTiles.DownloadTifs | get_CN_buildings.py:58-92 | the loop returns the tile grid and downloads the missing tiles, in grid order |
| CnTiles.DownloadCompletesGrid | get_CN_buildings.py:83-90 | after the loop every grid tile was either present already or downloaded, and none twice |
| CnBuildings.OsmBbox | get_CN_buildings.py:34-35 | the bbox passed to osmnx is (maxy, miny, maxx, minx) of the total bounds; for a well-formed box, north ≥ south and east ≥ west |
| CnBuildings.FootprintsInOrder | get_CN_buildings.py:37-51 | the footprints kept are exactly the features with a `building` tag and a Polygon or MultiPolygon geometry, in their original order |
| CnBuildings.FootprintsAppend | get_CN_buildings.py:37-49 | the footprint filter works row by row: filtering concatenated features concatenates the results |
| CnBuildings.TileFrameExactly | get_CN_buildings.py:134-139 | a tile's frame holds exactly the footprints that meet the tile, in increasing footprint order (so each once), each with the tile's height for it |
| CnBuildings.Frames | get_CN_buildings.py:129-140 | one frame per tile, in tile order |
| CnBuildings.OccurrencesAppend | get_CN_buildings.py:141 | counting a footprint's rows in a concatenation adds the parts' counts |
| CnBuildings.RowIfMeetsOccurrences | get_CN_buildings.py:135 | a tile adds one row for a footprint exactly when the footprint meets it |
| CnBuildings.TileFrameOccurrences | get_CN_buildings.py:135 | a footprint appears in a tile's frame once if it meets the tile, and otherwise not at all |
| CnBuildings.FramesOccurrences | get_CN_buildings.py:129-141 | after the concat, a footprint that meets k tiles appears in exactly k rows |
| CnBuildings.FramesExactly | get_CN_buildings.py:129-141 | a row is in the concatenation exactly when its footprint meets some tile and carries that tile's height |
| CnBuildings.CollectHeights | get_CN_buildings.py:129-142 | the loop fails (empty concat) exactly when there is no tile, and otherwise returns the concatenated per-tile rows with height > 0 |
| CnBuildings.CnJoinExactly | get_CN_buildings.py:144-153 | a joined row exists exactly for a positive-height row and a region containing its footprint, with the footprint's area |
| CnBuildings.GetCnBuilding | get_CN_buildings.py:123-157 | returns the filtered, joined rows and downloads exactly the missing tiles |
| CnBuildings.CnBuildingRowsPositive | get_CN_buildings.py:123-157 | for a well-formed box the pipeline succeeds, and every joined row has height > 0 and comes from a footprint that meets a tile |
| CnBuildings.CnHeightMeanPositiveIff | get_CN_buildings.py:177-193 | on the CN path a region's `height_mean` is positive exactly when it has joined buildings |
| CnBuildings.FilteredExample | get_CN_buildings.py:142-192 | for region "001" (ALAND 1000; footprints of area 100 and height 10, and of area 50 and height 0): the zero-height row is dropped before the join and does not count in the region's means |
| CnBuildings.SumOfPositives | get_CN_buildings.py:171 | a sum of positive cells is ≥ 0, and is 0 exactly when there is no cell |
| CnBuildings.PositiveSum | get_CN_buildings.py:170-171 | the region population is ≥ 0, and is 0 exactly when no masked cell is positive |
| CnBuildings.PositiveCells | get_CN_buildings.py:171 | the sum of the cells kept by `data > 0` is ≥ 0, and is 0 exactly when no cell is positive |
| CnBuildings.PositiveSumSnoc | get_CN_buildings.py:171 | one more cell adds itself to the population when it is positive, and nothing otherwise |
| CnBuildings.GetPop | get_CN_buildings.py:160-174 | every region keeps its GEOID and ALAND and gains `pop_overall`, the positive sum of its masked cells (≥ 0) |
| Export.CellOf | get_MS_buildings.py:186-187 | a ratio is a numeric cell exactly when it is finite (with the same value), NaN exactly for 0 / 0, and inf otherwise |
| Export.Shift | get_MS_buildings.py:205 | the scaler maps each numeric cell v to (v − mean) / scale, and leaves NaN and inf cells as they are |
| Export.StandardizeColumn | get_MS_buildings.py:205 | standardising keeps the column's length and which cells are NaN or inf |
| Export.PresentShift | get_MS_buildings.py:205 | the numeric cells of the shifted column are the shifted numeric cells, in order |
| Export.SumShiftAll | get_MS_buildings.py:205 | the shifted values add up to (Σ v − n × mean) / scale |
| Export.StandardizeCentred | get_MS_buildings.py:205 | every standardised column is centred: its numeric cells add up to 0 |
| Export.StandardizeAt | get_MS_buildings.py:205 | a numeric cell is standardised to (v − mean) / scale |
| Export.Unshift | get_MS_buildings.py:205 | the scaler loses nothing on one value: scaling by (v − mean) / scale and then multiplying back by the scale and adding the mean returns v |
| Export.StandardizeInverse | get_MS_buildings.py:205 | standardising loses nothing: each numeric cell maps back to its raw value by × scale + mean |
| Export.StandardizeMonotone | get_MS_buildings.py:205 | standardising keeps the order of the regions within a column, in both directions |
| Export.Column | get_MS_buildings.py:205 | column c of a table is the c-th cell of each row, in row order |
| Export.StandardizeTable | get_MS_buildings.py:205 | each column of the scaled table is its raw column standardised with that column's scale |
| Export.StandardizeTableFacts | get_MS_buildings.py:205 | every scaled column is centred, and every numeric cell maps back to its raw value |
| Export.FitError | get_MS_buildings.py:205 | `fit_transform` raises for 0 samples, and otherwise raises exactly when some cell is infinite |
| Export.NormalFrame.AssignStandardized | get_MS_buildings.py:205 | the in-place assignment replaces the copy's table by its standardised table, or leaves it unchanged when the scaler raises |
| Export.Keyed | get_MS_buildings.py:207-220 | the dictionary's keys are exactly the GEOIDs of the rows |
| Export.KeyedLast | get_MS_buildings.py:207-220 | a GEOID's entry is the value built from its last row: a later duplicate overwrites an earlier one |
| Export.LastExists | get_MS_buildings.py:207-220 | every GEOID of the table has a last row, so every key's record comes from one row |
| Export.Geoids | get_MS_buildings.py:208 | the key column lists each row's GEOID, in row order |
| Export.MsRaw | get_MS_buildings.py:192-204 | the MS/NYC feature row has 8 cells, cell `c` holding the column named `MS_COLUMNS[c]`: ALAND, pop_overall, population_over18, pop_employment, area_mean, height_mean, building_density, plot_ratio |
| Export.MsTable | get_MS_buildings.py:192-204 | the MS/NYC feature table has one 8-cell row per region, in region order |
| Export.InfiniteRatioIff | get_MS_buildings.py:186-205 | a region's MS/NYC feature row has an inf cell exactly when its density or plot ratio is infinite |
| Export.MsTableInfIff | get_MS_buildings.py:205 | the MS/NYC table has an inf cell exactly when some region has an infinite ratio |
| Export.MsRegion2InfoFails | get_MS_buildings.py:184-205 | the MS/NYC dump fails exactly when there is no region, or when a region with ALAND 0 has a nonzero area or volume sum |
| Export.MsRegion2InfoRecords | get_MS_buildings.py:205-220 | the keys are the GEOIDs; a GEOID's record is built from its last row, with ALAND, `pop_overall` and `pop_employment` truncated, the over-18 count, area and height means raw, the density and plot ratio as cells, and the 8 standardised values of that row, each column centred |
| Export.MsFeatureColumn | get_MS_buildings.py:205-217 | feature cell `c` is column `MS_COLUMNS[c]` standardised: scaled back by the column's scale and mean it is that column's raw value |
| Export.DumpMsRegion2Info | get_MS_buildings.py:191-220 | the copy, the in-place scaling and the comprehension produce the dump's records, or its error |
| Export.CnRaw | get_CN_buildings.py:200-210 | the CN feature row has 6 cells, cell `c` holding the column named `CN_COLUMNS[c]`: ALAND, pop_overall, area_mean, height_mean, building_density, plot_ratio |
| Export.CnTable | get_CN_buildings.py:200-210 | the CN feature table has one 6-cell row per region, in region order |
| Export.CnTableInfIff | get_CN_buildings.py:211 | the CN table has an inf cell exactly when some region has an infinite ratio |
| Export.CnRegion2InfoFails | get_CN_buildings.py:189-211 | the CN dump fails exactly when there is no region, or when a region with ALAND 0 has a nonzero area or volume sum |
| Export.CnRegion2InfoRecords | get_CN_buildings.py:211-224 | the keys are the GEOIDs; a GEOID's record is built from its last row, with ALAND and `pop_overall` truncated, the area and height means raw, the density and plot ratio as cells, and the 6 standardised values of that row, each column centred |
| Export.CnFeatureColumn | get_CN_buildings.py:211-221 | feature cell `c` is column `CN_COLUMNS[c]` standardised: scaled back by the column's scale and mean it is that column's raw value |
| Export.DumpCnRegion2Info | get_CN_buildings.py:196-224 | the copy, the in-place scaling and the comprehension produce the dump's records, or its error |

## Left out

- Downloads and caches: wget/HTTP and the "skip if the file exists" checks are left out. Which files
  are already present is an input set. `download_city` and the file reads are left out.
- Library results as inputs: the pyproj geodesic area, the geopandas `within` join, the rasterio
  tile bounds, intersection tests, masking and maximum height (with `nan_to_num`), the mercantile
  quadkeys, the osmnx query and the CRS conversions.
- CSV column positions: `iloc[:, [0, 2, 146]]` and `iloc[:, [0, 2]]` are left out. The census rows
  arrive already projected to their columns.
- Output side effects: the JSON and GeoJSON writes, `print`, `argparse` and `main`, and the folium
  `visualize_region` in both scripts.
- `get_world_city_footprint.py` and `data/data_census_tract/download.py` are not part of this model.
  They are download scripts.
- Export.Shift: the scaler's standard deviation needs a square root and sklearn's zero-variance
  rule, so it is an input `scales` (positive). The model proves centring and the inverse, not unit
  variance.
- Aggregation.GroupKeys: pandas sorts the group keys. The model lists them in order of first
  appearance. This does not affect the output, because the left merge keeps the order of the
  regions.
- CnBuildings.TileFrameExactly: the per-tile frame and its `height` column are built as values. The
  in-place column assignment on each frame is not modelled.
- Floating point: all values are exact reals, so rounding is not modelled. NaN and inf are explicit
  only where a division by ALAND produces them.
- MsCensus.Over18, Export.MsRegion2InfoRecords: the age table's over-18 column holds "-" for some
  tracts, so pandas reads the whole column as text. A reported count therefore stays a string
  (such as "1234") through the replacement and the merge, and the dumped record's
  `population_over18` is that string. Only a "-" tract (0.8 × `pop_overall`) or a tract missing
  from the census (0 after the fill) gets a number there; the scaler converts the column to float.
  The model treats every count as a real number, in the record as in the scaled feature.
- CnTiles.DownloadTifs: for a region frame with no rows, `total_bounds` is NaN and `int()` raises
  ValueError (get_CN_buildings.py:78). The model takes the bounds as exact reals and has no such error.
- Export.Keyed: a Dafny map has no order, so the order of the JSON keys (the order of first
  insertion in the dict comprehension) is not modelled. Which value a key gets (the last row's) is.
- MsRegions.GetGdfRegion: the order in which the set of state ids is iterated is unspecified in
  Python. The contract states membership, not the order of the concatenated tracts.
