# gtccc canopy-cover pipeline — a Dafny model

This project models the array logic of eight scripts of the tree-canopy-cover
pipeline: predicting cover maps, validating and sizing the random forest,
classifying and timing cover change, summing decadal change, tabulating
regional statistics and drawing training samples.

Rasters are modelled as grids flattened row-major (`seq<real>`, or a
pixels-by-years `array2<real>` for the cubes). Collections the scripts update
in place are `array`s, and the loops are `for` or `while` loops with invariants. A
fitted model, a tree of a forest, a square root, a Mann-Kendall test, a
forest's out-of-bag score and the random draws are function-typed parameters,
which makes every result a function of them.

Modules, one per script, plus the shared `Common`:

- `CanopyPredictor` (`predict_canopy_cover.py`): the target pixels of a tile,
  the predictor matrix, the prediction map, and the per-pixel root mean square
  disagreement of the trees.
- `CrossValidation` (`model_quality_assessment.py`): leave-one-district-out.
  It covers the held-out district, the validation and training rows, the
  reported country, the per-row confidence half-width and the output file id.
- `ForestSize` (`find_optimal_RForest_size.py`): the candidate forest sizes,
  the candidates-by-runs out-of-bag table, its mean/spread summary and its
  column names.
- `ChangeTypes` (`map_change_types.py`): the clamped cube and the per-pixel
  change count. Then min/max, routing to the trend test, the two single-break
  assignments and the five ordered overwrites that give the change code 1 to 5.
- `ChangeDuration` (`map_change_duration.py`): for pixels of code 3, the number
  of years whose smallest steps make up 80 percent of the total loss (then of
  the total gain), stored as uint8.
- `DecadalChanges` (`map_decadal_changes.py`): absolute year-to-year change in
  area units, summed per decade. Also the largest decadal sum and the decade
  (1 to 3, or 0 when there is no change).
- `RegionalStats` (`extract_regional_change_stats.py`): rounding and clearing
  of the cover layers, the five statistics per change code, and the table of
  five rows per region.
- `CanopySampler` (`collect_canopy_cover_samples.py`): the target sample count,
  class shares and quotas, changing and stable candidates, skew-rank and
  uniform selection, pixel-to-coordinate placement and the joined table.

## Model

| member | source | states |
|---|---|---|
| Common.ClampCover | 02_code/map_change_types.py:74 | a cleaned cover is at most 100; it is the input unless the input exceeds 100, in which case it is 0 |
| Common.Where | 02_code/predict_canopy_cover.py:73 | the index list of a mask is strictly increasing, in range, and holds exactly the positions where the mask is true |
| Common.SeqMin | 02_code/map_change_types.py:93 | the minimum is an element of the series and bounds every element from below |
| Common.SeqMax | 02_code/map_change_types.py:94 | the maximum is an element and bounds every element from above |
| Common.RoundHalfEven | 02_code/extract_regional_change_stats.py:88-92 | the rounded value is within one half of the input, and an exact half goes to the even neighbour |
| Common.CeilDiv | 02_code/collect_canopy_cover_samples.py:204 | the result is the least integer whose multiple of the divisor reaches the dividend |
| Common.ParseNatToString | 02_code/find_optimal_RForest_size.py:100 | the decimal rendering of a number reads back as that number |
| Common.NatToStringInjective | 02_code/find_optimal_RForest_size.py:100 | different numbers render as different decimal strings |
| Common.UniqueCorrect | 02_code/model_quality_assessment.py:51 | the distinct values are strictly sorted, and a value is among them exactly when it occurs in the input |
| Common.SumZeroIffAllZero | 02_code/predict_canopy_cover.py:116 | a sum of non-negative terms is 0 exactly when every term is 0 |
| CanopyPredictor.TargetPixels | 02_code/predict_canopy_cover.py:73 | the targets are exactly the pixels whose mask value is 1, ascending and in range |
| CanopyPredictor.Features | 02_code/predict_canopy_cover.py:91-95 | the predictor row of target i: configured layer v read at the target's pixel, for each v in order, then the gap value; BuildPredictors writes these rows into the matrix |
| CanopyPredictor.BuildPredictors | 02_code/predict_canopy_cover.py:91-95 | the matrix has one row per target; row i holds the layers at target i in their configured order, then the gap value |
| CanopyPredictor.ScatteredMeaning | 02_code/predict_canopy_cover.py:108 | after `oa[px] = vals`, target px[k] holds vals[k] and every other cell keeps its old value |
| CanopyPredictor.Scatter | 02_code/predict_canopy_cover.py:108 | the in-place assignment leaves the grid equal to the specified scatter of the old grid |
| CanopyPredictor.NoDataGrid | 02_code/predict_canopy_cover.py:106-107 | a fresh grid of the requested size with every cell at 255 |
| CanopyPredictor.DeviationZeroIff | 02_code/predict_canopy_cover.py:114-117 | the summed squared disagreement is 0 exactly when every tree gives the forest's prediction |
| CanopyPredictor.UncertaintyZeroIff | 02_code/predict_canopy_cover.py:114-119 | a pixel's uncertainty is 0 exactly when every tree agrees with the prediction |
| CanopyPredictor.Uncertainty | 02_code/predict_canopy_cover.py:118-119 | a zero sum of squares gives zero uncertainty; a positive sum over a non-empty forest gives a positive one when the root is positive; UncertaintyZeroIff gives the full condition |
| CanopyPredictor.AddTree | 02_code/predict_canopy_cover.py:116 | one pass over the rows extends each accumulated deviation by the next tree |
| CanopyPredictor.SumSquares | 02_code/predict_canopy_cover.py:114-117 | each cell holds the deviation of its row over all trees |
| CanopyPredictor.TakeRoots | 02_code/predict_canopy_cover.py:118-119 | each cell is replaced by the root mean square of its old sum |
| CanopyPredictor.Uncertainties | 02_code/predict_canopy_cover.py:114-119 | the uncertainty layer is the root mean square disagreement per target |
| CanopyPredictor.PredictorRows | 02_code/predict_canopy_cover.py:91-95 | the rows read back from the matrix are the specified predictor rows |
| CanopyPredictor.PredictTile | 02_code/predict_canopy_cover.py:73-124 | the cover grid scatters the predictions over a 255 grid; the uncertainty grid scatters the uncertainties over the cover grid, reusing its buffer |
| CanopyPredictor.TileGrids | 02_code/predict_canopy_cover.py:106-124 | off the mask both grids hold 255; target i holds prediction i in the cover grid and uncertainty i in the other |
| CrossValidation.DistrictsMeaning | 02_code/model_quality_assessment.py:51 | the district list is strictly sorted and holds exactly the districts that occur among the samples |
| CrossValidation.HeldOut | 02_code/model_quality_assessment.py:51 | Python indexing: a district is returned exactly for indexes from -n to n-1 |
| CrossValidation.HeldOutIsDistrict | 02_code/model_quality_assessment.py:51 | the held-out name is the district of some sample |
| CrossValidation.HeldOutDistinct | 02_code/model_quality_assessment.py:51 | distinct indexes in range hold out distinct districts |
| CrossValidation.Validation | 02_code/model_quality_assessment.py:58 | the validation rows are exactly the samples of the held-out district, ascending |
| CrossValidation.Training | 02_code/model_quality_assessment.py:64 | the training rows are exactly the samples whose district and whose country both differ from the held-out name |
| CrossValidation.PartitionDisjoint | 02_code/model_quality_assessment.py:58-64 | no row both trains and validates; a row in neither set has the held-out name as its country |
| CrossValidation.ValidationNonEmpty | 02_code/model_quality_assessment.py:51-58 | a held-out district always has at least one validation row |
| CrossValidation.CountryIsLeast | 02_code/model_quality_assessment.py:61 | a country is reported exactly when there are validation rows; it occurs among them and none sorts before it |
| CrossValidation.Country | 02_code/model_quality_assessment.py:61 | a reported country is the country of some validation row; CountryIsLeast adds that it exists exactly when there are validation rows and that none sorts before it |
| CrossValidation.StringOrder | 02_code/model_quality_assessment.py:51 | the string comparison used for sorting names is a strict total order |
| CrossValidation.Confidence | 02_code/model_quality_assessment.py:87-91 | one half-width per validation row, computed from the trees' disagreement with that row's prediction |
| CrossValidation.HalfWidth | 02_code/model_quality_assessment.py:91 | 1.96 x sqrt(acc / forest) / sqrt(forest) is 0 exactly when the root of the mean squared deviation is 0; HalfWidthMeaning ties this to agreement of the trees |
| CrossValidation.HalfWidthMeaning | 02_code/model_quality_assessment.py:87-91 | every half-width is non-negative, and it is 0 exactly when all trees agree with the forest |
| CrossValidation.FileIdRoundTrip | 02_code/model_quality_assessment.py:101 | the zero-padded id reads back as the index (with a leading minus sign for negative ones); it has at least four characters, and exactly four for 0 to 9999 |
| CrossValidation.FileId | 02_code/model_quality_assessment.py:101 | an id is never shorter than four characters; FileIdRoundTrip and FileIdInjective give its reading and its uniqueness |
| CrossValidation.FileIdInjective | 02_code/model_quality_assessment.py:101 | distinct indexes write distinct file ids |
| ForestSize.Arange | 02_code/find_optimal_RForest_size.py:52 | `np.arange` fails exactly for a zero step |
| ForestSize.ArangeMeaning | 02_code/find_optimal_RForest_size.py:52 | every produced value lies before the stop, and the next one would not: the length is the exact count |
| ForestSize.Candidates | 02_code/find_optimal_RForest_size.py:52 | the tree counts `arange(start, end + step, step)` exist exactly for a non-zero step; the Candidates lemmas below give their layout |
| ForestSize.CandidatesStart | 02_code/find_optimal_RForest_size.py:52 | for a positive step there are candidates exactly when start < end + step, and the first is start |
| ForestSize.CandidatesStep | 02_code/find_optimal_RForest_size.py:52 | consecutive candidates differ by the step |
| ForestSize.CandidatesBelow | 02_code/find_optimal_RForest_size.py:52 | every candidate is below end + step, and the last reaches end |
| ForestSize.CandidatesLast | 02_code/find_optimal_RForest_size.py:52 | the last candidate overshoots end exactly when the step does not divide end - start |
| ForestSize.ValidSizesFromStart | 02_code/find_optimal_RForest_size.py:52-83 | with a positive step every tree count is at least 1 exactly when there is none or start is at least 1, because the counts grow from start |
| ForestSize.VisitsEachCellOnce | 02_code/find_optimal_RForest_size.py:65-86 | the nested loops visit every cell of the table, nothing outside it, and no cell twice |
| ForestSize.FillTable | 02_code/find_optimal_RForest_size.py:62-86 | a fresh candidates-by-runs table whose cell (n, r) is the out-of-bag score of candidate n in run r, written in the order of the loops |
| ForestSize.MeanWithin | 02_code/find_optimal_RForest_size.py:96 | a row's mean lies between its least and its greatest score |
| ForestSize.VarianceMeaning | 02_code/find_optimal_RForest_size.py:97 | the variance is non-negative, and it is 0 exactly when every run gave the row's mean |
| ForestSize.ConstantRow | 02_code/find_optimal_RForest_size.py:95-97 | a row whose runs all gave one score has that mean and no spread |
| ForestSize.Summarise | 02_code/find_optimal_RForest_size.py:95-97 | a summary row keeps its tree count; mean and spread are missing exactly for a table without runs, and the mean lies between the least and the greatest score |
| ForestSize.RunColumnsDistinct | 02_code/find_optimal_RForest_size.py:100 | column r is named "run" followed by the digits of r, and all names differ |
| ForestSize.SearchForestSize | 02_code/find_optimal_RForest_size.py:52-100 | fails exactly for a zero step or when some run must fit a forest of fewer than one tree (lines 78-83); otherwise it returns the candidates, the summary, the table and the column names |
| ChangeTypes.ClampedLayer | 02_code/map_change_types.py:74 | each pixel of a loaded layer is the cleaned cover, at most 100 |
| ChangeTypes.ChangeCountIsChangeSteps | 02_code/map_change_types.py:83-85 | the counter equals the number of steps at which the series changes |
| ChangeTypes.ChangeCountBound | 02_code/map_change_types.py:83-85 | a series of n layers changes at most n - 1 times |
| ChangeTypes.NoChangeIffConstant | 02_code/map_change_types.py:83-85 | the count is 0 exactly when the series is constant |
| ChangeTypes.ChangeCountStep | 02_code/map_change_types.py:85 | each layer adds one to the count exactly when it differs from the previous layer |
| ChangeTypes.VariedSeriesChanges | 02_code/map_change_types.py:93-101 | a series whose minimum is below its maximum changes at least once |
| ChangeTypes.NoTrendOnlyWhenConstant | 02_code/map_change_types.py:96-116 | a constant series keeps slope and p-value 999; every varied one is either tested or a single break |
| ChangeTypes.PixelTrend | 02_code/map_change_types.py:96-116 | a tested pixel's final slope and p-value are the test's answer; every other pixel ends with the break values or the 999 nodata values |
| ChangeTypes.ClassCodeMeaning | 02_code/map_change_types.py:124-129 | the code is 1 to 5; loss and gain mean a significant negative or positive trend; not-forest and stable-forest mean constant cover of 0 or above 0 with no significant trend; the rest is disturbed |
| ChangeTypes.ClassCode | 02_code/map_change_types.py:124-129 | the code after the five overwrites is always one of 1 to 5 (no pixel keeps the initial 0); ClassCodeMeaning says which |
| ChangeTypes.DisturbedNeverOverwrites | 02_code/map_change_types.py:129 | the last overwrite never replaces a code set by an earlier one |
| ChangeTypes.ConstantPixelCode | 02_code/map_change_types.py:96-129 | constant series get 1 at cover 0 and 2 at positive cover when pval <= 999; with pval above 999 the nodata slope reads as a significant gain |
| ChangeTypes.SingleBreakCode | 02_code/map_change_types.py:111-129 | a single break is coded 5 for 0 < pval <= 1 and loss for pval > 1 |
| ChangeTypes.RoutedPixelCode | 02_code/map_change_types.py:101-129 | a tested pixel's code depends only on the test's slope and p-value |
| ChangeTypes.LoadLayers | 02_code/map_change_types.py:68-87 | the cube holds every clamped layer, and the counter holds each pixel's number of changes |
| ChangeTypes.CountChanges | 02_code/map_change_types.py:83-85 | one layer's comparison extends each pixel's count by that step |
| ChangeTypes.CoverRange | 02_code/map_change_types.py:93-94 | each pixel's minimum and maximum are those of its series |
| ChangeTypes.RoutedMask | 02_code/map_change_types.py:101 | the routing computed from the stored arrays equals the routing of the input series |
| ChangeTypes.RunTrendTests | 02_code/map_change_types.py:96-108 | exactly the routed pixels, in row-major order, are tested and receive the test's answer; all other pixels keep 999 |
| ChangeTypes.ApplyTests | 02_code/map_change_types.py:104-107 | each listed pixel receives the test result of its stored series; the others are unchanged |
| ChangeTypes.AssignAt | 02_code/map_change_types.py:112 | the listed cells take the value, and every other cell keeps its old value |
| ChangeTypes.AssignBreak | 02_code/map_change_types.py:111-116 | exactly the varied single-break pixels receive the slope and p-value given; every other pixel is unchanged |
| ChangeTypes.SingleBreakMask | 02_code/map_change_types.py:111 | a pixel is selected exactly when it varies and has one change |
| ChangeTypes.EvaluateChanges | 02_code/map_change_types.py:93-116 | range arrays as specified, and the final slope and p-value of each pixel are its specified trend |
| ChangeTypes.Overwrite | 02_code/map_change_types.py:125-129 | one masked overwrite advances every pixel's code by one stage of the overwrite order |
| ChangeTypes.Classify | 02_code/map_change_types.py:124-129 | after the five overwrites each pixel holds its specified class code |
| ChangeTypes.MapChangeTypes | 02_code/map_change_types.py:68-129 | each pixel's code, slope and p-value are those its series specifies, and the tested pixels are exactly the routed ones in row-major order |
| ChangeDuration.Differences | 02_code/map_change_duration.py:93 | a leading 0, then each year's difference from the year before |
| ChangeDuration.DifferencesTelescope | 02_code/map_change_duration.py:93 | the differences add up to the last value minus the first |
| ChangeDuration.Losses | 02_code/map_change_duration.py:96 | the kept falling steps are positive and no more numerous than the differences |
| ChangeDuration.Gains | 02_code/map_change_duration.py:124 | the kept rising steps are positive and no more numerous than the differences |
| ChangeDuration.GainsMinusLosses | 02_code/map_change_duration.py:96-124 | total rise minus total fall is the net change |
| ChangeDuration.LossesEmptyIff | 02_code/map_change_duration.py:96 | no loss is kept exactly when no difference is negative |
| ChangeDuration.GainsEmptyIff | 02_code/map_change_duration.py:124 | no gain is kept exactly when no difference is positive |
| ChangeDuration.StepsFewerThanYears | 02_code/map_change_duration.py:93-96 | the leading 0 is never kept, so at most n - 1 steps are |
| ChangeDuration.MonotoneSteps | 02_code/map_change_duration.py:93-124 | a series has no kept step of a kind exactly when it is monotone the other way |
| ChangeDuration.SortAscendingCorrect | 02_code/map_change_duration.py:100 | sorting gives an ascending permutation of the steps |
| ChangeDuration.SumSortAscending | 02_code/map_change_duration.py:100 | sorting keeps the total |
| ChangeDuration.ShareTest | 02_code/map_change_duration.py:100 | for a positive total, a cumulative share of at least 0.8 means five times the part is at least four times the total |
| ChangeDuration.FirstReaching | 02_code/map_change_duration.py:100 | the first index from which the cumulative share reaches 80 percent, or none when no index does |
| ChangeDuration.FourFifthsOfSteps | 02_code/map_change_duration.py:100 | in ascending order, k values reach 80 percent of a positive total only if k is at least 80 percent of the count |
| ChangeDuration.YearsToShare | 02_code/map_change_duration.py:99-100 | an empty step list has no count (the script fails); a count lies between 1 and the number of steps; YearsToShareMeaning makes it the least one reaching 80 percent |
| ChangeDuration.YearsToShareMeaning | 02_code/map_change_duration.py:96-100 | the count exists exactly for a non-empty step list. It is the least k whose k smallest steps carry 80 percent of the total, lies in 1 to n, and is never below 80 percent of the number of steps |
| ChangeDuration.YearsMeaning | 02_code/map_change_duration.py:93-100 | a pass's count fails exactly on a series that never falls (loss pass) or never rises (gain pass); otherwise it lies in 1 to years - 1 |
| ChangeDuration.Stored | 02_code/map_change_duration.py:84 | a count written into the uint8 buffer lies in 0 to 255, and a count already in that range is kept unchanged |
| ChangeDuration.DurationMap | 02_code/map_change_duration.py:84-102 | a written raster has one value per pixel, each in the uint8 range 0 to 255 |
| ChangeDuration.DurationMapZeroElsewhere | 02_code/map_change_duration.py:84-87 | every pixel whose code is not 3 stays 0 in both rasters |
| ChangeDuration.DurationMapCount | 02_code/map_change_duration.py:99-100 | with at most 256 years, a code-3 pixel stores its count itself, which lies in 1 to years - 1 |
| ChangeDuration.DurationMapFails | 02_code/map_change_duration.py:114-128 | a pass fails when any code-3 pixel has no step of its kind; the gain pass fails whenever a code-3 pixel declines steadily |
| ChangeDuration.LoadCube | 02_code/map_change_duration.py:68-75 | row p of the cube is pixel p's series |
| ChangeDuration.LossPixels | 02_code/map_change_duration.py:87 | a pixel is visited exactly when its code is 3 |
| ChangeDuration.DurationPass | 02_code/map_change_duration.py:84-102 | the pass completes exactly when every code-3 pixel has a count; each code-3 pixel then holds its count mod 256 and the others keep their value |
| ChangeDuration.MapChangeDuration | 02_code/map_change_duration.py:68-135 | the loss raster is the loss pass's map (none without input layers); the gain raster, written from the reset buffer, follows only a successful loss pass |
| ChangeDuration.PassIsDurationMap | 02_code/map_change_duration.py:114-130 | a completed pass from a zeroed buffer writes exactly the pass's specified raster |
| DecadalChanges.StoredValue | 02_code/map_decadal_changes.py:77-78 | cover above 100 counts as 0; otherwise the value is the cover fraction times the pixel's area |
| DecadalChanges.Changes | 02_code/map_decadal_changes.py:81 | one non-negative change per pair of consecutive layers |
| DecadalChanges.Labels | 02_code/map_decadal_changes.py:82 | change i is labelled with the year of its later layer |
| DecadalChanges.DecadeSum | 02_code/map_decadal_changes.py:88-89 | a decade in which no change is labelled sums to 0 |
| DecadalChanges.DecadeSumIsMaskedSum | 02_code/map_decadal_changes.py:88-89 | a decade's sum is the sum of the changes with those outside the decade set to 0 |
| DecadalChanges.DecadeSumIgnoresOutside | 02_code/map_decadal_changes.py:88-89 | a change labelled outside the decade does not affect its sum |
| DecadalChanges.DecadeSumNonNegative | 02_code/map_decadal_changes.py:89 | decade sums of absolute changes are non-negative |
| DecadalChanges.DecadesWithinTotal | 02_code/map_decadal_changes.py:84-89 | the three decades together never count more than all changes, and count exactly all when every label lies in 1992 to 2018 |
| DecadalChanges.FirstArgMax | 02_code/map_decadal_changes.py:92 | the position holds a greatest value, and no earlier position does |
| DecadalChanges.PeakDecade | 02_code/map_decadal_changes.py:91-93 | the decade code lies in 0 to 3; with some positive change it is the 1-based position of a largest decade sum |
| DecadalChanges.PeakDecadeMeaning | 02_code/map_decadal_changes.py:91-93 | the result is 0 exactly when there is no change; otherwise it is the 1-based first decade with the largest change |
| DecadalChanges.MaxChangeNonNegative | 02_code/map_decadal_changes.py:91 | the largest decadal change is never negative |
| DecadalChanges.PixelTotals | 02_code/map_decadal_changes.py:72-89 | three non-negative decade totals per pixel |
| DecadalChanges.LoadCube | 02_code/map_decadal_changes.py:72-79 | row p of the cube is pixel p's stored series |
| DecadalChanges.AbsDiff | 02_code/map_decadal_changes.py:81 | row p of the result is the absolute change series of row p |
| DecadalChanges.SumDecades | 02_code/map_decadal_changes.py:84-89 | row p of the result holds pixel p's three decade totals |
| DecadalChanges.Peaks | 02_code/map_decadal_changes.py:91-92 | each pixel's largest total and its first position |
| DecadalChanges.Promote | 02_code/map_decadal_changes.py:93 | positions of pixels with positive change are shifted up by one; others are unchanged |
| DecadalChanges.MapDecadalChanges | 02_code/map_decadal_changes.py:72-93 | each pixel's largest decadal change and its decade code as specified |
| RegionalStats.CleanCover | 02_code/extract_regional_change_stats.py:88-95 | a cleaned cover is a whole number at most 100: the rounded input, or 0 when that exceeds 100 |
| RegionalStats.ClampInPlace | 02_code/extract_regional_change_stats.py:94-95 | every cell becomes its cleaned value |
| RegionalStats.PeriodInjective | 02_code/extract_regional_change_stats.py:42 | distinct year ranges get distinct period labels |
| RegionalStats.WeightedDisjointWithin | 02_code/extract_regional_change_stats.py:107-109 | two disjoint selections inside a third weigh no more than it, for non-negative areas |
| RegionalStats.StatsOf | 02_code/extract_regional_change_stats.py:106-117 | the five statistics of one code's pixels; AbsentCodeIsZero, LossAndGainWithinForest and CoverFormulas state what they are |
| RegionalStats.AbsentCodeIsZero | 02_code/extract_regional_change_stats.py:113-117 | a code no pixel carries gives five zeros |
| RegionalStats.LossAndGainWithinForest | 02_code/extract_regional_change_stats.py:107-109 | loss area plus gain area never exceed the forest area |
| RegionalStats.CoverAreaFactors | 02_code/extract_regional_change_stats.py:110 | the mean-cover area is the mean cover as a fraction times the total area |
| RegionalStats.CoverFormulas | 02_code/extract_regional_change_stats.py:110-111 | start cover area is mean start cover x 0.01 x area; the change is 0.01 x area x the change of the mean cover |
| RegionalStats.CleanCovers | 02_code/extract_regional_change_stats.py:88-95 | both fresh layers hold the cleaned covers of the region |
| RegionalStats.RegionRows | 02_code/extract_regional_change_stats.py:101-133 | the region's five rows, codes 1 to 5 in order, each with its statistics and labels |
| RegionalStats.FlattenIndex | 02_code/extract_regional_change_stats.py:137 | with blocks of five, element v of block i sits at 5 i + v |
| RegionalStats.TableIndex | 02_code/extract_regional_change_stats.py:61-137 | the table has five rows per region, and row 5 i + v is the row of code v + 1 for region i |
| RegionalStats.RegionalTable | 02_code/extract_regional_change_stats.py:59-137 | without regions the join of line 137 has no frame and the script fails; otherwise the loop builds the specified table of five rows per region |
| CanopySampler.TargetSamples | 02_code/collect_canopy_cover_samples.py:203-204 | one sample per 5000 region pixels, rounded up; 0 exactly for an empty region |
| CanopySampler.ClassesMeaning | 02_code/collect_canopy_cover_samples.py:207-208 | the classes are strictly ascending and are exactly the positive classes inside the land mask |
| CanopySampler.SharesSumToOne | 02_code/collect_canopy_cover_samples.py:211-218 | the shares of a group add up to one |
| CanopySampler.QuotaAtMostTarget | 02_code/collect_canopy_cover_samples.py:99 | a class's quota lies between 0 and the target |
| CanopySampler.QuotaIsCeiling | 02_code/collect_canopy_cover_samples.py:99 | below the 16-bit range the quota is the least integer at least the target times the share |
| CanopySampler.QuotasCoverTarget | 02_code/collect_canopy_cover_samples.py:99 | the quotas of a group add up to at least the target |
| CanopySampler.Quota | 02_code/collect_canopy_cover_samples.py:99 | a quota always fits the uint16 range; QuotaIsCeiling and QuotaAtMostTarget give its value |
| CanopySampler.Eligible | 02_code/collect_canopy_cover_samples.py:102-103 | candidate pixels are in range |
| CanopySampler.EligibleWithinTally | 02_code/collect_canopy_cover_samples.py:102-103 | candidates are among the pixels counted for their class, so a zero tally has no candidate |
| CanopySampler.InsertByValueOrdered | 02_code/collect_canopy_cover_samples.py:111 | inserting an index keeps the list ordered by value |
| CanopySampler.ArgSort | 02_code/collect_canopy_cover_samples.py:111 | the result is a permutation of the first n indexes |
| CanopySampler.ArgSortOrdered | 02_code/collect_canopy_cover_samples.py:111 | the indexes are ordered by ascending value |
| CanopySampler.ArgSortEnds | 02_code/collect_canopy_cover_samples.py:111 | the first index holds a least value and the last a greatest |
| CanopySampler.Rank | 02_code/collect_canopy_cover_samples.py:114-117 | a draw's rank lies in 0 to the largest index |
| CanopySampler.RankEnds | 02_code/collect_canopy_cover_samples.py:114-117 | the smallest draw ranks 0 and the largest ranks the largest index |
| CanopySampler.ChangingKeepsAll | 02_code/collect_canopy_cover_samples.py:106-108 | up to the quota every candidate is kept, in row-major order |
| CanopySampler.ChangingSinglePicksMaximum | 02_code/collect_canopy_cover_samples.py:122 | a quota of 0 or 1 below the candidate count takes exactly one pixel, of largest change |
| CanopySampler.ChangingConstantDrawsFail | 02_code/collect_canopy_cover_samples.py:113-117 | equal skew draws make the selection fail |
| CanopySampler.ChangingSpansRange | 02_code/collect_canopy_cover_samples.py:111-117 | varied draws give exactly q candidates, among them one of least and one of greatest change |
| CanopySampler.PicksAtExtremes | 02_code/collect_canopy_cover_samples.py:114-117 | the smallest draw picks the first candidate in the order of change, the largest the last |
| CanopySampler.ChangingSelection | 02_code/collect_canopy_cover_samples.py:106-125 | the changing group keeps all candidates up to the quota, else takes one pixel for a quota of at most 1, else q picks; every pick is a candidate, and only the skew-rank path can fail |
| CanopySampler.DrawIndex | 02_code/collect_canopy_cover_samples.py:140 | a uniform index never reaches the last candidate |
| CanopySampler.StableSelectionMeaning | 02_code/collect_canopy_cover_samples.py:139-141 | up to the quota every candidate is kept; beyond it exactly q candidates are drawn, never the last one |
| CanopySampler.StableSelection | 02_code/collect_canopy_cover_samples.py:139-141 | the stable group yields as many pixels as the quota allows (all candidates when they fit), each a candidate |
| CanopySampler.StableOneCellAbove | 02_code/collect_canopy_cover_samples.py:154-155 | a stable sample lies one pixel above the changing placement of the same pixel |
| CanopySampler.Locate | 02_code/collect_canopy_cover_samples.py:154-155 | with (x0, y0) the centre of the window's first cell, x lies half a pixel right of the pixel's centre; a changing sample lies half a pixel below it and a stable one half a pixel above, so samples land on the pixel's bottom-right or top-right corner |
| CanopySampler.LocateInverse | 02_code/collect_canopy_cover_samples.py:154-155 | for a positive pixel size a changing location determines its pixel |
| CanopySampler.LocateInjective | 02_code/collect_canopy_cover_samples.py:154-155 | distinct pixels get distinct changing locations |
| CanopySampler.ConcatenateFailsIff | 02_code/collect_canopy_cover_samples.py:230 | joining fails exactly when some frame failed |
| CanopySampler.ConcatenateLayout | 02_code/collect_canopy_cover_samples.py:230 | a joined table holds every frame whole and in order |
| CanopySampler.AppendFrames | 02_code/collect_canopy_cover_samples.py:224-230 | the loop's result is the join of the frames of classes 0 to n - 1 |
| CanopySampler.ChangingPicks | 02_code/collect_canopy_cover_samples.py:101-125 | every changing pixel picked for class v has land cover v, a loss and no gain |
| CanopySampler.StablePicks | 02_code/collect_canopy_cover_samples.py:134-141 | every stable pixel picked for class v has land cover v, no loss and no gain |
| CanopySampler.ClassFrame | 02_code/collect_canopy_cover_samples.py:92-158 | `main(v)` fails exactly when its changing selection fails; otherwise it holds one location per pick: the changing picks' locations in pick order, then the stable picks' locations |
| CanopySampler.ClassMain | 02_code/collect_canopy_cover_samples.py:92-158 | `main(v)` gives a frame only for a class index of the plan, and for such an index it is that class's frame |
| CanopySampler.CollectSamples | 02_code/collect_canopy_cover_samples.py:224-230 | the driver returns the specified sample table, and a table implies at least one class |

## Left out

- Raster and vector I/O, coordinate systems, windows, polygon masks and cropping are outside the model: layers arrive as flattened grids, and a tile's geometry is a `Window` value.
- Model fitting and prediction, a forest's trees, its out-of-bag score, the Mann-Kendall test, the square root and the random skew-normal and uniform draws are parameters, because they are library code or randomness.
- Floating point: cover is exact `real`, so float32 rounding is not modelled. The 80 percent test of the cumulative shares is computed exactly, as five times the part against four times the total. NaN results are modelled as `None`.
- The command line, YAML configuration, progress output and `print` are left out.
- build_predictive_model.py is not part of this model.
- An argsort's order among equal values is not modelled. Results that depend only on values (durations, extremes of the order) do not depend on it.
- ForestSize.Arange: integers only, which matches the integer tree counts of line 52.
- ForestSize.CandidatesStart, ForestSize.CandidatesStep, ForestSize.CandidatesBelow and ForestSize.CandidatesLast are proved for a positive step only, the direction of the configured search; `Arange` itself handles every non-zero step.
- ChangeTypes.MapChangeTypes requires at least one layer, because the script indexes the first layer (line 56) and fails without one.
- CanopyPredictor.TakeRoots guards the division by the tree count. The script has no guard; with no trees the sum is 0 either way.
- CanopySampler.Quota is 0 for an empty group. The script divides by a zero total there and casts NaN to uint16.
- Three defects of the scripts are modelled as intended, not as written:
  - predict_canopy_cover.py line 93 indexes `[0][px]` where `[px]` is meant; CanopyPredictor.Features reads each layer at the target pixels;
  - model_quality_assessment.py pairs the predictions of all samples with the validation rows (lines 89 and 99); CrossValidation.Confidence pairs each validation row with its own prediction;
  - map_decadal_changes.py lines 72 and 75 use a layer count `nf` that the script never defines (the other scripts set it to the number of files, as at map_change_types.py line 43); DecadalChanges.LoadCube and DecadalChanges.MapDecadalChanges take it to be the number of layers.
- Three defects disappear into the out-of-bag `score` parameter of ForestSize.FillTable, which stands for a fit on a run's resample: the predictors overwritten at find_optimal_RForest_size.py line 43, the data frame `x_data` passed as the sample count of `np.random.uniform` at line 68, and the seed taken from the result of `random.seed` at line 72.
- Other defects lie in the file handling, the output profiles or the progress output, which are outside the model as stated above, so no member models them:
  - the file ids of predict_canopy_cover.py line 45 and collect_canopy_cover_samples.py line 83 add a string and an integer;
  - the id of map_decadal_changes.py line 47 uses undefined names (`sp`, `index`);
  - the output height at predict_canopy_cover.py line 71 and map_decadal_changes.py line 65 is the raster width;
  - map_change_duration.py line 82 reopens the change path;
  - collect_canopy_cover_samples.py line 228 calls a method the progress bar lacks.
- The gain pass of map_change_duration.py (line 114) still selects code 3, the loss pixels, and the model keeps this as written.
- collect_canopy_cover_samples.py lines 154-155 add half a pixel to the origin of line 168, which is already the centre of the first cell, so every sample lands on a pixel corner rather than a pixel centre. CanopySampler.Locate keeps this as written.
