# Quality flags of the diive meteo screening, in Dafny

This project models the flag-producing and flag-aggregating logic of the
quality-control layer of diive, a Python library for ecosystem flux and
meteorological time series:

- the absolute-limits outlier test (`AbsoluteLimits`);
- the bookkeeping around the local-outlier-factor test (`lof`,
  `LocalOutlierFactorAllData`, `LocalOutlierFactorDaytimeNighttime`). The
  scikit-learn predictor is abstract;
- the screening of one meteo variable (`ScreenVar`): choosing the processing
  pipe, running the pipe steps in order, and summing all flags into the overall
  flag QCF;
- the screening of one variable downloaded from the database
  (`MeteoScreeningFromDatabaseSingleVar`): the units check, tag extraction,
  grouping by time resolution, masking, resampling, tag rewriting and the
  collection of the groups' outputs.

How the model represents the data:

- A time series is a `seq<Option<real>>`. A flag is a `seq<Option<int>>`.
- Position `i` stands for the `i`-th timestamp of the shared index, and `None`
  is NaN.
- Tag columns, the flags frame and tag dictionaries are insertion-ordered
  association lists (`OrderedMap`). They behave like Python dicts and DataFrame
  columns: assigning to an existing key replaces its value in place, and a new
  key goes last.
- Functions whose code is not part of this model are function-valued
  parameters:
  - the LOF predictor;
  - the day/night classifier's output;
  - `missing_values`, `thymeboost`, `absolute_limits`,
    `remove_radiation_zero_offset` and `setto_threshold`;
  - `TimestampSanitizer` and `resample_series_to_30MIN`.
- The screening collaborators are required to keep the index of the series
  they are given (`ScreenVar.KeepsIndex`).

Modules, one per file:

| file | module | models |
|---|---|---|
| wrappers.dfy | `Wrappers` | `Option` and `Result` |
| series.dfy | `TimeSeries` | series, flags, masks and flag counts |
| ordered_map.dfy | `OrderedMap` | insertion-ordered dicts |
| text.dfy | `Text` | substring test, `unique()`, `join`/`split`, string order for `groupby` |
| absolute_limits.dfy | `AbsoluteLimits` | `absolutelimits.py` |
| lof.dfy | `LocalOutlierFactor` | `lof.py` |
| screen_var.dfy | `ScreenVar` | `ScreenVar` in `meteoscreening.py` |
| meteoscreening.dfy | `MeteoScreening` | `MeteoScreeningFromDatabaseSingleVar` in `meteoscreening.py` |

Where the code and its documentation disagree, the model follows the code:

- **The `ok` set of the absolute-limits test.** It is computed with `>= min OR
  <= max`, so for `min <= max` every present value is "ok", the rejected ones
  included. The model keeps that set. The flag is still 0 or 2 as documented
  only under the assumed write order of `setflag` described below (2 written
  after 0); with the opposite order every present value would end up flagged 0.
- **The import at `meteoscreening.py:21`.** It names a function
  `absolute_limits`, but `absolutelimits.py` defines only the class
  `AbsoluteLimits`. The limits step is therefore an abstract flag generator
  taking (series, min, max). `ScreenVar.LimitsStepFlagsOutsideRange` states
  what the step yields when that generator is the `AbsoluteLimits` test.
- **The per-group collection.** Calls to `combine_first` return a new frame
  that is discarded. So a run returns exactly the first `freq` group's outputs,
  while later groups still run and can still raise. The model reproduces this
  and proves it (`MeteoScreening.RunIsFirstGroup`).

`FlagBase`, the base class of the flag tests, is not part of this model. Its
`reset`, `setflag` and `setfiltered` are modelled by an assumed behaviour,
inferred from the outcome that the `AbsoluteLimits` docstring
(`absolutelimits.py:17-22`) promises and from the order in which `lof.py:164-165`
writes the same two values itself:

- `reset`: the flag is all missing and the filtered series is a copy of the
  series.
- `setflag`: writes 0 on the ok timestamps, then 2 on the rejected ones.
- `setfiltered`: the rejected timestamps become missing.

## Model

| member | source | states |
|---|---|---|
| TimeSeries.CountFlagIsCardinality | diive/pkgs/outlierdetection/lof.py:175 | counting the flag entries equal to a value gives the number of timestamps carrying it |
| AbsoluteLimits.FlagTests | diive/pkgs/outlierdetection/absolutelimits.py:41-50 | ok and rejected together are exactly the present timestamps; because of the OR, a present value is ok unless it lies strictly between max and min (only possible with swapped limits); a timestamp is rejected iff its value is present and lies strictly outside [min, max]; missing values are in neither set |
| AbsoluteLimits.OrderedLimitsOkIsEveryPresentValue | diive/pkgs/outlierdetection/absolutelimits.py:43-44 | with min <= max the ok set is every present timestamp, so it contains the rejected set |
| AbsoluteLimits.LimitValuesNeverRejected | diive/pkgs/outlierdetection/absolutelimits.py:45-46 | a value equal to min or max is never rejected and is ok |
| AbsoluteLimits.SetFlag | diive/pkgs/outlierdetection/absolutelimits.py:38 | rejected timestamps get 2, other ok timestamps get 0, every other timestamp keeps its flag; series and filtered series are untouched |
| AbsoluteLimits.SetFiltered | diive/pkgs/outlierdetection/absolutelimits.py:39 | rejected timestamps of the filtered series become missing, the rest is unchanged; series and flag are untouched |
| AbsoluteLimits.CalcForgetsEarlierResults | diive/pkgs/outlierdetection/absolutelimits.py:36-39 | because calc resets first, its result depends on the series and the limits only, never on an earlier flag or filtered series |
| AbsoluteLimits.Calc | diive/pkgs/outlierdetection/absolutelimits.py:17-22 | the flag is 0 exactly on present values within [min, max], 2 exactly on present values outside, missing exactly on missing values; the filtered series is the series with exactly the flag-2 timestamps set to missing; the series is unchanged |
| AbsoluteLimits.CalcIdempotent | diive/pkgs/outlierdetection/absolutelimits.py:32-39 | because calc resets first, calling it twice with the same limits gives the same flag and filtered series as once |
| AbsoluteLimits.Run | diive/pkgs/outlierdetection/absolutelimits.py:27-39 | a fresh test followed by calc flags present values 0 inside and 2 outside the limits and leaves missing values unflagged; the filtered series is the input with the flag-2 values removed |
| LocalOutlierFactor.Lof | diive/pkgs/outlierdetection/lof.py:44-89 | the frame's index is exactly the present timestamps, ascending; SERIES holds the input values; at each timestamp exactly one of OUTLIER and NOT_OUTLIER holds the value, and OUTLIER does iff the predictor labels the sample -1 |
| LocalOutlierFactor.LofPartition | diive/pkgs/outlierdetection/lof.py:70-87 | the non-missing index of OUTLIER is exactly the set of samples labelled -1, and that of NOT_OUTLIER is the other present timestamps |
| LocalOutlierFactor.LofFlag | diive/pkgs/outlierdetection/lof.py:160-165 | writing 0 on NOT_OUTLIER and then 2 on OUTLIER gives 2 on labelled outliers and 0 on the other present timestamps, and leaves missing timestamps as they were |
| LocalOutlierFactor.Summarize | diive/pkgs/outlierdetection/lof.py:172-180 | ok and rejected are re-derived from the flag (0 and 2) and are disjoint; n_outliers is the number of flag-2 timestamps; CLEANED removes exactly the timestamps whose flag exceeds 0 |
| LocalOutlierFactor.FlagTestsAllData | diive/pkgs/outlierdetection/lof.py:152-188 | the flag is missing where the value is missing, 2 on the predictor's outliers and 0 on the other present values; rejected is the outlier set, ok the rest of the present timestamps; n_outliers counts rejected; CLEANED removes exactly the rejected values |
| LocalOutlierFactor.SelectFeedsLofLikeFilter | diive/pkgs/outlierdetection/lof.py:311 | selecting by marking the unselected timestamps missing hands `lof` the same samples, in the same order, as pandas' row-dropping `series[mask]` |
| LocalOutlierFactor.DayNightFlag | diive/pkgs/outlierdetection/lof.py:308-328 | a timestamp in neither subset or with a missing value stays missing; a nighttime timestamp gets the nighttime run's verdict, a daytime-only one the daytime run's verdict |
| LocalOutlierFactor.FlagTestsDayNight | diive/pkgs/outlierdetection/lof.py:305-354 | each subset's timestamps carry exactly the flag the all-data test computes on that subset alone, nighttime winning on overlap; timestamps in neither subset stay missing; ok and rejected are re-derived from the flag (0 and 2), disjoint and present; n_outliers counts rejected; CLEANED removes exactly the rejected values |
| LocalOutlierFactor.SummarizeZeroTwo | diive/pkgs/outlierdetection/lof.py:335-343 | for a flag of 0, 2 or missing that is set only on present values, ok and rejected are present timestamps and CLEANED removes exactly the rejected values |
| LocalOutlierFactor.DayNightMatchesSeparateRuns | diive/pkgs/outlierdetection/lof.py:311-328 | the combined flag equals the nighttime run's flag on nighttime timestamps and the daytime run's flag on daytime-only timestamps |
| LocalOutlierFactor.DaytimeVerdictIgnoresNighttime | diive/pkgs/outlierdetection/lof.py:311-315 | series that agree on the daytime timestamps get the same verdict at every daytime-only timestamp, whatever their nighttime values |
| OrderedMap.Get | diive/pkgs/qaqc/meteoscreening.py:403 | a lookup finds nothing iff the key is absent, and what it finds is stored under the key |
| OrderedMap.Put | diive/pkgs/qaqc/meteoscreening.py:81 | assigning to an existing key keeps the keys as they were; a new key is appended at the end |
| OrderedMap.PutKeepsUniqueKeys | diive/pkgs/qaqc/meteoscreening.py:81 | assigning never makes a key occur twice |
| OrderedMap.PutThenGet | diive/pkgs/qaqc/meteoscreening.py:420-422 | after assigning a value to a key, the key maps to that value |
| OrderedMap.PutKeepsOthers | diive/pkgs/qaqc/meteoscreening.py:420-422 | assigning to one key leaves every other key's value unchanged |
| OrderedMap.GetAtPosition | diive/pkgs/qaqc/meteoscreening.py:345-348 | with unique keys, looking up the key at a position gives the value at that position |
| Text.Contains | diive/pkgs/qaqc/meteoscreening.py:148 | the empty string is contained in every name, and a contained key is never longer than the name |
| Text.ContainsIffOccurs | diive/pkgs/qaqc/meteoscreening.py:148 | the substring test holds iff the key occurs at some position of the name |
| Text.Distinct | diive/pkgs/qaqc/meteoscreening.py:346 | `unique()` keeps exactly the elements of the column, without repeats |
| Text.DistinctKeepsFirstAppearanceOrder | diive/pkgs/qaqc/meteoscreening.py:346 | `unique()` lists the elements in order of first appearance |
| Text.Join | diive/pkgs/qaqc/meteoscreening.py:347 | the joined string starts with the first piece, and the separator follows it when there are more pieces |
| Text.JoinSplit | diive/pkgs/qaqc/meteoscreening.py:347 | joining the pieces of a split gives back the string |
| Text.SplitJoin | diive/pkgs/qaqc/meteoscreening.py:347 | when no piece holds the separator, splitting a join gives back the pieces |
| Text.BelowTransitive | diive/pkgs/qaqc/meteoscreening.py:319 | the string order `groupby` sorts keys by is transitive |
| Text.BelowTotal | diive/pkgs/qaqc/meteoscreening.py:319 | two different strings are always ordered one way or the other |
| Text.SortedDistinct | diive/pkgs/qaqc/meteoscreening.py:319 | the group keys are strictly ascending and are exactly the values of the column |
| ScreenVar.FirstFit | diive/pkgs/qaqc/meteoscreening.py:147-152 | the chosen position fits (key is a substring of the name, units equal) and no earlier position does; with none, no position fits |
| ScreenVar.PipeAssign | diive/pkgs/qaqc/meteoscreening.py:141-156 | an unknown measurement raises; otherwise the call succeeds iff some variable key fits, and then returns the entry of the first fitting key in configuration order |
| ScreenVar.ParseStep | diive/pkgs/qaqc/meteoscreening.py:83-129 | a recognised name is exactly the recognised step's configured name |
| ScreenVar.ParseStepOfName | diive/pkgs/qaqc/meteoscreening.py:85-121 | every step is recognised by its own configured name |
| ScreenVar.StepNamesParse | diive/pkgs/qaqc/meteoscreening.py:85-121 | no two steps share a configured name |
| ScreenVar.ParseStepOfOtherName | diive/pkgs/qaqc/meteoscreening.py:128-129 | a name is recognised as no step iff no step has that name |
| ScreenVar.Limit | diive/pkgs/qaqc/meteoscreening.py:95-96 | a limit is found iff the entry has limits and the index is in range, and then it is the limit at that index |
| ScreenVar.AddFlag | diive/pkgs/qaqc/meteoscreening.py:89 | after adding a flag column its name maps to its values, every other column keeps its values, no column is lost and the series is untouched |
| ScreenVar.Execute | diive/pkgs/qaqc/meteoscreening.py:83-126 | flag tests add a column and keep the series, corrections replace the series and keep the flags; thymeboost gets the missing-values flag; the limits test uses limits 0 and 1, max threshold limit 1 and min threshold limit 0, each failing without them; the zero-offset correction fails unless latitude, longitude and timezone are all given; a step fails only with a missing-limits, limit-index or missing-site-location error |
| ScreenVar.ExecuteKeepsIndex | diive/pkgs/qaqc/meteoscreening.py:60 | every step leaves the series and all flag columns on the series index |
| ScreenVar.PutKeepsColumnLengths | diive/pkgs/qaqc/meteoscreening.py:89 | adding a column on the index keeps every flag column on the index |
| ScreenVar.ApplyStep | diive/pkgs/qaqc/meteoscreening.py:83-129 | a step's own configured name runs exactly that step; the result is the unknown-step error iff no step has the name |
| ScreenVar.RunSteps | diive/pkgs/qaqc/meteoscreening.py:83 | after the steps the missing-values flag is still there and no flag column has been removed |
| ScreenVar.RunStepsKeepsIndex | diive/pkgs/qaqc/meteoscreening.py:60 | the steps together keep the series and the flags on the series index |
| ScreenVar.RunStepsAppend | diive/pkgs/qaqc/meteoscreening.py:83-126 | steps run in order: later steps start from the series and flags the earlier ones left, corrections included |
| ScreenVar.RunStepsFailsIffSomeStepFails | diive/pkgs/qaqc/meteoscreening.py:83-129 | the pipe fails iff some step raises in the state the earlier steps produced |
| ScreenVar.StepFailsAfterShift | diive/pkgs/qaqc/meteoscreening.py:83 | after a successful first step, step k fails iff step k-1 of the remaining steps fails |
| ScreenVar.RowSumFromFirstColumn | diive/pkgs/qaqc/meteoscreening.py:135 | the left-to-right row sum equals the first column's entry plus the sum of the other columns: summing from the first column gives the same total |
| ScreenVar.RowSumAppend | diive/pkgs/qaqc/meteoscreening.py:135 | the row sum of two flag frames side by side is the sum of their row sums |
| ScreenVar.RowSumIgnoresColumnOrder | diive/pkgs/qaqc/meteoscreening.py:135 | any rearrangement of the flag columns (equal multisets of columns) gives the same row sum, so QCF does not depend on the order in which the steps added their flags |
| ScreenVar.QcfDominatesEachFlag | diive/pkgs/qaqc/meteoscreening.py:135 | with non-negative flags, QCF is at least every single flag |
| ScreenVar.QcfZeroIffAllClean | diive/pkgs/qaqc/meteoscreening.py:135 | with non-negative flags, QCF is 0 iff every flag column is 0 or missing there |
| ScreenVar.RowSumNonNegative | diive/pkgs/qaqc/meteoscreening.py:135 | with non-negative flags, QCF is non-negative |
| ScreenVar.Qcf | diive/pkgs/qaqc/meteoscreening.py:135 | QCF has a value at every timestamp of the index, since `sum` skips missing entries |
| ScreenVar.Start | diive/pkgs/qaqc/meteoscreening.py:79-81 | the steps start from the input series with the missing-values flag as the only column |
| ScreenVar.Screen | diive/pkgs/qaqc/meteoscreening.py:36-135 | pipe-assignment errors propagate; otherwise the screening fails iff the configured steps, run from the start state, fail, with that step's error, and on success the screened series and test columns are what the steps left; the series and QCF are on the input index, all tests are on the index, the missing-values flag is the first column, QCF is the row sum of the tests with missing as 0, and the flags frame is the tests followed by QCF |
| ScreenVar.LimitsStepFlagsOutsideRange | diive/pkgs/qaqc/meteoscreening.py:92-97 | when the limits step is the `AbsoluteLimits` test, its column is that test's flag with limit 0 as min and limit 1 as max |
| MeteoScreening.Column | diive/pkgs/qaqc/meteoscreening.py:313 | a column lookup fails with a missing-column error iff the column is absent, and otherwise returns a column on the frame's rows |
| MeteoScreening.DistinctAtMostOneIffAllEqual | diive/pkgs/qaqc/meteoscreening.py:313-314 | a column has at most one distinct value iff all its cells are equal |
| MeteoScreening.CheckUnits | diive/pkgs/qaqc/meteoscreening.py:313-317 | without a units column the check fails with a missing-column error; its only errors are that one and mixed units |
| MeteoScreening.CheckUnitsIffOneUnit | diive/pkgs/qaqc/meteoscreening.py:313-317 | the units check passes iff a units column exists and all its cells are equal; with the column present it fails only with the mixed-units error |
| MeteoScreening.ExtractTags | diive/pkgs/qaqc/meteoscreening.py:330-349 | the tag dictionary has one entry per tag column, in column order |
| MeteoScreening.TagValueListsDistinctCells | diive/pkgs/qaqc/meteoscreening.py:344-348 | when no cell holds a comma, a tag value splits back into the column's distinct values in first-appearance order, each cell value exactly once |
| MeteoScreening.DistinctOfConstant | diive/pkgs/qaqc/meteoscreening.py:346 | the distinct values of a non-empty column holding one value are that value alone |
| MeteoScreening.ExtractTagsKeepsUniqueKeys | diive/pkgs/qaqc/meteoscreening.py:343-348 | the tag dictionary repeats no tag name when the columns repeat none |
| MeteoScreening.SingleValueTag | diive/pkgs/qaqc/meteoscreening.py:344-348 | a tag column with a single value throughout becomes exactly that value |
| MeteoScreening.ResampledTags | diive/pkgs/qaqc/meteoscreening.py:420-422 | the rewritten tags have freq 30T and data_version meteoscreening |
| MeteoScreening.ResampledTagsRewrite | diive/pkgs/qaqc/meteoscreening.py:419-422 | after resampling freq is 30T and data_version is meteoscreening, and every other tag keeps its value |
| MeteoScreening.ResampledTagsKeepOrder | diive/pkgs/qaqc/meteoscreening.py:419-429 | the existing tags keep their order and any new tag comes after them |
| MeteoScreening.ResampledTagsKeepUniqueKeys | diive/pkgs/qaqc/meteoscreening.py:419-429 | the rewrite never repeats a tag name |
| MeteoScreening.Rows | diive/pkgs/qaqc/meteoscreening.py:319 | a group's rows are exactly the rows with that key, ascending |
| MeteoScreening.Group | diive/pkgs/qaqc/meteoscreening.py:388 | a group is a well-formed frame over its rows with the same columns |
| MeteoScreening.GroupColumn | diive/pkgs/qaqc/meteoscreening.py:388-390 | a group's column is the frame's column restricted to the group's rows |
| MeteoScreening.GroupsPartitionRows | diive/pkgs/qaqc/meteoscreening.py:319 | every row's freq value is a group key, and a row belongs to the group of its own freq value and no other |
| MeteoScreening.FirstGroupHasSmallestKey | diive/pkgs/qaqc/meteoscreening.py:319 | the first group visited has the smallest freq value |
| MeteoScreening.QualityChecked | diive/pkgs/qaqc/meteoscreening.py:410-411 | the masked copy has the screened series' index, never invents or changes a value, removes every value whose QCF exceeds 0 and keeps every other one |
| MeteoScreening.QualityCheckedKeepsOnlyCleanValues | diive/pkgs/qaqc/meteoscreening.py:410-411 | with non-negative flags, a value survives the QCF mask iff every flag column passes it, and it survives unchanged |
| MeteoScreening.ScreenGroup | diive/pkgs/qaqc/meteoscreening.py:396-407 | the group is screened on its sanitized values with the given units; it fails iff the screening fails, with the screening's error wrapped, and otherwise returns the screening's result |
| MeteoScreening.ProcessGroup | diive/pkgs/qaqc/meteoscreening.py:388-429 | a group fails only with a screening error or a missing units tag |
| MeteoScreening.ProcessGroupOutputs | diive/pkgs/qaqc/meteoscreening.py:388-429 | without a units tag the group fails; screening errors propagate; with a units tag and a successful screening the group succeeds. On success the flags are the screening's. The high-resolution series is on the sanitized index: missing where the row sum of the flags exceeds 0, the screened value elsewhere. That series is what gets resampled, with a 0.9 minimum share. The tags have freq 30T and data_version meteoscreening, and every other extracted tag is unchanged |
| MeteoScreening.ScreenedGroupMask | diive/pkgs/qaqc/meteoscreening.py:410-411 | the high-resolution series of a screened group is on the sanitized index; a value is removed exactly where QCF exceeds 0 |
| MeteoScreening.Collect | diive/pkgs/qaqc/meteoscreening.py:387-438 | the collection is set by the first group and never changed by later ones; an empty loop leaves it unset |
| MeteoScreening.CollectFailsIffSomeGroupFails | diive/pkgs/qaqc/meteoscreening.py:387-438 | the loop fails iff some group fails, and a failing first group's error is the loop's error |
| MeteoScreening.Run | diive/pkgs/qaqc/meteoscreening.py:313-319 | a failing units check makes the run fail with its error; without a freq column the run fails with a missing-column error |
| MeteoScreening.RunIsFirstGroup | diive/pkgs/qaqc/meteoscreening.py:431-438 | a successful run returns exactly the outputs of the group with the smallest freq value; every other group's outputs are lost |
| MeteoScreening.RunWithoutRowsCollectsNothing | diive/pkgs/qaqc/meteoscreening.py:355-358 | after the checks pass, the run ends with nothing collected iff the frame has no rows |
| MeteoScreening.RunFailsIffSomeGroupFails | diive/pkgs/qaqc/meteoscreening.py:379-438 | after the checks pass on a frame with rows, the run fails iff some freq group fails |
| MeteoScreening.GroupsScreenWithTheUnit | diive/pkgs/qaqc/meteoscreening.py:398-403 | every group of a frame that passed the units check is screened with the frame's single unit |

## Left out

- The repeat-until-clean loop of `FlagBase.repeat` (`lof.py:148`, `lof.py:301`). `FlagBase` is not part of this model. Only one pass of `_flagtests` is modelled, with `reset`/`setflag`/`setfiltered` as assumed above.
- The scikit-learn `LocalOutlierFactor` fit and predict, with `n_neighbors`, `contamination` and `n_jobs`. These are floating-point density numerics in a foreign library. They are folded into the predictor parameter, which must label every sample. Its failures are not modelled: on an empty sample set, and on an infinite value, which `lof` does not drop (`lof.py:54`) and which `fit_predict` (`lof.py:70`) rejects.
- `DaytimeNighttimeFlag`, which is a solar computation. The day and night masks are given boolean sequences.
- The bodies of `missing_values`, `thymeboost`, `absolute_limits`, `remove_radiation_zero_offset`, `setto_threshold`, `TimestampSanitizer` and `resample_series_to_30MIN`. These are uninterpreted function parameters. All but the last two must keep the series index. Resampled and sanitized values are unconstrained.
- MeteoScreening.ScreenGroup: passes the variable's field name as the series name to the screening. The source matches pipe names against the name of the series that `TimestampSanitizer(...).get()` returns (`meteoscreening.py:148`, `:396`), so the model assumes the sanitizer keeps the series name. A sanitizer that renamed the series could change the pipe choice; that case is not modelled.
- Timestamps are positions of a shared index. Index labels, `sort_index`, and the alignment work of `pd.concat` and `combine_first` are not modelled: in a positional model `sort_index` is the identity.
- Floating point. Series values are Dafny reals: every value is finite, ±inf cannot occur, and rounding is not modelled. NaN is the only non-number, represented as a missing value.
- Reading `pipes_meteo.yaml`. The configuration is a parameter.
- Plotting, printing, `show_groups`, `ConsoleOutputDecorator` and the `example()` functions.
- The commented-out `MeteoScreeningFromFiles`, and the per-variable loop of `MeteoScreeningFromDatabaseMultipleVars`.
- `level2_qualityflags.py`, which forwards every test to functions that are not part of this model.
- Pandas chained assignment (`lof.py:87`, `lof.py:173`, `lof.py:336`). The intended "set to missing" is modelled.
- Tag cells are strings. `str()` of non-string cells, NaN cells in the `units` column, and NaN keys, which `groupby` drops, are not modelled.
- MeteoScreening.Detailed: the frame always has the variable's column. The KeyError that `grp_var_df[self.field]` (`meteoscreening.py:389`) raises when the frame lacks the field column is not modelled.
- MeteoScreening.Detailed: the variable's column is kept apart from the tag columns. A frame whose field name is also a tag name (for example a field called `units`) is not modelled.
- AbsoluteLimits.Calc: its flag result depends on the assumed `setflag` write order (0 first, then 2). Because the ok set contains the rejected set whenever min <= max, the opposite order would flag every present value 0; the code of `setflag` is not part of this model.
- ScreenVar.KeepsIndex: the requirement that collaborators keep the index is an assumption about code that is not part of this model.
