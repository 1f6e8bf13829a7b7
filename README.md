# Row cleaning of the solar-efficiency data pipeline, modelled in Dafny

The pipeline merges a weather table with an air-quality table, cleans the
result and screens it for outliers before a classifier is trained. This
project models the row-cleaning stage of `src/data_transformation.py` and
proves properties of it. The model has five parts:

- **Row merge** (`RowMerge`): `merge_rows` folds the air-quality rows that
  share a `data_ref` into one row. For each column, the first value in group
  order that is not blank wins. Blank means NaN, None, `"-"` or `"--"`. The
  source's nested loops become the methods `MergeRows` and `AbsorbRow`. Both
  are proved equal to a pure coalesce function.
- **Deduplicate, partition, merge and join** (`Dedup`, `KeyPartition`,
  `InnerJoin`, `MergeStage`): this is `drop_duplicates_merge`, modelled on
  values:
  - exact duplicate rows are dropped, keeping the first;
  - the air rows whose key occurs at least twice are split off and merged
    per key;
  - the rows with a unique key pass through, and the two parts are
    concatenated;
  - the result is inner-joined with the weather rows on `date`.

  The model follows pandas' NaN rules. `duplicated`, `isin` and merge keys
  treat NaN as equal to NaN. `groupby` drops NaN keys.
- **Median imputation** (`Imputation`): each column with a NaN has its NaN
  cells replaced by the column median, one column at a time. The medians are
  exact. A text column with a NaN makes the median fail, which is modelled
  as an error result.
- **Vocabulary reconciliation** (`Vocabulary`): the wind-direction table and
  the dew-point table are given entry for entry. Each is applied to its
  column with `replace`.
- **Outlier filter** (`OutlierFilter`, `ZScore`): `OutlierFilter` builds the
  boolean mask by AND-ing the ten per-feature tests `|z| < 3` into an array,
  then selects the masked rows. The z-scores there are inputs. `ZScore` sets
  out what the library's z-score test decides on the raw values: a value
  passes exactly when it lies strictly within three population standard
  deviations of the mean. `ZScore.Scores` is the library's score column,
  NaN everywhere when the column holds a NaN or has no spread, and
  `(x - m) / s` otherwise. Fed to the mask loop, these scores keep a row
  exactly when every screened feature passes the three-sigma test there.

Data model (`Table`):

- A cell is `Missing`, `Str(text)` or `Num(value)`, with exact reals.
- A row maps column names to cells. An absent column reads as `Missing`,
  which is how concatenating frames with different columns fills them.
- A frame is a sequence of rows. `Schema` states that a frame is
  rectangular.

## Model

| member | source | states |
|---|---|---|
| `RowMerge.MergeRows` | src/data_transformation.py:31-37 | The two nested loops return the group's coalesced row for any group with a rectangular schema, and a one-row group unchanged. |
| `RowMerge.AbsorbRow` | src/data_transformation.py:33-36 | One pass of the inner loop: a column whose running value is blank takes the next row's value when that value is not blank; every other column keeps its running value. |
| `RowMerge.Coalesce` | src/data_transformation.py:35-36 | The merged cell is one of the group's cells. It is non-blank exactly when some row has a non-blank cell in that column. |
| `RowMerge.CoalesceFirstPresent` | src/data_transformation.py:35-36 | The merged cell is the cell of the first row whose cell is not blank. |
| `RowMerge.CoalesceAllBlank` | src/data_transformation.py:33-36 | A column blank in every row of the group keeps the first row's value, since no later row fills it. |
| `RowMerge.CoalesceAppend` | src/data_transformation.py:33-36 | Adding a row adopts its cell exactly when the running value is blank and the new cell is not. |
| `RowMerge.CoalesceNeverOverwritten` | src/data_transformation.py:35-36 | Once the running value is not blank, no later rows change it. |
| `RowMerge.MergeSingleton` | src/data_transformation.py:32-33 | A group of one row merges to that row, because the loop from 1 is empty. |
| `RowMerge.MergeGroup` | src/data_transformation.py:31-37 | The merged row has exactly the group's columns. |
| `Dedup.DropDuplicates` | src/data_transformation.py:53-54 | The result has no repeated row and holds exactly the rows of the input. |
| `Dedup.DropDuplicatesKeepsFirstInOrder` | src/data_transformation.py:53-54 | Kept rows appear in the order of their first occurrence in the input. |
| `Dedup.DropDuplicatesExactlyOnce` | src/data_transformation.py:53-54 | Every input row occurs exactly once in the output. |
| `Dedup.DropDuplicatesOfDistinct` | src/data_transformation.py:53-54 | A frame without repeated rows is returned unchanged. |
| `Dedup.DropDuplicatesIdempotent` | src/data_transformation.py:53-54 | Dropping duplicates a second time gives the same frame as dropping them once. |
| `Dedup.DropDuplicatesSize` | src/data_transformation.py:53-54 | As many rows are kept as there are distinct rows. |
| `KeyPartition.PartitionCovers` | src/data_transformation.py:58-65 | The duplicated part holds exactly the rows whose key occurs at least twice. The unique part holds exactly the rows whose key occurs once. Together they are the whole frame, as a multiset, and their key sets are disjoint. |
| `KeyPartition.GroupKeysOnePerKey` | src/data_transformation.py:61 | There is one group per duplicated key, NaN excluded, and no group repeats. |
| `KeyPartition.MergedRowsLoseKey` | src/data_transformation.py:61 | Merged rows do not hold `data_ref`. |
| `KeyPartition.FinalAirSize` | src/data_transformation.py:58-66 | The concatenated air frame has one row per distinct key. The exception is a NaN key occurring twice or more, which contributes no row. |
| `KeyPartition.NonDuplicatesSize` | src/data_transformation.py:65 | The unique part has one row per key that occurs exactly once. |
| `KeyPartition.GroupKeysSize` | src/data_transformation.py:61 | There are as many groups as duplicated keys, less one when NaN is among them. |
| `InnerJoin.JoinMultiplicity` | src/data_transformation.py:69 | A pair of a weather row and an air row with equal dates occurs as often as the product of their multiplicities; a pair with different dates never occurs. |
| `InnerJoin.JoinMembership` | src/data_transformation.py:69 | A joined row exists exactly for a weather row and an air row with equal dates. |
| `InnerJoin.JoinDropsUnmatchedDates` | src/data_transformation.py:69 | A date that is missing on either side contributes no joined row. |
| `InnerJoin.JoinSize` | src/data_transformation.py:69 | The join has, per weather row, as many rows as there are air rows with its date. |
| `InnerJoin.DisjointDatesJoinEmpty` | src/data_transformation.py:69 | Two rows with different dates do not join. |
| `MergeStage.MergedPairs` | src/data_transformation.py:53-69 | A pair is in the merged frame exactly when it joins a weather row and a cleaned air row with equal dates. |
| `MergeStage.WeatherRowsCountOnce` | src/data_transformation.py:53-69 | A weather row repeated in the input is paired with each matching air row only as often as that air row occurs. |
| `MergeStage.GroupFitsMergeRows` | src/data_transformation.py:58-61 | Every group passed to the row merge meets its precondition: distinct columns without `data_ref`, and every row has exactly those columns. |
| `Imputation.ImputeMedians` | src/data_transformation.py:125-129 | It fails exactly when a column with NaN holds text. On success, each NaN cell of such a column becomes the column median, all other cells are unchanged, and the shape is kept. The result is the frame obtained by filling those columns in turn (`FillAll`). |
| `Imputation.FillAllImputes` | src/data_transformation.py:127-129 | After the listed columns are filled in turn, each NaN cell of a listed column holds that column's median and every other cell is as read. |
| `Imputation.FillAllKeepsSchema` | src/data_transformation.py:127-129 | Filling columns of the frame keeps every row's set of columns. |
| `Imputation.NextColumnUntouched` | src/data_transformation.py:127-129 | When the columns hold no repeats, the column about to be filled is still as read, so its median is the median of the input column. |
| `Imputation.FilledFrame` | src/data_transformation.py:125-129 | Filling every column with NaN gives each cell its imputed value and keeps the shape. |
| `Imputation.Median` | src/data_transformation.py:129 | At most half of the values lie strictly below the median and at most half strictly above it. |
| `Imputation.NAColumns` | src/data_transformation.py:125 | Lists exactly the columns holding a NaN, each once. |
| `Imputation.FillNA` | src/data_transformation.py:129 | Exactly the NaN cells of the column take the fill value; every other cell is unchanged. |
| `Imputation.MedianOfOneNaNThree` | src/data_transformation.py:129 | In the column [1, NaN, 3] the median is 2. |
| `Imputation.Sort` | src/data_transformation.py:129 | The median's ordering of the values is sorted and a permutation of them. |
| `Imputation.MedianOfSortedPermutation` | src/data_transformation.py:129 | The median is the middle of any sorted ordering of the values: the middle value for an odd count, the mean of the two middle values for an even count. |
| `Imputation.SortedPermutationUnique` | src/data_transformation.py:129 | Two sorted orderings of the same values are identical, so the median does not depend on how the values are sorted. |
| `Vocabulary.WindImage` | src/data_transformation.py:162-196 | Every wind synonym maps to one of the eight compass names, and each compass name is reached. |
| `Vocabulary.DewImage` | src/data_transformation.py:133-159 | Every dew synonym maps to one of the six levels, and each level is reached. |
| `Vocabulary.CompassNamesNotWindKeys` | src/data_transformation.py:162-196 | No compass name is itself a key of the wind table. |
| `Vocabulary.DewLevelsFixed` | src/data_transformation.py:133-159 | Every dew level maps to itself. |
| `Vocabulary.ReplaceColumn` | src/data_transformation.py:199-202 | Text in the table is replaced by its mapped value. Every other cell and every other column is unchanged. |
| `Vocabulary.ReconcileRanges` | src/data_transformation.py:199-202 | After reconciliation, a wind direction is a compass name and a dew level is one of the six levels. The exception is text outside the table, which passes through unchanged. |
| `Vocabulary.ReconcileKeepsOtherColumns` | src/data_transformation.py:199-202 | Reconciliation touches no column but the two it maps. |
| `Vocabulary.ReplaceColumnIdempotent` | src/data_transformation.py:199-202 | Replacing a column a second time with a table whose values are stable changes nothing. |
| `Vocabulary.ReconcileIdempotent` | src/data_transformation.py:199-202 | Reconciling a reconciled frame again changes nothing. |
| `Vocabulary.NorthStaysNorth` | src/data_transformation.py:162-199 | The already canonical "North" comes back unchanged. |
| `OutlierFilter.OutlierMask` | src/data_transformation.py:242-247 | A row's bit is set exactly when all ten features pass abs(z) < 3. |
| `OutlierFilter.MaskAfterMeaning` | src/data_transformation.py:242-247 | After k features, a bit is set exactly when the row passes each of the first k. |
| `OutlierFilter.MaskShrinks` | src/data_transformation.py:242-247 | The mask only loses rows as features are AND-ed in. |
| `OutlierFilter.FilterByMask` | src/data_transformation.py:249 | The selection has as many rows as there are set bits, draws no row more often than the frame holds it, holds every row whose bit is set, and holds only such rows. |
| `OutlierFilter.FilterByMaskPositions` | src/data_transformation.py:249 | The k-th selected row is the row at the k-th set position: exactly the rows whose bit is set, each once, in their original order. |
| `OutlierFilter.PositionsMeaning` | src/data_transformation.py:249 | The set positions are listed in increasing order, and a position is listed exactly when its bit is set. |
| `OutlierFilter.FilterAllTrue` | src/data_transformation.py:249 | An all-true mask keeps the frame as it is. |
| `OutlierFilter.FilteredRows` | src/data_transformation.py:242-249 | A row that passes every feature is in the filtered frame, and every filtered row is a source row that passes every feature. |
| `OutlierFilter.FilteredInOrder` | src/data_transformation.py:240-249 | The written frame is the source rows, in their order, at exactly the positions where every feature passes. |
| `OutlierFilter.MaskAgrees` | src/data_transformation.py:240-247 | Once each feature's test at a row is known, the row's final bit is their conjunction. |
| `OutlierFilter.OneLargeScoreDrops` | src/data_transformation.py:244-247 | A z-score of 3.5 in one feature drops the row. |
| `OutlierFilter.AllBelowThreeKept` | src/data_transformation.py:244-247 | A row scoring 2.9 in all ten features is kept. |
| `OutlierFilter.ThresholdIsStrict` | src/data_transformation.py:246 | A score of exactly 3 or -3, or a NaN, fails the test. |
| `ZScore.WithinThreeSigmaMeaning` | src/data_transformation.py:245-246 | A value passes exactly when the standard deviation s is positive and the value lies strictly within 3s of the mean. |
| `ZScore.LibraryScoreAgrees` | src/data_transformation.py:245-246 | The library's score `(x - m) / s` passes abs(z) < 3 exactly when the value is within three standard deviations. |
| `ZScore.ScoresAgree` | src/data_transformation.py:245-246 | For every column and its standard deviation, the library's score passes abs(z) < 3 exactly when the three-sigma test holds for that row. |
| `ZScore.LibraryMask` | src/data_transformation.py:240-247 | With the library's scores of the frame's features, a row's final bit is set exactly when every screened feature passes the three-sigma test at that row. |
| `ZScore.NaNEmptiesFrame` | src/data_transformation.py:240-249 | A NaN anywhere in one screened feature empties the written frame. |
| `ZScore.ConstantRejectsAll` | src/data_transformation.py:245-246 | A feature with one value throughout rejects every row, because its scores are 0/0. |
| `ZScore.AtMostANinthRejected` | src/data_transformation.py:245-246 | A feature with no NaN and a positive variance rejects at most a ninth of the rows (Chebyshev's inequality). |
| `ZScore.FarReadingIsRejected` | src/data_transformation.py:245-246 | Of sixteen readings at 0 and one at 1, the reading at 1 has z = 4 and is rejected, and the sixteen at 0 (z = -1/4) are kept. |

## Left out

- File I/O is not modelled: the CSV reads at lines 49-50 and 91, the writes at lines 72 and 251, and `os.makedirs`. The frames are parameters.
- Logging and the `CustomException` wrapping are not modelled.
- The configuration dataclass is not modelled.
- `transforming_dtype` (lines 81-111) is not modelled. Its `to_numeric` and `to_datetime` coercions are library semantics, so cells arrive already typed.
- The order of the groups is not modelled. `groupby` sorts the merged rows by key; the model emits them in first-occurrence order. Row order in `FinalAir` is therefore not claimed, only its contents and size.
- The join's column layout is not modelled. A joined row keeps its weather row and its air row side by side. The `_x`/`_y` renaming, the positional drop `df.iloc[:, 2:]` (line 70) and the drop of `data_ref_y` (line 123) are left out.
- The averaged features (lines 206-215) and the column drop (lines 218-239) are not modelled. They are column arithmetic on floating-point values.
- The log transform (lines 232-236) has no effect on the model. `0 in df[feature]` tests the frame's index, which holds 0 for any non-empty frame, so the `np.log` branch is never taken on a non-empty frame. On an empty frame it runs on an empty column and changes nothing. Only the outlier mask is modelled.
- The return value at line 254 is not modelled. It is the unfiltered frame; only the CSV gets the filtered one. The model gives the filtered frame as `OutlierFilter.Filtered` and makes no claim about what is returned.
- Floating point is not modelled: means, variances and medians are exact reals.
- OutlierFilter.OutlierMask: takes the per-feature z-scores as data, not the frame. `stats.zscore` is a library call. `ZScore` states what its test decides on the raw values.
- OutlierFilter.FilterByMask: its own contract fixes the count and which rows appear but not their order; the order and the exact row at each position are stated by `OutlierFilter.FilterByMaskPositions`.
- ZScore.FeatureValues: reads any non-number cell as NaN. For a text cell pandas would raise instead.
- ZScore.Scores: how `stats.zscore` treats a NaN and a zero spread is library behaviour that the model states in the definition of `Scores` (every score NaN) instead of deriving it. The standard deviation is a parameter tied to the variance by `s * s == Variance`, because the model has no square root.
- A missing key column is not modelled as an error. pandas raises `KeyError` when `data_ref` (lines 58, 61, 65), `date` (line 69), a mapped column (lines 199, 202) or a screened feature is absent. The model reads an absent column as NaN instead. `KeyPartition`, `InnerJoin`, `MergeStage.DropDuplicatesMerge` and `Vocabulary.ReplaceColumn` therefore accept frames the source rejects. The model assumes those columns are present, as they are in the pipeline's CSV files.
- Imputation.ImputeMedians: `median` on a date column is not modelled. A column with NaN is treated as failing when it holds text and otherwise takes the exact median of its numbers.
- The empty string is an ordinary value. `merge_rows` tests only NaN, None, `"-"` and `"--"` (line 35), so the model treats `""` as not blank.
