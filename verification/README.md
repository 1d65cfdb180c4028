# A verified model of the `preprocess` pipeline

`preprocess` prepares the Bank Direct Marketing Campaigns table for training.
It reads a CSV file and works through a fixed sequence of stages:

1. It drops duplicate records.
2. It checks that the target column `y` exists and encodes its labels, "yes" as 1 and "no" as 0. Any other label aborts the run.
3. It can remove the records whose `age` lies outside the Tukey fences Q1 − 1.5·IQR and Q3 + 1.5·IQR.
4. It can replace `age` by an `age_group` category: Young, Adult, Senior or Elder.
5. It splits the features from the target.
6. It one-hot encodes the categorical features, dropping the first category of each.
7. It standardises the features, puts `y` back as the last column and writes the result.

The model is a pure functional Dafny version of stages 1 to 7, without file
I/O and without the standardised numbers.

- A table (`Frames.Table`) is a sequence of column names plus a sequence of rows.
- A row holds one cell per column.
- A cell (`Frames.Value`) is a number, a string or a missing value (NaN).
- Errors (`Frames.Failure`) are results, not exceptions. The model has three:
  - the missing target;
  - an invalid label;
  - the empty feature matrix that `get_dummies` or the scaler refuses.

Modules, one per stage:

- `Seqs`: mask selection, subsequences, lookup by first occurrence.
- `Frames`: the table and its column operations: read, assign, drop, select rows.
- `Dedup`: `drop_duplicates`.
- `Target`: the checks on `y` and its encoding.
- `Quantile`: linear-interpolation quartiles on exact reals.
- `Outliers`: the fences and the row filter.
- `Binning`: `pd.cut` with the fixed edges 0, 30, 45, 60, 100, and the replacement of `age`.
- `Categories`: the sorted distinct strings of a column.
- `OneHot`: `get_dummies(drop_first=True)`.
- `Pipeline`: the whole `preprocess`.
- `PipelineProperties`: end-to-end properties.

The model follows the code where the code and the prose around it differ:

- The docstring lists the target encoding after outlier handling and
  binning. The code encodes the target right after deduplication, so an
  invalid label is reported even when its row would have been filtered out.
  The model does the same.

Some facts about pandas that the model relies on:

- Quartiles follow `Series.quantile` with linear interpolation. The position
  is (n − 1)·q, NaN is skipped, and the neighbouring sorted values are
  interpolated.
- `pd.cut(..., right=True, include_lowest=True)` puts x in bin i when
  edges[i] < x ≤ edges[i+1], and also puts 0 in the first bin. Anything
  outside [0, 100] is NaN. The bins are right-closed, so 70 is Elder
  (`Binning.AgeGroupBands`).
- `get_dummies` picks the columns to encode by dtype, not by the cells they
  hold now. The dtypes are fixed when the file is read, before any row is
  removed:
  - `age_group` is categorical and keeps its declared categories, unused ones included.
  - A column that held a string when loaded has object dtype. It gets the
    sorted distinct strings it holds now, in Python code-point order, and no
    indicator at all if the outlier filter removed every string from it.
  - Numeric columns come first, unchanged. The indicator groups follow in
    column order and are named `<column>_<category>`.

## Model

| member | source | states |
|---|---|---|
| Dedup.Deduplicate | preprocessing/automate_Shelo_Rahma_Sari.py:45-46 | With the flag off the table is unchanged. With it on, the rows are the first occurrence of each distinct row in input order (the reference scan `Dedup.Unique`): an order-preserving subsequence with no two rows equal, every input row still has an equal row, the columns are unchanged and the count does not grow. |
| Dedup.FirstOccurrencesAreUnique | preprocessing/automate_Shelo_Rahma_Sari.py:46 | Keeping the rows not equal to an earlier row (pandas' `~duplicated(keep="first")`) gives the same result as an independent left-to-right scan that collects each row the first time it is seen. |
| Dedup.Unique | preprocessing/automate_Shelo_Rahma_Sari.py:46 | The reference scan returns rows without repetition, each taken from the input, with every input row present. |
| Dedup.DeduplicateIdempotent | preprocessing/automate_Shelo_Rahma_Sari.py:45-46 | Deduplicating a second time changes nothing. |
| Dedup.DeduplicateKeepsColumnValues | preprocessing/automate_Shelo_Rahma_Sari.py:45-46 | Every column holds the same set of values before and after deduplication, so a label is present afterwards exactly when it was present before. |
| Target.EncodeLabel | preprocessing/automate_Shelo_Rahma_Sari.py:51 | A label maps to a non-missing value exactly when it is "yes" or "no". The value is then 0 or 1, and it is 1 exactly for "yes". |
| Target.EncodeTarget | preprocessing/automate_Shelo_Rahma_Sari.py:49-54 | A missing `y` gives the missing-target error and nothing else does. Given `y`, some label other than "yes"/"no" gives the invalid-target error, in both directions. On success the columns and row count are unchanged, each `y` is 0 or 1 with 1 exactly where the label was "yes", and every other column is untouched. |
| Pipeline.EncodedOutcome | preprocessing/automate_Shelo_Rahma_Sari.py:45-54 | Deduplication runs before the checks on `y`, and the checks fail on the deduplicated table exactly when they would fail on the raw input. On success the encoded table keeps the raw columns, has the deduplicated row count and holds only 0/1 targets. |
| Outliers.Numbers | preprocessing/automate_Shelo_Rahma_Sari.py:58-59 | The numbers `Series.quantile` sees are the numbers of the column, each as often as it occurs there: missing and non-numeric cells are skipped. |
| Quantile.Sort | preprocessing/automate_Shelo_Rahma_Sari.py:58-59 | The sorted ages are in non-decreasing order and are a permutation of the input. |
| Quantile.Quarter | preprocessing/automate_Shelo_Rahma_Sari.py:58-59 | A linearly interpolated quartile of sorted data lies between the smallest and the largest value. |
| Quantile.QuarterBetween | preprocessing/automate_Shelo_Rahma_Sari.py:58-59 | The quartile lies between the two sorted neighbours of its position (n − 1)·q, and it equals the lower neighbour when the position is whole. |
| Quantile.QuarterMonotone | preprocessing/automate_Shelo_Rahma_Sari.py:58-59 | Quantiles grow with the fraction, so Q1 ≤ Q3. |
| Outliers.AgeFence | preprocessing/automate_Shelo_Rahma_Sari.py:58-62 | Q1 ≤ Q3, the lower fence is at most Q1 and the upper fence at least Q3, so lo ≤ hi. When the column holds a number, some age is ≤ Q1 and some age is ≥ Q3. |
| Outliers.FilterAgeOutliers | preprocessing/automate_Shelo_Rahma_Sari.py:57-63 | With the flag off or without an `age` column, the table is unchanged. Otherwise the rows are an order-preserving subsequence, every kept row has a number within [lo, hi] as its age, and every input row whose age is within [lo, hi] is kept, with all its copies: each row occurs in the output exactly as often as in the input when admitted, and not at all otherwise. Every column keeps its surviving values in order. |
| Outliers.AdmitSelection | preprocessing/automate_Shelo_Rahma_Sari.py:63 | Selecting by the mask `(age >= lo) & (age <= hi)` keeps exactly the admitted rows, in order and with their multiplicities, and thins every column alike. |
| Frames.SelectRowsColumn | preprocessing/automate_Shelo_Rahma_Sari.py:63 | Reading a column after selecting rows by a mask is the same as selecting from that column by the mask. |
| Binning.SearchLeft | preprocessing/automate_Shelo_Rahma_Sari.py:68-73 | The search position splits the increasing edges into those strictly below x and those at or above x. |
| Binning.CutIndex | preprocessing/automate_Shelo_Rahma_Sari.py:68-73 | A value gets a bin exactly when it lies within [first edge, last edge]. Bin i then satisfies edges[i] < x ≤ edges[i+1], or x equals the lowest edge and i = 0. |
| Binning.AgeGroup | preprocessing/automate_Shelo_Rahma_Sari.py:68-73 | The label of one age is missing or one of the four age labels. |
| Binning.AgeGroups | preprocessing/automate_Shelo_Rahma_Sari.py:68-73 | `pd.cut` over a column gives one label per age, the label of that age. |
| Binning.AgeGroupBands | preprocessing/automate_Shelo_Rahma_Sari.py:68-73 | Young holds exactly [0, 30], Adult (30, 45], Senior (45, 60], Elder (60, 100]. Every other age gets no group. |
| Binning.ReplaceAge | preprocessing/automate_Shelo_Rahma_Sari.py:67-74 | `age` is gone and `age_group` is present, holding the group of each row's age. The other columns are unchanged, the row count is kept, and the column order is the old one without `age`, with `age_group` appended when it is new. |
| Binning.BinAge | preprocessing/automate_Shelo_Rahma_Sari.py:67-74 | With the flag off or without `age`, the table is unchanged. Otherwise it is the replacement above. |
| Frames.DropColumn | preprocessing/automate_Shelo_Rahma_Sari.py:74 | The dropped column is gone, the other columns keep their order and values, and the row count is kept. |
| Frames.SetColumn | preprocessing/automate_Shelo_Rahma_Sari.py:68 | After `df[c] = vs` the column `c` reads back as `vs`. It stays in place if it existed and is appended otherwise, and every other column is unchanged. |
| Pipeline.Split | preprocessing/automate_Shelo_Rahma_Sari.py:77-78 | The features are the table without `y`, with the other columns in order and unchanged. The target is the `y` column, with one value per row. |
| Categories.Levels | preprocessing/automate_Shelo_Rahma_Sari.py:81 | The categories of a string column are strictly sorted in code-point order and are exactly the strings that occur in it. |
| Categories.ReferenceIsSmallest | preprocessing/automate_Shelo_Rahma_Sari.py:81 | The dropped reference category is smaller than every other string of the column. |
| OneHot.EncodingOf | preprocessing/automate_Shelo_Rahma_Sari.py:81 | A column passes through exactly when it is neither categorical nor object. A categorical column uses its declared categories; an object column uses the strictly sorted strings it holds. |
| OneHot.Plan | preprocessing/automate_Shelo_Rahma_Sari.py:81 | The column at position j passes through exactly when its dtype is numeric. |
| OneHot.EncodingFor | preprocessing/automate_Shelo_Rahma_Sari.py:81 | The treatment of a named column follows its dtype: declared categories, the strings it holds, or pass-through. |
| OneHot.GetDummies | preprocessing/automate_Shelo_Rahma_Sari.py:81 | Given dtypes under which no numeric column holds a string, the encoded table has one row per input row and holds no string. |
| OneHot.GetDummiesColumns | preprocessing/automate_Shelo_Rahma_Sari.py:81 | Columns of numeric dtype pass through with their values. Every category after the first of a categorical or object column gets a column `<column>_<category>`. Every output column is one of these two kinds. |
| OneHot.IndicatorColumn | preprocessing/automate_Shelo_Rahma_Sari.py:81 | When the output names are distinct, the indicator column of category l of column c holds 1 exactly in the rows whose c is l, and 0 elsewhere. |
| OneHot.AtMostOneHot | preprocessing/automate_Shelo_Rahma_Sari.py:81 | Within a group at most one indicator is set. One is set exactly when the value is a kept category, and none is set for the dropped reference category. |
| Pipeline.Encoded | preprocessing/automate_Shelo_Rahma_Sari.py:45-54 | On success the encoded table is well formed, keeps the raw columns and has at most the raw row count, and every column other than `y` is the deduplicated column unchanged. |
| Pipeline.Prepared | preprocessing/automate_Shelo_Rahma_Sari.py:57-74 | After the row filters and binning the table is well formed, still has `y`, has at most the encoded row count, and its `y` is an order-preserving subsequence of the encoded `y`. |
| Pipeline.ObjectColumns | preprocessing/automate_Shelo_Rahma_Sari.py:37 | A column has object dtype exactly when it holds some string, so every other column holds no string. |
| Pipeline.FeatureDtypes | preprocessing/automate_Shelo_Rahma_Sari.py:37-81 | The dtypes fixed before the row filters describe the encoded table, and the object columns are exactly those holding a string there. `age_group` is the only categorical column, with the four age labels, and it is one exactly when binning is on and `age` exists. |
| Pipeline.PreparedDescribed | preprocessing/automate_Shelo_Rahma_Sari.py:37-81 | The dtypes fixed before the row filters still describe the features after them: no numeric column gains a string. |
| Pipeline.EmptiedObjectColumnDropped | preprocessing/automate_Shelo_Rahma_Sari.py:57-81 | An object column left without strings gets no categories; when its name has no `_`, so that no indicator can carry it, it does not reach the encoded table. |
| OneHot.ObjectGroupOneHot | preprocessing/automate_Shelo_Rahma_Sari.py:81 | The categories of an object column are distinct, so at most one indicator of its group is set, and one is set exactly when the value is a kept category. |
| Pipeline.TargetNotInMatrix | preprocessing/automate_Shelo_Rahma_Sari.py:77-81 | No encoded feature column is named `y`, since indicator names carry a `_` after the source column name. |
| Pipeline.Assemble | preprocessing/automate_Shelo_Rahma_Sari.py:88-89 | The output has the feature columns followed by `y`, whose column reads back as the target values in row order, and the feature columns are unchanged. |
| Pipeline.Finish | preprocessing/automate_Shelo_Rahma_Sari.py:77-89 | The empty-matrix error occurs exactly when no row or no feature column is left. Otherwise the output has the rows of the prepared table, the encoded feature columns then `y`, the prepared `y` values in order, and no string among the features. |
| Pipeline.Preprocess | preprocessing/automate_Shelo_Rahma_Sari.py:45-89 | The missing-target and invalid-target errors occur exactly in the cases the source raises them. On success: 0 < output rows ≤ deduplicated rows ≤ raw rows; `y` is the last column and appears nowhere else; the output `y` is an order-preserving subsequence of the encoded target, all 0/1; no feature cell is a string. |
| Pipeline.PreparedTargetBinary | preprocessing/automate_Shelo_Rahma_Sari.py:53-74 | The outlier and binning stages leave only encoded 0/1 values in `y`. |
| PipelineProperties.WithoutRowFilters | preprocessing/automate_Shelo_Rahma_Sari.py:45-89 | With deduplication and outlier handling off, every input row reaches the output, and output `y` is 1 exactly where the input label at the same position is "yes". |
| PipelineProperties.BinnedColumns | preprocessing/automate_Shelo_Rahma_Sari.py:67-89 | With binning on and an `age` column present, the output has no `age` column and has `age_group_Adult`, `age_group_Senior` and `age_group_Elder`. |
| PipelineProperties.GroupIndicators | preprocessing/automate_Shelo_Rahma_Sari.py:68-81 | The categorical `age_group` column yields the indicators of Adult, Senior and Elder; Young is the dropped reference category. |
| PipelineProperties.NumericFeatureSurvives | preprocessing/automate_Shelo_Rahma_Sari.py:77-89 | A feature column of numeric dtype reaches the output with its prepared values. |
| PipelineProperties.AgeKeptWithoutBinning | preprocessing/automate_Shelo_Rahma_Sari.py:57-89 | With binning off, an `age` column without strings stays a feature of the output, and its values are ages of the input. |
| PipelineProperties.NumericColumnKept | preprocessing/automate_Shelo_Rahma_Sari.py:45-89 | Any other numeric column reaches the output as a feature whose values all come from the same input column. |
| PipelineProperties.OutOfRangeAgeLooksYoung | preprocessing/automate_Shelo_Rahma_Sari.py:68-81 | An age outside [0, 100] gets no group, and its indicators are all zero, the same as those of a Young row. |

## Left out

- Reading and writing the CSV files, the existence check of the input, the creation of the output directory and the returned path (lines 33-37, 91-94): file I/O. The model starts from the loaded table and ends with the table that would be written.
- `parse_args` and the command-line entry point (lines 97-141): argument parsing and printing.
- `df.isnull().sum()` (line 42): its result is discarded.
- The numbers produced by `StandardScaler` (lines 84-85): floating-point mean and standard deviation inside a foreign library. The model's feature cells are the values before standardisation. Only the refusal of a matrix with no rows or no columns is modelled, as the `EmptyMatrix` error; when no feature column exists at all, `get_dummies` already fails on it, and the run aborts either way.
- Floating point in general: quartiles and fences are computed on exact reals.
- pandas' dtype inference. Loaded cells are numbers, strings or missing. A column holding some string when loaded has object dtype, and any other column is numeric. Boolean columns and pandas' renaming of duplicate CSV headers are not modelled; `Preprocess` requires distinct column names, which `read_csv` guarantees.
- Outliers.AgeFence: pandas raises on an `age` column with strings. The model instead treats such cells like NaN, so they are never admitted by the fences. Without any number the source's quartiles are NaN; the model uses placeholder fences that admit nothing.
- Binning.AgeGroup: a string age, which makes pandas raise, gets no group.
- OneHot.GetDummies: in a string column that also holds numbers, pandas makes the numbers categories too. The model gives their cells all-zero indicators.
- OneHot.IndicatorColumn: when two output columns share a name, which pandas allows, `Column` reads the first of them. The lemma is stated only for distinct names.
- Pipeline.Preprocess: its contract says only that the empty-matrix error implies the target checks passed. The exact condition, no row or no feature column left, is stated by `Pipeline.Finish`.
- The standardised values of the `age` column when binning is off: PipelineProperties.AgeKeptWithoutBinning states that the column is present and holds input ages, which are its values before scaling.
