# Data cleaner — a Dafny model

This project models the three table transformations of `Data_Cleaner.py`.
Together they form a linear cleaning pipeline over an in-memory table:

1. `clean_missing_values(df, strategy)` visits the columns once, left to right.
   - A column without nulls is skipped.
   - A textual (`object`) column has its nulls filled with the column's mode.
   - A numeric column is handled by the strategy tag:
     - `mean` fills the nulls with the mean of the column's values;
     - `median` fills them with the median;
     - `drop` deletes every row that is null in that column;
     - any other tag does nothing.
2. `remove_outliers(df, z_thresh)` keeps a row only if its z-score has magnitude strictly below `z_thresh` in every numeric column.
3. `clean_inconsistent_entries(df)` replaces every textual cell by its whitespace-stripped, lower-cased form.

## How the table is modelled

- `Tables.Table` is a list of columns plus a sequence of rows.
- A column has a name and a kind: `Numeric` or `Textual`.
- Each cell is an `Option<Value>`: `None` is the null marker. A `Value` is `Num(real)` or `Text(string)`.
- Columns are addressed by position. A column's name is carried but never looked up.
- `Tables.WellFormed` says that every row has one cell per column, and that each non-null cell holds a value of its column's kind.
- Every stage is a pure function from a table to a table. The in-place pandas updates become new values.
- The imputer is a fold over column indices (`Imputer.CleanFrom`). Column `k` is processed on the table that columns `0..k-1` left behind. This matters under `drop`: a drop changes later columns' null counts and textual modes, exactly as in the Python loop. The strategy is fixed for the whole call, so no mean or median is taken after a drop.
- Row filtering is stated once, in `Selection`. `Select(xs, keep)` keeps the elements whose mask entry holds. `Kept(keep)` lists the indices of those elements in increasing order.
- Statistics are exact over `real`, in `Stats`:
  - the sum and the mean;
  - the population variance (ddof 0, as `scipy.stats.zscore` uses);
  - the median (an insertion sort, then the middle value or the average of the two middle values);
  - the mode (`Stats.MostFrequentOf`). Among tied values it picks the first candidate.
- The z-score test `|x - mean| / sqrt(var) < z` is written without a square root as `Outliers.ZScoreBelow`: `var > 0 && z > 0 && (x - mean)^2 < z^2 * var`. The lemma `Outliers.ZScoreBelowMatchesDivision` proves that this agrees with the division form for the positive standard deviation.
- Stripping uses exactly the 29 code points that Python's `str.isspace` accepts.
- Lower-casing covers ASCII and Latin-1 capitals.
- The strategy is the same free-form string the Python function receives.

### Edge cases where the code's behaviour is surprising

In these edge cases the code does something its function names do not suggest. The model does what the code does:

- **Numeric column with only nulls, strategy `mean` or `median`.** `mean()` and `median()` of no values are NaN. `fillna(NaN)` changes nothing, so the column keeps its nulls. There is no "empty column" error (`Imputer.ImputeColumn`).
- **Textual column with nulls and no values.** `mode()` returns an empty series, and `[0]` raises. This is modelled as `Failure(EmptyMode)` (`Imputer.ImputeColumn`).
- **Unknown strategy tag.** Numeric columns are left as they are. No configuration error is raised (`Imputer.CleanOtherStrategyKeepsNumeric`).
- **Constant numeric column.** It has zero variance. Every z-score in it is NaN, `NaN < z` is false, and so every row is removed, although no value in it stands out (`Outliers.RemoveOutliersConstantColumn`).
- **Numeric column that still holds a null when outliers are removed.** `zscore` propagates the NaN to the whole column, so every row is removed (`Outliers.RemoveOutliersNullColumn`).
- **Table with no numeric columns.** The row-wise `all()` over no columns is true, so every row is kept (`Outliers.RemoveOutliersNoNumericColumns`).

## Model

| member | source | states |
|---|---|---|
| `Tables.NullCount` | Data_Cleaner.py:18-19 | The null count of a column is zero exactly when every cell holds a value. |
| `Tables.NumValues` | Data_Cleaner.py:30 | The numbers the mean and median see: every number of a non-null cell occurs, nothing else does, and in a numeric column their count plus the null count is the number of cells. How often each occurs is stated by `Tables.NumValuesMultiplicity`. |
| `Tables.TextValues` | Data_Cleaner.py:24 | The strings the mode sees: every string of a non-null cell occurs, nothing else does, and in a textual column their count plus the null count is the number of cells. How often each occurs is stated by `Tables.TextValuesMultiplicity`. |
| `Tables.NumValuesMultiplicity` | Data_Cleaner.py:30-34 | Each number occurs among the values the mean and median see exactly as many times as a cell of the column holds it. |
| `Tables.TextValuesMultiplicity` | Data_Cleaner.py:24 | Each string occurs among the values the mode sees exactly as many times as a cell of the column holds it. |
| `Stats.CountIsMultiplicity` | Data_Cleaner.py:24 | The occurrence count the mode compares is the string's multiplicity in the values. |
| `Imputer.TextValuesCount` | Data_Cleaner.py:24 | The mode's count of a string equals the number of cells of the column holding it, so "most frequent" is over cells. |
| `Tables.FillNulls` | Data_Cleaner.py:25 | `fillna(v)` on one column leaves that column with no nulls. Each former null holds `v`. Every other cell and the row count are unchanged. |
| `Imputer.DropNullRows` | Data_Cleaner.py:38 | `dropna(subset=[column])` keeps exactly the rows whose cell in the column is non-null. Those rows stay whole and in order, and the row count drops by the number of nulls. |
| `Imputer.CleanMissingValues` | Data_Cleaner.py:15-41 | The cleaned table has the same columns and never more rows. Without `drop`, it has exactly as many rows. |
| `Imputer.ImputeColumn` | Data_Cleaner.py:17-39 | Visiting one column keeps the columns. It raises if and only if the column is textual, has nulls and has no value. A textual column then has no nulls, and every null holds the same most frequent value of the column. Except under `drop` on a numeric column, the row count and every non-null cell are kept. Under a strategy other than `drop`, a numeric column without values, or any numeric column under an unknown strategy, comes back unchanged. |
| `Imputer.ImputeDropColumn` | Data_Cleaner.py:37-38 | With `drop`, a numeric column loses exactly its null rows. The survivors keep their order and are whole, and the column is then null-free. |
| `Imputer.CleanMatchesReference` | Data_Cleaner.py:17-36 | Without `drop`, the left-to-right column loop equals imputing every column independently from the original table (`ImputeAtOnce`). |
| `Imputer.CleanWithoutDropKeepsCells` | Data_Cleaner.py:17-36 | Without `drop`, cleaning raises if and only if some textual column has nulls and no value. Otherwise the rows, the columns and every non-null cell are kept. |
| `Imputer.CleanFillsTextualWithMode` | Data_Cleaner.py:22-26 | Without `drop`, each textual null becomes a most frequent non-null value of its column. |
| `Imputer.CleanFillsNumericWithMean` | Data_Cleaner.py:29-32 | With `mean`, each null of a numeric column that has values becomes the mean of those values. |
| `Imputer.CleanFillsNumericWithMedian` | Data_Cleaner.py:33-36 | With `median`, each null of a numeric column that has values becomes their median. |
| `Imputer.CleanLeavesNoNullsWhereValuesExist` | Data_Cleaner.py:22-36 | With `mean` or `median`, any column that had at least one value has no nulls afterwards. |
| `Imputer.CleanOtherStrategyKeepsNumeric` | Data_Cleaner.py:29-39 | A strategy other than `mean`, `median` or `drop` leaves every numeric cell unchanged, nulls included, and keeps the row count. |
| `Imputer.CleanNoNullsUnchanged` | Data_Cleaner.py:17-19 | A table without nulls comes back unchanged, whatever the strategy. |
| `Imputer.CleanDropKeepsCompleteRows` | Data_Cleaner.py:17-38 | With `drop`, the result has no nulls. Its rows are exactly the input rows that have a value in every numeric column, in their original order, with every non-null cell kept. |
| `Stats.MostFrequentOf` | Data_Cleaner.py:24 | The chosen candidate occurs at least as often as every other candidate. |
| `Stats.Mode` | Data_Cleaner.py:24 | The mode of a non-empty column occurs in it, and no value occurs more often. |
| `Stats.Mean` | Data_Cleaner.py:30 | The mean lies between the values: some value is at most the mean and some value is at least it. |
| `Stats.Sort` | Data_Cleaner.py:34 | Sorting gives an ascending permutation of the values. |
| `Stats.Median` | Data_Cleaner.py:34 | The median lies between the values. At least half the values are at most the median, and at least half are at least the median. |
| `Stats.Variance` | Data_Cleaner.py:48 | The population variance is never negative, and it is zero if and only if all values are equal. |
| `Outliers.ZScoreBelowMatchesDivision` | Data_Cleaner.py:48-49 | The square-root-free z-score test agrees with `abs(d) / s < z` for a positive standard deviation `s`. |
| `Outliers.WithinThreshold` | Data_Cleaner.py:48-49 | A cell passes only if its column has no null, the column's variance is positive and the threshold is positive. In every other case the z-score is NaN or the threshold cannot be beaten, and the cell fails. |
| `Outliers.WithinThresholdMatchesZScore` | Data_Cleaner.py:48-49 | For one numeric column, case by case. A null in the column fails every row. Without nulls, the column has one number per row. A zero variance fails every row. For a standard deviation `s > 0` with `s * s` equal to the variance, a row passes exactly when `abs(x - mean) / s < z`. |
| `Outliers.RowWithinMatchesZScores` | Data_Cleaner.py:48-49 | Suppose every numeric column is null-free and has a positive standard deviation `sds[c]`. Then a row passes `(z_scores < z_thresh).all(axis=1)` exactly when `abs(x - mean) / sds[c] < z` holds for its cell in every numeric column. |
| `Outliers.RemoveOutliers` | Data_Cleaner.py:43-53 | The output has the same columns. Its rows are an order-preserving subsequence of the input, and a row is kept if and only if it is within the threshold in every numeric column. The removed count plus the output rows equals the input rows. |
| `Outliers.RemoveOutliersNoNumericColumns` | Data_Cleaner.py:45-49 | Without numeric columns, the table passes through unchanged and nothing is removed. |
| `Outliers.RemoveOutliersNullColumn` | Data_Cleaner.py:48-49 | A numeric column that still holds a null removes every row. |
| `Outliers.RemoveOutliersConstantColumn` | Data_Cleaner.py:48-49 | A constant numeric column removes every row. |
| `Outliers.RemoveOutliersNonPositiveThreshold` | Data_Cleaner.py:48-49 | A threshold at or below zero removes every row once a numeric column exists. |
| `Text.Lower` | Data_Cleaner.py:60 | The length is kept and no capital remains. Each capital moves 32 code points up to its small letter, and every other character is kept. |
| `Text.TrimStart` | Data_Cleaner.py:60 | Leading whitespace is removed, and what remains is a suffix that does not start with whitespace. |
| `Text.TrimEnd` | Data_Cleaner.py:60 | Trailing whitespace is removed, and what remains is a prefix that does not end with whitespace. |
| `Text.Strip` | Data_Cleaner.py:60 | `strip()` returns the slice of the string that starts right after its leading whitespace and has no whitespace at either end. Only whitespace lies on either side of it. |
| `Text.Normalize` | Data_Cleaner.py:60 | The normal form has no whitespace at either end and no capital letters. |
| `Text.NormalizeOfTrimmed` | Data_Cleaner.py:60 | A string without whitespace at its ends normalises to its lower-cased form. |
| `Text.NormalizeIgnoresOuterSpace` | Data_Cleaner.py:60 | One whitespace character before or after a non-empty trimmed string does not change its normal form. |
| `Text.StripDropsLeadingSpace` | Data_Cleaner.py:60 | A leading whitespace character does not survive stripping. |
| `Text.StripDropsTrailingSpace` | Data_Cleaner.py:60 | A trailing whitespace character does not survive stripping, whatever the string starts with. |
| `Text.NormalizeIdempotent` | Data_Cleaner.py:60 | Stripping and then lower-casing twice gives the same result as doing it once. |
| `Text.StripLowerCommute` | Data_Cleaner.py:60 | Stripping and lower-casing commute. |
| `Normalizer.CleanInconsistentEntries` | Data_Cleaner.py:55-65 | Each non-null textual cell `s` becomes the normalised `s`. Textual nulls stay null. Numeric cells, columns and the row count are unchanged. |
| `Normalizer.CleanInconsistentEntriesIdempotent` | Data_Cleaner.py:57-60 | Normalising the entries twice gives the same table as normalising them once. |
| `Normalizer.DistinctCountNotIncreased` | Data_Cleaner.py:59-62 | A textual column's distinct values afterwards are the normalised distinct values before, so `nunique()` never grows. |
| `Scenarios.MeanImputationExample` | Data_Cleaner.py:29-32 | With `mean`, the null in `[1, 2, null, 4]` becomes 7/3. |
| `Scenarios.ModeImputationExample` | Data_Cleaner.py:22-25 | Under every strategy, `drop` included, the textual null in `["a", "a", "b", null]` becomes `"a"`. |
| `Scenarios.OutlierRemovalExample` | Data_Cleaner.py:45-50 | With threshold 1, the column `[1, 2, 3, 4, 100]` loses only the row holding 100, and one row is counted as removed. |
| `Scenarios.NormalizationCollapseExample` | Data_Cleaner.py:60 | `"Apple"`, `" apple"` and `"APPLE "` all normalise to `"apple"`. |

## Left out

- `load_csv`, `save_cleaned_data` and `main` are not modelled. They are CSV file I/O, hard-coded paths and `FileNotFoundError` handling. `main` also fixes the pipeline order and passes `strategy='mean'` and `z_thresh=3` (lines 81-82).
- Default arguments are not modelled: `strategy='mean'` (line 15) and `z_thresh=3` (line 43) are parameter defaults in Python, while `Imputer.CleanMissingValues` and `Outliers.RemoveOutliers` take both arguments explicitly.
- The `print` diagnostics are not modelled. This includes the removed-row count message and the unique-count message; their values are `Outliers.Filtered.removed` and `Normalizer.DistinctValues`.
- pandas dtype inference is not modelled. Each column's kind is given and never changes. Boolean, datetime and mixed-type `object` columns are not modelled, so the NaN that `.str` methods give for a non-string cell is absent.
- Floating-point arithmetic is not modelled: means, medians, variances and z-scores are exact reals, so rounding, overflow and NaN values other than nulls do not arise.
- The pandas row index is not modelled; rows are identified by position.
- Column labels are assumed distinct, which `read_csv` ensures by renaming duplicates. The model addresses columns by position and never compares names. With a repeated label, `df[column]` is a DataFrame: `if missing_count > 0` (line 19) raises `ValueError` and `.str` (line 60) raises `AttributeError`, while the model succeeds.
- Whether `fillna(..., inplace=True)` writes through under pandas copy-on-write is not modelled; the model applies the intended per-column update.
- `Text.Lower`: lower-casing beyond ASCII and Latin-1 is not modelled, including Unicode mappings that change a string's length.
- `Stats.Mode`: pandas' `mode()[0]` takes the smallest of the tied values in sort order, while the model takes the first-encountered one. The contract only promises a most frequent value.
- `Imputer.CleanDropKeepsCompleteRows`: under `drop`, it says textual nulls become non-null, but not which value. The mode is taken over the rows that survived the drops of earlier columns. `Imputer.ImputeColumn` states the per-step value.
