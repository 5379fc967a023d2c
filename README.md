# Earthquake-damage data preparation, modelled in Dafny

This project models the table logic of an earthquake-damage classification
pipeline. The pipeline prepares survey tables and hands them to machine-learning
libraries. The model covers three operations:

- `align_features`: gives a test table the training table's columns. Training
  columns the test table lacks are added to the test object itself, filled
  with 0. The result is then projected onto the training columns, in training
  order.
- `remove_outliers`: keeps the rows whose value in one column is at most a
  threshold.
- `build_competition_tables` and `build_original_table`: left outer joins on
  `building_id`. They attach the damage labels to the competition training
  features, and the ownership-and-use attributes to the structure records.

A table (a pandas DataFrame) is modelled as a `Frame`: an ordered list of
distinct column labels, plus a sequence of rows. Each row maps every column
label to a cell. A cell is `Option<Value>`: `None` is pandas' missing value
(NaN), and a `Value` is a number (`real`, which embeds the integers) or a
categorical string. `WellFormed` is the model's own invariant: column labels
are unique, and every row has exactly the table's columns. pandas itself allows
duplicate column labels. The model requires unique ones of every table it
operates on. A `Frame` has no row index: rows are identified by position only.

Files:

- `wrappers.dfy`: `Option` and `Result`.
- `tables.dfy`: the data model. It holds the two pandas primitives the code
  relies on, `df[c] = v` (`Assign`) and `df[cols]` (`Select`). It also holds
  the class `DataFrame`, a mutable table object. `align_features` changes such
  an object in place.
- `preprocess.dfy`: `align_features`, as the imperative method `AlignFeatures`
  over `DataFrame` objects. It is proved against the specification function
  `Aligned`. This file also holds `remove_outliers`, as the function
  `RemoveOutliers`, with lemmas.
- `dataset.dfy`: the left join, as recursive functions over the left rows,
  plus the two builders and lemmas about them.

Both builders and `remove_outliers` are functions on values. So they cannot
modify their input tables, and `build_competition_tables` returns `test` as
given.

Two behaviours of the code shape the model:

- `align_features` writes the new columns into the caller's `test_df`
  (src/preprocess.py:25-26), so `AlignFeatures` modifies its `test` argument.
  Its postconditions state that side effect.
- pandas evaluates `NaN <= threshold` as false, so `remove_outliers` drops the
  rows whose value in the filtered column is missing (src/preprocess.py:32).
  `AtMost` is false for `None`.

## Model

| member | source | states |
|---|---|---|
| Tables.Assign | src/preprocess.py:26 | `df[c] = v` keeps the table well formed. It appends `c` after the existing columns unless `c` is already one of them. It keeps the row count, puts `v` in column `c` of every row, and leaves every other cell unchanged |
| Tables.Select | src/preprocess.py:27 | `df[cols]` has exactly the columns `cols`, in that order, and the same number of rows. Each of its cells is the original row's cell |
| Tables.DataFrame.SetColumn | src/preprocess.py:26 | assigning a column to a DataFrame object changes the object in place to `Assign` of its old contents, and keeps it well formed |
| Tables.DataFrame.Subframe | src/preprocess.py:27 | `df[cols]` on an object returns a fresh object holding `Select` of its contents |
| Preprocess.MissingColumns | src/preprocess.py:24 | a label is listed exactly when it is a training column and not a test column |
| Preprocess.AssignAll | src/preprocess.py:25-26 | assigning a sequence of columns one after another keeps the table well formed and keeps the row count |
| Preprocess.AssignAllColumns | src/preprocess.py:25-26 | after the assignments, the column set is the old columns plus the assigned ones. The old columns keep their positions, as a prefix |
| Preprocess.AssignAllCells | src/preprocess.py:25-26 | after the assignments, in any row, each assigned column holds the filler and each old column keeps its old cell, whatever the order of assignment |
| Preprocess.FilledCell | src/preprocess.py:24-26 | after the missing training columns are filled, in any order, a training column holds the test cell when the test table has that column, and 0 otherwise |
| Preprocess.Aligned | src/preprocess.py:22-27 | the aligned table is well formed, has exactly the training columns in training order, and has as many rows as the test table |
| Preprocess.AlignedCells | src/preprocess.py:27 | a row of the aligned table has a cell exactly for the training columns, so a test-only column is absent. A column in both tables carries the test table's cell, and a training-only column is 0 |
| Preprocess.AlignedIdempotent | src/preprocess.py:24-27 | aligning an aligned table again against the same training columns gives the same table |
| Preprocess.AlignedAnyFillOrder | src/preprocess.py:24-27 | filling the missing columns in any order, then projecting, gives `Aligned`. So the unordered loop over a set has a single outcome |
| Preprocess.FilledTestTable | src/preprocess.py:24-26 | filling the missing training columns in any order keeps the test table well formed with its row count. Its old columns stay first, in order, with their cells. Exactly the missing training columns are added, each 0 in every row |
| Preprocess.FillMissing | src/preprocess.py:24-26 | the loop assigns, on the test object itself, each training column the test table lacks, one at a time in an unspecified order. It adds exactly those columns and keeps the object well formed |
| Preprocess.AlignFeatures | src/preprocess.py:22-27 | returns a fresh table equal to `Aligned(train columns, old test)`, and equal to the mutated test table projected onto the training columns. The test object keeps its row count and its old columns as a prefix. It gains exactly the missing training columns, all 0, and its old cells are unchanged. The training table's columns are unchanged |
| Preprocess.KeepRows | src/preprocess.py:32 | the kept rows are input rows that pass `row[column] <= threshold`, and there are no more of them than input rows |
| Preprocess.RemoveOutliers | src/preprocess.py:30-32 | a missing column raises KeyError. A string in the column raises TypeError, and no other table does. On success, the columns are unchanged, the table stays well formed, the result is no longer than the input, every returned row is an input row with a value present and `<= threshold`, and the rows are `KeepRows` of the input rows, the sequence the filtering lemmas describe |
| Preprocess.KeepRowsAppend | src/preprocess.py:32 | filtering a concatenation is the concatenation of the filtered parts, so kept rows stay in input order |
| Preprocess.KeepRowsExact | src/preprocess.py:32 | a row that passes the mask is kept exactly as often as it occurs. Any other row, including one with a missing value, is dropped |
| Preprocess.KeepRowsIdempotent | src/preprocess.py:32 | filtering twice equals filtering once |
| Preprocess.RemoveOutliersExact | src/preprocess.py:32 | a successful result holds each input row with a value `<= threshold` as often as the input does, so a row exactly at the threshold is kept. It holds no other row |
| Preprocess.RemoveOutliersIdempotent | src/preprocess.py:32 | applying `remove_outliers` to its own result returns the same result |
| Dataset.NonKey | src/dataset.py:79 | the right-hand columns added by the join are the right columns other than the key, without repeats |
| Dataset.KeyCount | src/dataset.py:79 | the number of right rows with a given key is zero exactly when no right row has that key |
| Dataset.MatchRows | src/dataset.py:79 | a left row yields one joined row per right row with the same key |
| Dataset.MatchRowsMembers | src/dataset.py:79 | the joined rows for a left row are exactly its combinations with the right rows that have the same key |
| Dataset.MatchRowsAppend | src/dataset.py:79 | matching a left row against a concatenation of right rows is the concatenation of the matches, so a left row gets one row per matching right row, repeats included, in right-table order |
| Dataset.JoinRow | src/dataset.py:79 | a left row yields as many rows as it has matches, or one row when it has none |
| Dataset.JoinRowExtends | src/dataset.py:79 | every row produced for a left row carries all of that left row's cells |
| Dataset.JoinRows | src/dataset.py:79 | the join output has at least as many rows as the left table |
| Dataset.JoinRowKeys | src/dataset.py:79 | each output row of one left row has that row's columns plus the right table's non-key columns |
| Dataset.JoinRowsKeys | src/dataset.py:79 | every output row has the left columns plus the right table's non-key columns |
| Dataset.LeftJoin | src/dataset.py:79 | a key missing from either table raises KeyError, and nothing else fails. On success, the output is well formed, its columns are the left columns followed by the right non-key columns (the key appears once), it has at least as many rows as the left table, and its rows are `JoinRows` of the left rows, the sequence the join lemmas describe |
| Dataset.JoinRowsAppend | src/dataset.py:79 | joining a concatenation of left rows is the concatenation of the joins, so the output follows left-table order |
| Dataset.JoinRowMembers | src/dataset.py:79 | a row is produced for a left row exactly when it combines that row with a right row of equal key, or when no right row has that key and it is the left row padded with missing cells |
| Dataset.JoinRowsMembers | src/dataset.py:79 | a row is in the output exactly when it is joined in that way from some left row |
| Dataset.LeftRowsInOrder | src/dataset.py:79 | every left row appears in the output, carrying all its cells. Left row `i` appears before every later left row |
| Dataset.JoinRowsOneToOneLength | src/dataset.py:79 | when each left key has exactly one match, the output has exactly as many rows as the left table |
| Dataset.OneMatchRow | src/dataset.py:79 | a left row whose key has exactly one match yields exactly one row, the left row combined with that match |
| Dataset.JoinRowsOneToOneAt | src/dataset.py:79 | when each left key has exactly one match, output row `i` is left row `i` combined with its matching right row |
| Dataset.BuildCompetitionTables | src/dataset.py:66-80 | fails with KeyError exactly when `building_id` is missing from `train` or `labels`. Otherwise it returns the left join of `train` with `labels`, which is well formed, has the train columns followed by the label columns and at least as many rows as `train`, and whose rows are `JoinRows` of the train rows. It returns `test` unchanged |
| Dataset.CompetitionFullyLabelled | src/dataset.py:79 | when the labels have exactly one row per training `building_id` and no label is missing, the merged table has exactly one row per training row, in order. Each row carries its training cells and a `damage_grade` that is present |
| Dataset.ThreeBuildingsFullyLabelled | src/dataset.py:79 | buildings 1, 2 and 3 with grades 1, 2 and 3 give exactly three merged rows. Each has its training cells and a present `damage_grade` |
| Dataset.BuildOriginalTable | src/dataset.py:83-95 | the same left-join contract, with `structure` as the left table, `owner` as the right table and `building_id` as the key, including that its rows are `JoinRows` of the structure rows |

## Left out

- `one_hot_encode` (src/preprocess.py:12-14): a bare `pandas.get_dummies` call. Its column naming and ordering are pandas internals.
- `split_train_val` (src/preprocess.py:17-19): a seeded random shuffle inside scikit-learn.
- `smote_oversample` (src/preprocess.py:35-39): SMOTE's random floating-point interpolation inside imbalanced-learn.
- `load_competition_raw`, `load_original_raw` and `make_interim_comp` (src/dataset.py:28-63, 99-126): CSV reading, directory creation, Parquet writing and the command line. All of this is I/O.
- src/modeling/train.py and src/modeling/predict.py: pipeline construction, Bayesian hyperparameter search, prediction and CSV I/O are calls into foreign libraries. The `reindex` in src/modeling/predict.py:44 does the same reconciliation as `align_features` and is not modelled separately.
- Dataset.LeftJoin: does not model pandas' `_x`/`_y` suffixing of non-key columns that both tables share. It requires the non-key columns to be disjoint.
- Dataset.BuildCompetitionTables, Dataset.BuildOriginalTable: inherit that requirement from `Dataset.LeftJoin`. `DisjointExceptKey` must hold for `train` and `labels`, and for `structure` and `owner`.
- Dataset.LeftJoin: does not model the error pandas raises when the two key columns have incompatible dtypes. A numeric key simply never matches a string key. Missing keys match each other, as they do in pandas.
- Tables.Select: `df[cols]` is modelled only for labels the table has, which `align_features` guarantees.
- Duplicate column labels: pandas allows them, but every operation of the model requires `WellFormed`, whose labels are unique. What pandas does with a repeated label (selecting several columns under one name, merging them) is not modelled.
- Row index: a `Frame` has no index labels. pandas keeps the input's index labels in `df[df[column] <= threshold]` (src/preprocess.py:32) and in `test_df[train_df.columns]` (src/preprocess.py:27), and `merge` returns a fresh 0..n-1 index (src/dataset.py:79). The model keeps only row order, so it does not say which labels the rows carry.
- Tables.Value: numbers are exact reals. pandas compares float64 and int64 values. The model does not cover a NaN threshold, for which every `<=` is false and an object column raises no TypeError in pandas. Nor does it cover a ±inf threshold, under which every finite value is `<= +inf` and none is `<= -inf`. It also does not cover infinite cells, float rounding of large integers in `<=`, or boolean cells, which compare as 0 and 1. `RemoveOutliers` takes a real threshold only.
- Column dtypes are not modelled. The filler 0 is the number 0, and an integer column with missing values stays a column of numbers and `None`.
