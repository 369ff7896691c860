# Metabolomics imputation helpers: sample table, missing-value statistics, data validation

A Dafny model of the three data-handling routines in `src/utils/helpers.py` of
the metabolomics imputation study (KNN versus Expectation-Maximization):

- **`get_sample_info`** builds the sample-information table from the
  configuration. For each group of `dataset.samples`, in the configured order,
  it emits `count` rows `{sample_id: "<group>_<i>", group, color}`, with
  i = 1 .. count. The colour comes from `visualization.colors`, or is
  `#999999` when the group has none. It is modelled as the method
  `SampleInfo.GetSampleInfo` with the two nested loops of the source, proved
  equal to the specification function `SampleInfo.SampleTable`.
- **`calculate_missing_percentage`** gives one statistics row
  `{feature, n_missing, pct_missing}` per column, sorted by `pct_missing`,
  largest first. It is a pure function, `MissingStats.CalculateMissingPercentage`.
  The sort is an insertion sort, and only what pandas promises is stated:
  a non-increasing order and a permutation of the columns. Each row keeps
  the position of its column, the index label the frame carries through the
  sort. The docstring says "per feature and sample", but the code computes
  per-feature statistics only, and the model follows the code.
- **`validate_data`** runs three checks in a fixed order: the row count, fully
  empty columns, fully empty rows. Each failed check appends one message, and
  the data is valid exactly when no message was appended. It is modelled as
  the method `Validation.ValidateData`, which builds the list step by step.
  The method is proved to return the rendering of the failed checks,
  `Validation.Issues`.

Data model:
- The configuration is not modelled as a whole. `dataset.samples` is a
  `seq<(string, int)>`, the dict's ordered items (`SampleInfo.Samples`).
  `visualization.colors` is a `map<string, string>`.
- A DataFrame is its column labels plus the `isnull()` mask, one
  `seq<bool>` per row (`Table.Frame`). `Table.Rectangular` says every row has
  one entry per column.
- `pct_missing` is an exact `real`.
- Python's integer formatting in f-strings is `Decimal.NatToString` and
  `Decimal.IntToString`. `Decimal.ParseNat` is the proved inverse of the
  first, and `Decimal.ParseInt` of the second.

Two points where the code is narrower than a first reading suggests:
- Ties in the statistics are not guaranteed to stay in column order.
  `sort_values` uses pandas' default quicksort, which is not stable, so no
  tie order is promised.
- The sample table does not always have as many rows as the group counts sum
  to. `range` skips a negative count, while the validator's `sum` subtracts
  it. `Validation.TableSizeMatchesExpected` states exactly when the two
  totals agree.

## Model

| member | source | states |
|---|---|---|
| `Decimal.NatToString` | src/utils/helpers.py:153 | the f-string rendering of a count is a non-empty run of decimal digits with no leading zero |
| `Decimal.IntToString` | src/utils/helpers.py:209 | a rendered integer is an optional '-' followed by digits, and starts with '-' exactly when it is negative |
| `Decimal.ParseIntToString` | src/utils/helpers.py:209 | reading a rendered integer back, sign included, gives the integer (round trip) |
| `Decimal.IntToStringInjective` | src/utils/helpers.py:209 | distinct expected totals, of either sign, render differently |
| `Decimal.ParseNatToString` | src/utils/helpers.py:153 | reading a rendered count back gives the count (round trip) |
| `Decimal.NatToStringInjective` | src/utils/helpers.py:153 | distinct indices render differently |
| `SampleInfo.RangeLength` | src/utils/helpers.py:151 | `range(count)` yields no values when `count <= 0` and exactly `count` otherwise, never fewer than `count` |
| `SampleInfo.ColorOf` | src/utils/helpers.py:155 | the colour is `colors[group]` when the group is configured, else `#999999`; it is always a configured colour or the default |
| `SampleInfo.SampleId` | src/utils/helpers.py:153 | an id is the group name, then '_', then the decimal numeral of the index |
| `SampleInfo.ParseSampleIdRoundTrip` | src/utils/helpers.py:153 | splitting `"<group>_<index>"` at its last '_' gives back the group and the index, for any group name |
| `SampleInfo.SampleIdInjective` | src/utils/helpers.py:153 | equal sample ids have equal groups and equal indices |
| `SampleInfo.SampleTable` | src/utils/helpers.py:149-158 | the table has as many rows as the counts sum to, a count of 0 or less adding none; each row's group is a configured group; its colour is `colors[group]` when present, else `#999999` |
| `SampleInfo.OffsetNext` | src/utils/helpers.py:150-151 | group k's rows start right after all the rows of the groups before it, so the groups follow one another in configured order |
| `SampleInfo.RowAt` | src/utils/helpers.py:150-156 | for each group k and 0-based i < count, the row at the group's offset plus i has id `<group>_<i+1>`, that group, and that group's colour |
| `SampleInfo.RowCovered` | src/utils/helpers.py:150-156 | every row of the table is row i of some group k, at the group's offset plus i |
| `SampleInfo.SampleIdsUnique` | src/utils/helpers.py:150-153 | with distinct group names, no two rows share a sample id |
| `SampleInfo.GetSampleInfo` | src/utils/helpers.py:147-158 | the nested append loops produce exactly `SampleTable(samples, colors)` |
| `Table.CountTrue` | src/utils/helpers.py:177 | a count of missing entries is at most the number of entries; it is 0 exactly when none is missing, and it is the full length exactly when all are missing |
| `Table.MissingInColumn` | src/utils/helpers.py:177 | a column's null count is at most the row count, and 0 exactly when no row misses that column |
| `Table.EmptyFeatureMask` | src/utils/helpers.py:213 | one flag per column, true exactly when every row misses that column (vacuously true with no rows) |
| `Table.EmptySampleMask` | src/utils/helpers.py:220 | one flag per row, true exactly when that row misses every column (vacuously true with no columns) |
| `Table.EmptyFeatureCount` | src/utils/helpers.py:213-214 | the number of completely empty columns is at most the column count; it is 0 exactly when no column is completely empty, and the column count exactly when all are |
| `Table.EmptySampleCount` | src/utils/helpers.py:220-221 | the number of completely empty rows is at most the row count; it is 0 exactly when no row is completely empty, and the row count exactly when all are |
| `Table.ColumnEmptyIff` | src/utils/helpers.py:213 | a column is completely empty exactly when its missing count equals the row count, which bounds every missing count |
| `Table.ZeroRows` | src/utils/helpers.py:213-220 | with zero rows every column counts as completely empty (pandas' `all()` over nothing), and no row does |
| `Table.ZeroColumns` | src/utils/helpers.py:213-220 | with zero columns every row counts as completely empty, and no column does |
| `MissingStats.Percent` | src/utils/helpers.py:178 | the percentage times the row count is 100 times the missing count, and it is never negative |
| `MissingStats.ColumnStat` | src/utils/helpers.py:175-178 | column j's row carries index j, feature `columns[j]`, `n_missing` at most the row count (0 exactly when nothing is missing, the row count exactly when all is), and `pct_missing` with `pct * rows = 100 * n_missing`, within [0, 100] |
| `MissingStats.ColumnStats` | src/utils/helpers.py:175-179 | the unsorted statistics frame has one row per column, row j being column j's row |
| `MissingStats.PercentBounds` | src/utils/helpers.py:178 | `n / rows * 100` lies in [0, 100] when `n <= rows` |
| `MissingStats.PercentMonotone` | src/utils/helpers.py:178-181 | for a fixed row count, percentages compare exactly as missing counts do |
| `MissingStats.Insert` | src/utils/helpers.py:181 | inserting a row adds exactly that row, and that feature, to the multiset of rows and of features |
| `MissingStats.InsertNonIncreasing` | src/utils/helpers.py:181 | insertion keeps a non-increasing order by `pct_missing` |
| `MissingStats.SortDescending` | src/utils/helpers.py:181 | the sort returns a permutation of its input, ordered by `pct_missing`, non-increasing |
| `MissingStats.CalculateMissingPercentage` | src/utils/helpers.py:175-183 | one row per column; the rows are a permutation of the per-column statistics; the features are a permutation of the columns; the order is non-increasing in `pct_missing` |
| `MissingStats.StatsAreColumnStats` | src/utils/helpers.py:175-181 | every output row is the row of the column its index names, j: feature `columns[j]`, `n_missing` that column's null count with `0 <= n_missing <= rows`, `pct_missing = n_missing / rows * 100` in [0, 100] |
| `MissingStats.EveryColumnReported` | src/utils/helpers.py:175-181 | every column's statistics row appears in the output |
| `MissingStats.OrderedByMissingCount` | src/utils/helpers.py:177-181 | the output is also non-increasing in `n_missing` |
| `Validation.ExpectedSamples` | src/utils/helpers.py:206 | the configured total never exceeds the number of rows `range` would generate, and equals it when no count is negative |
| `Validation.Message` | src/utils/helpers.py:208-223 | every message is non-empty and starts with 'E' exactly when it is the row-count message |
| `Validation.Issues` | src/utils/helpers.py:206-224 | every reported failure is genuine: a row-count failure carries the configured total and `len(data)` and they differ; an empty-feature or empty-sample failure carries a positive count equal to the number of completely empty columns or rows |
| `Validation.RowCountMessageInjective` | src/utils/helpers.py:208-210 | two row-count messages are equal only when both the expected total and the actual row count are equal |
| `Validation.FoundMessageInjective` | src/utils/helpers.py:215-224 | two "Found" messages are equal only when they come from the same check with the same count |
| `Validation.MessageInjective` | src/utils/helpers.py:208-224 | different failures always produce different messages |
| `Validation.MessagesInjective` | src/utils/helpers.py:203-224 | the returned list of messages determines the list of failures |
| `Validation.ValidateData` | src/utils/helpers.py:203-228 | the collected messages are the rendering of the failed checks in check order, and `is_valid` holds exactly when the list is empty |
| `Validation.IssuesInCheckOrder` | src/utils/helpers.py:206-224 | failures appear in the order row count, empty features, empty samples; each check adds at most one, so there are at most three |
| `Validation.RowCountCheck` | src/utils/helpers.py:206-210 | there is a row-count failure exactly when `len(data)` differs from the sum of the configured counts; it then comes first and carries both numbers |
| `Validation.EmptyFeatureCheck` | src/utils/helpers.py:213-217 | there is an empty-feature failure exactly when some column is missing in every row; it reports the number of such columns |
| `Validation.EmptySampleCheck` | src/utils/helpers.py:220-224 | there is an empty-sample failure exactly when some row is missing in every column; it reports the number of such rows |
| `Validation.ValidIff` | src/utils/helpers.py:206-226 | there are no failures exactly when the row count matches, no column is entirely missing and no row is entirely missing |
| `Validation.ZeroRowsInvalid` | src/utils/helpers.py:213-224 | a frame with columns but no rows always fails the empty-feature check, reporting all its columns, and never fails the empty-sample check |
| `Validation.ZeroColumnsInvalid` | src/utils/helpers.py:213-224 | a frame with rows but no columns always fails the empty-sample check, reporting all its rows, and never fails the empty-feature check |
| `Validation.TableSizeMatchesExpected` | src/utils/helpers.py:150-151 | the sample table never has fewer rows than the validator's expected total; the two are equal exactly when no configured count is negative |
| `Validation.SampleTablePassesRowCount` | src/utils/helpers.py:206-207 | a frame with one row per generated sample passes the row-count check exactly when no configured count is negative |

## Left out

- `load_config`: file reading and YAML parsing by a library. The model takes the parsed sections as parameters.
- Missing configuration keys: the source raises a key-lookup error. The modelled functions receive `dataset.samples` and `visualization.colors` directly, so that failure is not modelled.
- `setup_logging` and `create_directories`: directory creation, wall-clock timestamps and process-wide logging configuration.
- `save_results`: writes files through pandas and numpy serialisers.
- `set_random_seed`: it only changes global random-number-generator state.
- `generate_report_summary`: it depends on the current time and on 4-decimal float formatting.
- `export_session_info`: interpreter and platform introspection, a YAML dump and a file write.
- `setup.py`: packaging metadata only.
- `MissingStats.CalculateMissingPercentage`: requires at least one row. With zero rows pandas computes 0/0 and yields NaN percentages, which are not modelled. Percentages are exact rationals, not IEEE doubles.
- `MissingStats.SortDescending`: it is one particular sort. Only the order and the permutation are stated, which is all the source's unstable quicksort promises. The tie order it produces is not claimed to match pandas.
- `MissingStats.CalculateMissingPercentage`: returns a sequence of rows, not a DataFrame. The index label each row keeps after `sort_values` is carried as the `index` field; the DataFrame's own layout is not modelled.
- `SampleInfo.GetSampleInfo`: returns a sequence of rows, not a DataFrame. The column layout of `pd.DataFrame`, and its empty-table form with no columns, are not modelled.
- Counts are Python integers. Non-integer counts, which would make `range` raise an error, are not modelled.
- Column labels and group names are strings. Other hashable key types are not modelled, nor are duplicate column labels treated specially.
