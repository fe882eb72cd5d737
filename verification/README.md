# Customer ETL core: cleaning and per-state aggregation

This project models the core of a small batch ETL job over a customer table
(`data_pipeline_demo/src/pipeline.py`). The job has two steps.

- `transform` cleans the raw table. In order, it:
  - upper-cases the state;
  - parses the signup date and the spending amount, turning text it cannot read into a missing value;
  - keeps rows whose state is one of `SP`, `RJ`, `MG`, `PR`;
  - drops rows missing the id, name, date or amount;
  - drops negative amounts;
  - keeps, for each customer id, only its last row;
  - types the id as an integer.
- `compute_features` groups the clean table by state. For each state it gives the number of distinct customers, the total spending and the mean spending.

A table is modelled as the sequence of its rows in index order. Both steps are
pure functions over such sequences. Each builds a new table and never changes
its argument, as the private copy of the frame in `pipeline.py` (line 22) does.

Files:

- `wrappers.dfy` (`Wrappers`): `Option`. A missing cell (NaN / NaT) is `None`.
- `frame.dfy` (`Frame`): the table primitives the job calls:
  - boolean-mask selection (`Select`);
  - `drop_duplicates(subset=key, keep="last")` (`DedupLast`);
  - the set of distinct keys that `nunique` counts (`KeySet`).
- `order.dfy` (`Order`): the code-point lexicographic order in which `groupby` sorts its string keys, and sorted insertion.
- `pipeline.dfy` (`Pipeline`): the raw, typed and clean rows, and `transform`.
  - It also restates the same rules row by row: which rows are valid, and which rows survive.
  - It holds the finding below.
- `features.dfy` (`Features`): `compute_features`, and what its output promises on a clean table.

The date and number parsers (`pd.to_datetime` / `pd.to_numeric` with
`errors="coerce"`) are a parameter, `Parsers`. It is a pair of functions from
text to `Option`. Every result holds for every such pair.

Two consequences of the code are worth naming.

- **Deduplication runs after the filters.** The docstring of `transform` (`data_pipeline_demo/src/pipeline.py:20`) promises a unique id, keeping the last occurrence. Because `drop_duplicates` (line 37) runs after the filters of lines 30-34, the row kept is the last *valid* one: an earlier valid row survives a later invalid duplicate (`EarlierValidRowSurvivesInvalidDuplicates`).
- **The feature rows come out sorted by state.** `groupby("state", as_index=False)` (line 48) uses pandas' default `sort=True`, so `ComputeFeatures` emits its rows in increasing state order.

One step is modelled in corrected form: `Transform` deduplicates on the integer id, where `pipeline.py` deduplicates on the raw numeric id and casts afterwards. `TransformAsWritten` keeps the source's order; see "## Findings".

## Model

| member | source | states |
|---|---|---|
| Pipeline.Trunc | data_pipeline_demo/src/pipeline.py:40 | Casting a float id to `int64` truncates toward zero. The result is the integer part of the value: the largest integer not above it when it is non-negative, the smallest not below it when it is negative. |
| Pipeline.TruncIntegral | data_pipeline_demo/src/pipeline.py:40 | On a whole number the cast is exact. |
| Pipeline.Upper | data_pipeline_demo/src/pipeline.py:25 | Upper-casing keeps the length and leaves no lower-case letter. A letter `a`-`z` moves to its capital; every other character is unchanged. |
| Pipeline.UpperIdempotent | data_pipeline_demo/src/pipeline.py:25 | Upper-casing an already normalised state changes nothing. |
| Pipeline.StateText | data_pipeline_demo/src/pipeline.py:25 | `astype(str)` of a state cell: the cell's text, or "nan" when the cell is missing. |
| Pipeline.Coerce | data_pipeline_demo/src/pipeline.py:25-27 | Per-row normalisation: the state text upper-cased; the date and the amount run through the lenient parsers, a missing or unreadable cell giving `None`; id and name untouched. |
| Pipeline.NormalizeTypes | data_pipeline_demo/src/pipeline.py:25-27 | The whole-table normalisation: same length as the input, row `i` is the normalised row `i`. |
| Pipeline.MissingStateNotAllowed | data_pipeline_demo/src/pipeline.py:25-30 | A missing state becomes the text "nan" and then "NAN". That is not an allowed state, so such a row is always dropped. |
| Pipeline.ValidIff | data_pipeline_demo/src/pipeline.py:25-34 | A raw row passes the three filters exactly when all of these hold: it has an id and a name; its date text parses; its amount text parses to a non-negative number; it has a state whose upper-case form is allowed. Unparseable text drops the row rather than failing. |
| Pipeline.Filtered | data_pipeline_demo/src/pipeline.py:30-34 | Keeps the normalised rows that pass the state, `dropna` and `spending >= 0` filters, taken front to back; every row kept has an allowed state, all four required cells and a non-negative amount. |
| Pipeline.Typed | data_pipeline_demo/src/pipeline.py:40 | `astype({"customer_id": "int64"})` of one complete row: the id truncated, the other cells unwrapped. |
| Pipeline.TypeRows | data_pipeline_demo/src/pipeline.py:40 | The cast over the whole table: same length, row `i` is the typed row `i`. |
| Pipeline.Clean | data_pipeline_demo/src/pipeline.py:25-40 | A valid row's clean form has its truncated id, its name, the parsed date, the upper-cased state (an allowed one) and the parsed amount (which is >= 0). |
| Pipeline.Transform | data_pipeline_demo/src/pipeline.py:13-41 | The clean table is no longer than the input. Every row has an allowed state and a non-negative amount. No two rows share a customer id. (Corrected order of lines 37/40: deduplication on the integer id; see Findings.) |
| Pipeline.TransformSelectsSurvivors | data_pipeline_demo/src/pipeline.py:30-41 | Row `k` of the output is the clean form of the `k`-th *surviving* input row. A row survives when it is valid and no later valid row has the same integer id. The positions are strictly increasing and every surviving row appears, so the output is a subsequence of the input in its original order. |
| Pipeline.TransformStatesNormalised | data_pipeline_demo/src/pipeline.py:25-30 | Output row `k` carries the upper-cased state of the input row it comes from (the `k`-th survivor), which had a state; that state is allowed. |
| Pipeline.LastValidRowWins | data_pipeline_demo/src/pipeline.py:30-37 | For every valid input row, the last valid row with the same id, at or after it, survives. Its clean form is in the output. |
| Pipeline.EarlierValidRowSurvivesInvalidDuplicates | data_pipeline_demo/src/pipeline.py:30-37 | A valid row whose later duplicates are all invalid is in the output. |
| Pipeline.TransformSize | data_pipeline_demo/src/pipeline.py:37 | The clean table has exactly one row per distinct id among the valid rows. |
| Pipeline.TransformCons | data_pipeline_demo/src/pipeline.py:30-37 | Adding a row at the front of the input adds its clean form at the front of the output exactly when it survives. |
| Pipeline.TransformAsWritten | data_pipeline_demo/src/pipeline.py:37-40 | The steps in the source's order: deduplicate on the raw numeric id, then truncate it. States are allowed and amounts are non-negative. Ids need not be unique, see Findings. |
| Pipeline.AsWrittenKeepsCollidingIds | data_pipeline_demo/src/pipeline.py:37-40 | Two valid rows with ids 3.0 and 3.5 both survive the source's order of steps and both come out as customer 3. |
| Pipeline.CorrectedKeepsLastOfCollidingIds | data_pipeline_demo/src/pipeline.py:37-40 | On the same two rows, deduplicating on the integer id keeps only the later row (customer 3, "Bia"). |
| Pipeline.AsWrittenAgreesOnWholeIds | data_pipeline_demo/src/pipeline.py:37-40 | When every id is a whole number, the source's order of steps and the corrected one give the same table. |
| Frame.Select | data_pipeline_demo/src/pipeline.py:30-34 | A mask selection is no longer than the table. |
| Frame.SelectSound | data_pipeline_demo/src/pipeline.py:30-34 | Every selected row is a row of the table that satisfies the mask. |
| Frame.SelectComplete | data_pipeline_demo/src/pipeline.py:30-34 | Every row that satisfies the mask is selected. |
| Frame.DedupLast | data_pipeline_demo/src/pipeline.py:37 | `drop_duplicates(keep="last")` keeps the same set of keys, with no key twice. It only keeps rows of its input and is no longer than it. Which row it keeps is stated by the two lemmas below. |
| Frame.DedupLastKeepsLast | data_pipeline_demo/src/pipeline.py:37 | Keep-last: every row with no later row of the same key stays. |
| Frame.DedupLastOnlyLast | data_pipeline_demo/src/pipeline.py:37 | Keep-last: every row that stays is a row of the input with no later row of the same key. |
| Frame.KeySetWitness | data_pipeline_demo/src/pipeline.py:49 | Every key that `nunique` counts is carried by some row. |
| Frame.KeySetSize | data_pipeline_demo/src/pipeline.py:49 | `nunique` never exceeds the number of rows. |
| Frame.DistinctKeysCard | data_pipeline_demo/tests/test_pipeline.py:41 | In a table with distinct keys, the number of distinct keys equals the number of rows. |
| Order.Insert | data_pipeline_demo/src/pipeline.py:48 | Inserting a key into strictly sorted keys keeps them strictly sorted. The result holds exactly the old keys plus the new one, and grows by one exactly when the key is new. |
| Order.BeforeTotal | data_pipeline_demo/src/pipeline.py:48 | Any two different state strings are ordered one way or the other. |
| Features.StateKeys | data_pipeline_demo/src/pipeline.py:47-48 | The group keys are strictly sorted. Each is the state of some row, and every row's state is among them. |
| Features.Group | data_pipeline_demo/src/pipeline.py:48 | A state's group holds exactly the table's rows with that state. |
| Features.Aggregate | data_pipeline_demo/src/pipeline.py:49-51 | The `agg` of one non-empty group: labelled with its state; between 1 and the group's size distinct customers; mean times group size equals the total. |
| Features.ComputeFeatures | data_pipeline_demo/src/pipeline.py:43-53 | One feature row per distinct state present, no state twice, sorted by state. Each row has a non-empty group; its `customers` is the group's number of distinct ids; its total is the group's spending sum; its mean is the total over the group's size. |
| Features.GroupsPartition | data_pipeline_demo/src/pipeline.py:47-52 | Adding up any per-row quantity group by group gives its sum over the whole table: the groups partition the table. |
| Features.TotalsAddUpToSpending | data_pipeline_demo/src/pipeline.py:50 | The state totals add up to the table's total spending. |
| Features.CustomersAddUpToDistinctIds | data_pipeline_demo/tests/test_pipeline.py:41 | On a table with unique ids, the customer counts add up to the number of distinct ids. |
| Features.MeanTimesCustomersIsTotal | data_pipeline_demo/tests/test_pipeline.py:43-44 | On a table with unique ids, each row's mean times its customer count equals its total, exactly. |
| Features.CleanTableFeaturesConsistent | data_pipeline_demo/tests/test_pipeline.py:39-44 | For the output of `transform`, the customer counts add up to the number of distinct ids, which is the number of clean rows. Each state's mean times its count is its total. The products and the totals both add up to the table's spending. |
| Features.CleanTableFeatureCount | data_pipeline_demo/src/pipeline.py:5-53 | The features of a clean table have at most one row per allowed state, so at most four, and no more rows than the clean table. |

## Left out

- `extract`, `load`, `run_pipeline` and the `__main__` block (lines 7-11, 55-87) are CSV and filesystem I/O. `run_pipeline`'s returned row counts are just the lengths of the two modelled results.
- The parsers behind `pd.to_datetime` / `pd.to_numeric` are the `Parsers` parameter. Calendar and number syntax are not modelled, and neither is pandas inferring one date format for a whole column.
- The id column is modelled as numeric (`int64`, or `float64` when it has gaps), with a real value per cell. The model does not cover a text id column, where the cast on `pipeline.py` line 40 would fail or where "07" and "7" would be deduplicated as different ids. It also does not cover ids beyond the `int64` range.
- Pipeline.Upper: upper-cases the ASCII letters only. Python's `str.upper` also maps other scripts, and some of those mappings change the length (for example "ß" becomes "SS").
- Floating point is modelled by exact reals. Infinite values, rounding in sums and means, and the test's relative tolerance are not modelled. NaN appears only as a missing cell.
- A missing column, which makes pandas fail, is not modelled: every row has all five cells, possibly empty.
- `sort_index` (`pipeline.py` line 37) is the identity on a table whose index labels follow the row order, as they do for a freshly read CSV. A caller-supplied frame with shuffled labels is not modelled.
- The pandas dtypes the tests check (integer, datetime, numeric) are carried by the Dafny types `int`, `Timestamp` and `real`. They are not stated separately.
- Features.ComputeFeatures: the mean is stated as the total over the group's size. pandas computes it separately, which agrees up to rounding.

## Findings

| source | as written | input that shows it | evidently intended | confidence | as-written member | corrected member |
|---|---|---|---|---|---|---|
| data_pipeline_demo/src/pipeline.py:37-40 | Deduplicates on the raw `float64` id (line 37), then truncates it to `int64` (line 40). | Two valid rows with `customer_id` 3.0 and 3.5: both survive line 37 and both become 3 on line 40. Ids are then not unique, which the test on line 29 of `data_pipeline_demo/tests/test_pipeline.py` asserts they are. | Clean ids are unique, with the last row for each integer id kept. This is what deduplicating on the typed id gives, and it agrees with the code whenever the ids are whole numbers (`Pipeline.AsWrittenAgreesOnWholeIds`). | medium, not executed | Pipeline.AsWrittenKeepsCollidingIds | Pipeline.Transform |
