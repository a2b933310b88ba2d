# Two in-memory table engines, modelled in Dafny

This project models two small table engines from a Python repository.

The first is a row store, `SimpleDataset`, in `datasets.py`:
- It holds an ordered list of rows, each row a dict from field name to value.
- `column_names` are the keys of the first row.
- It supports integer and slice access, `filter`, and `map`. `map` is row-wise or batched, and can take a `remove_columns` list.
- `DatasetDict` is a dict from split name to dataset. It applies `filter` and `map` to every split.
- `_build_split` and `load_dataset` generate a synthetic question-answering corpus.

The second is a columnar frame, `DataFrame`, in `pandas.py`:
- It holds a list of column names and a row-major matrix. The matrix is built either from a dict of columns or from positional records.
- It supports projection to a list of columns, extraction of one column as a `Series`, `sort_values` and `head`.
- `Series` wraps a list and has `sum`.

Modules:

- `Outcomes` (`outcomes.dfy`) holds `Option` and `Result`. Each variant of `Error` stands for the Python exception the code raises: `KeyError`, `IndexError`, and the `ValueError`s of `list.index`, of a zero slice step, and of `load_dataset`.
- `OrderedDicts` (`ordered_dict.dfy`) models a Python dict.
  - A dict is its key order plus a finite map. The key order has no duplicates, and its keys are exactly the map's domain.
  - `RemoveKeys` is a run of `dict.pop(key, None)` calls.
- `Text` (`text.dfy`) models `str(int)` and `str.find`/`str.index`.
- `Datasets` (`datasets.dfy`) holds the row store and the split collection.
  - `Dataset.Mapped` is the specification of `map`.
  - `Dataset.Map` is `map` as the code runs it: a rebuild loop for the batched result, then nested loops that pop the removed names from every row. It is proved equal to `Mapped`.
- `Corpus` (`corpus.dfy`) holds the generated rows.
  - `BuildSplit` runs the append loop `AppendSamples` with the row function `SampleRow` and is proved against it.
  - The answer offset is derived, not stated.
- `Sorting` (`sorting.dfy`) is a stable insertion sort of records by one field, under any strict weak order. It is proved sorted, a permutation, and stable.
- `Frames` (`frames.dfy`) holds `DataFrame` and `Series`.

Design choices:

- **Values, not objects.** Every operation of both engines returns a new value and leaves its receiver as it was, so the model uses immutable datatypes.
  - That projection, sorting and `head` leave the receiver unchanged holds by construction.
  - The one in-place step, popping the removed names in `map`, is a loop in `Dataset.Map`. It works on the produced rows.
- **Column names are computed.** `column_names` is cached at construction. In the model rows are values that no later operation can change, so the cached list always equals the first row's keys, and the model computes it as `Dataset.ColumnNames`. In the code the cache can go stale, because the row dicts are shared (see "Left out").
- **Errors are results, not preconditions.** Every exception the code can raise is an `Err` outcome.
  - This covers a row without a batched column, a result list shorter than the first, a missing frame column, a short record, a dict value too short for the row count, and a zero slice step.
- **Parameters stand in for caller code.** Transforms, predicates and the value ordering are parameters.
  - `map`'s function is `Transform.RowWise(f)` or `Transform.Batched(g)`.
  - `filter`'s is `p`.
  - `sort_values` compares cells with a caller-supplied strict weak order `lt`, which plays the part of Python's `<`. `reverse=True` is sorting with the flipped order, which Python also does stably.
- **Default arguments.** `head(n=5)`, `sort_values(ascending=True)`, `map(remove_columns=None)`, `DataFrame(columns=None)` and `_build_split(offset=0)` are Dafny default parameter values of `Head`, `SortValues`, `Mapped` and `Map`, `NewFrame` and `BuildSplit`. `remove_columns=None` is the empty list, which the code treats the same way. `batched=False` has no default, because the variant of `Transform` carries it.
- **Iterating.** `len(ds)` is `|rows|` and iterating a dataset yields `rows` in order. Likewise `len(df)` and `len(series)` are the lengths of `data`.

## Model

| member | source | states |
|---|---|---|
| OrderedDicts.DictOf | datasets.py:70-77 | a dict display with distinct keys keeps its keys in the order written, each mapped to its value |
| OrderedDicts.RemoveKeys | datasets.py:40 | popping a set of names: those names are gone, every other key keeps its presence and value, and the key order is the old one without the popped names |
| OrderedDicts.WithoutAppend | datasets.py:40 | dropping names from a concatenated key order drops them from each part, so the surviving keys keep their relative order |
| OrderedDicts.WithoutOne | datasets.py:40 | a single key survives exactly when it is not among the dropped names |
| OrderedDicts.RemoveAbsentKeys | datasets.py:40 | popping names the row does not hold leaves the row equal to itself (`pop` with a default never fails) |
| OrderedDicts.RemoveKeysTwice | datasets.py:38-40 | popping one set of names and then another equals popping their union, so the pop order does not matter |
| Text.NatToString | pandas.py:34 | the decimal text of a natural number is non-empty, all digits, and starts with '0' only for 0 |
| Text.NatToStringValue | pandas.py:34 | reading the decimal text back as a number gives the number it was written from |
| Text.NatToStringInjective | pandas.py:34 | different natural numbers have different decimal texts |
| Text.IntToString | datasets.py:72 | `str(i)` is non-empty, starts with '-' exactly for negative numbers, is digits otherwise, starts with '0' only for 0, and its digits read back as `i` (as `-i` after the sign for a negative number) |
| Text.IntToStringInjective | datasets.py:72 | different integers have different `str` texts |
| Text.IndexOf | datasets.py:69 | `str.find`: -1 exactly when the substring does not occur, otherwise a position where it occurs with no earlier occurrence |
| Text.IndexOfFirstOccurrence | datasets.py:69 | if the substring occurs at k and nowhere before, the search returns k |
| Datasets.Dataset.ColumnNames | datasets.py:9 | `column_names` is the first row's key list in its order (so has no duplicates), and empty when there are no rows |
| Datasets.Dataset.Length | datasets.py:11-12 | `len(ds)` is 0 exactly for no rows; every position `i` below it and `i - len` read row i, while `len` and `-len - 1` are out of range |
| Datasets.Dataset.Get | datasets.py:14-17 | integer access succeeds exactly for `-len <= idx < len`, else IndexError; non-negative positions give that row |
| Datasets.GetFromEnd | datasets.py:17 | position `i - len` names the same row as position `i` |
| Datasets.ClipBound | datasets.py:16 | `slice.indices` clipping: a bound inside the rows stays, a negative one in range counts from the end; below `-len` it becomes -1 for a negative step and 0 otherwise, at or above `len` it becomes `len - 1` for a negative step and `len` otherwise |
| Datasets.Range | datasets.py:16 | `range(a, b, step)` starts at `a`, moves by `step`, stays strictly before `b` in the step direction, is empty exactly when `a` is not before `b` in that direction, and stops only when one more step would reach or pass `b` |
| Datasets.SliceIndices | datasets.py:16 | every position a slice selects is a valid row position, so slicing never reads outside the rows |
| Datasets.Dataset.Slice | datasets.py:15-16 | slicing fails only for step 0 (ValueError); otherwise element k is the row at the k-th position `range(*slice.indices(len))` yields, the step defaulting to 1 |
| Datasets.SliceForward | datasets.py:15-16 | `ds[a:b]` is the contiguous run `rows[lo..hi]` between the two bounds clipped to the length, empty when they cross |
| Datasets.SliceReversed | datasets.py:15-16 | `ds[::-1]` lists every row, last first |
| Datasets.FilterRows | datasets.py:20 | the filtered rows are no more than the input and each satisfies the predicate |
| Datasets.KeptIndices | datasets.py:20 | the kept positions increase strictly, satisfy the predicate, and include every position whose row satisfies it |
| Datasets.FilterIsKeptRows | datasets.py:19-21 | `filter` is the order-preserving subsequence of exactly the rows satisfying the predicate |
| Datasets.Dataset.Filter | datasets.py:19-21 | the filtered dataset is no longer than the original and all its rows satisfy the predicate |
| Datasets.Dataset.Produced | datasets.py:24-35 | the rows a transform produces: row-wise, one `f(row)` per input row; batched, a KeyError when a row lacks a column name; the only errors are KeyError and IndexError |
| Datasets.Dataset.Mapped | datasets.py:23-41 | `map` fails exactly when producing the rows fails, with that error; otherwise it has as many rows as were produced and no row holds a removed name |
| Datasets.FirstMissing | datasets.py:25 | no name is reported exactly when every row holds every name; a reported name is one some row lacks, and every name before it is held by all rows |
| Datasets.BatchOf | datasets.py:25 | the batch fails with a KeyError exactly when some row lacks a column name, and the error names the first such column; otherwise its keys are the column names and `batch[k][i] == rows[i][k]` |
| Datasets.Dataset.Map | datasets.py:23-41 | the looping implementation of `map` returns exactly what the specification `Mapped` describes, errors included |
| Datasets.RebuildRows | datasets.py:29-33 | the append loop over the first result length produces exactly `Unbatch(result)`: one row `{k: result[k][i]}` per index, or an IndexError when some value is shorter than the first |
| Datasets.RemoveColumns | datasets.py:36-40 | the loop over the produced rows turns each row into that row with the removed names popped, and keeps the rows' number and order |
| Datasets.PopAll | datasets.py:39-40 | popping the names one at a time, in any order, gives the row without those names |
| Datasets.MapRowWise | datasets.py:35 | row-wise `map` without removal never fails, keeps the row count, and gives `out[i] == f(rows[i])` |
| Datasets.MapRemoveColumns | datasets.py:36-40 | removal adds no error and keeps the row count; no output row has a removed name; every other key keeps its presence, value and order |
| Datasets.MapRemoveAbsent | datasets.py:36-40 | removing names no produced row holds changes nothing and raises nothing |
| Datasets.MapBatched | datasets.py:24-33 | batched `map`: KeyError when a row lacks a column name; otherwise the batch is the column view of the rows; an empty result gives an empty dataset; otherwise there are first-length rows with `out[i][k] == result[k][i]`, or an IndexError exactly when some result value is shorter |
| Datasets.BatchedIdentity | datasets.py:25-33 | batching then rebuilding is the identity: for rows sharing the first row's keys, with at least one key, the identity batched transform returns the same dataset |
| Datasets.BatchedIdentityOnKeylessRows | datasets.py:25-28 | rows without keys give an empty batch, so a batched `map` returns an empty dataset whatever the row count |
| Datasets.FilterSplits | datasets.py:51-52 | `DatasetDict.filter` keeps the split names in order, and each split is that split's own `filter` |
| Datasets.EachSplit | datasets.py:55 | applying a failing step to the splits in order: success exactly when every split succeeds, with each split's own result; otherwise the error of the first split that fails |
| Datasets.MapSplits | datasets.py:54-55 | `DatasetDict.map` succeeds exactly when every split's `map` does; it keeps the split names in order, and each split is that split's own `map`; otherwise it raises the first failing split's error |
| Corpus.AnswerSpan | datasets.py:62-69 | `answer_start` is the first occurrence of the city in the context, at `28 + len(str(id))`, and the context holds the city name at that offset |
| Corpus.SampleRow | datasets.py:71-77 | the generated row has the keys id, title, context, question and answers, in that order |
| Corpus.SampleRowFields | datasets.py:61-77 | a generated row has the keys id, title, context, question and answers in that order; its id is `str(sample_id)`, its title the country, and its answers the city with `answer_start` equal to `28 + len(str(sample_id))` |
| Corpus.SampleIdsDistinct | datasets.py:72 | different sample numbers give different ids, so the train ids (0 to 3465) and validation ids (10000 to 10344) never collide |
| Corpus.AppendSamples | datasets.py:59-77 | the append loop yields `max(size, 0)` rows, row i being the row built for sample number `offset + i` |
| Corpus.BuildSplit | datasets.py:58-78 | `_build_split(size, offset)` yields `max(size, 0)` rows, row i being the sample numbered `offset + i` |
| Corpus.LoadDataset | datasets.py:81-86 | any name other than "squad" is an UnsupportedDataset error; "squad" gives the splits train (3466 rows from 0) and validation (345 rows from 10000), in that order |
| Sorting.FlipIsStrictWeakOrder | pandas.py:55 | the reversed comparison is again a strict weak order |
| Sorting.InsertPermutation | pandas.py:55 | one insertion step adds exactly the new record to the multiset of records, and nothing else |
| Sorting.SortRowsPermutation | pandas.py:55 | the sorted records are a permutation of the input records |
| Sorting.SortRowsSorted | pandas.py:55 | no sorted record compares below an earlier one |
| Sorting.SortRowsStable | pandas.py:55 | for every key value, the records tying with it appear in the sorted output in their original relative order |
| Sorting.SortRowsCorrect | pandas.py:55 | the sort orders records so that no later one compares below an earlier one, is a permutation, and keeps records whose keys tie in their original relative order |
| Frames.SumAppend | pandas.py:15-16 | the sum of a concatenation is the sum of the parts |
| Frames.SumFromFront | pandas.py:15-16 | summing from the front gives the same total as Python's left-to-right `sum` |
| Frames.SumBounds | pandas.py:15-16 | a series of non-negative values has a non-negative sum that is at least each of its values |
| Frames.Sum | pandas.py:15-16 | `series.sum()` is 0 for no values and otherwise the first value plus the sum of the rest |
| Frames.Series.Length | pandas.py:21-22 | `len(series)` is the number of values, 0 exactly for an empty series |
| Frames.IndexOfName | pandas.py:47 | `columns.index(name)`: none exactly when the name is absent, otherwise the first position holding it |
| Frames.IndicesOf | pandas.py:47 | positions of a list of names: fails with the first absent name, otherwise one position per name, in order |
| Frames.DefaultColumnsDistinct | pandas.py:34 | the default names `col_0` … `col_{n-1}` are pairwise distinct |
| Frames.CellsAt | pandas.py:41 | row i of a dict-built frame is `[data[c][i] for c in columns]`; it fails at the first column whose cell cannot be read, with KeyError for a name the dict lacks and IndexError for a list too short |
| Frames.RowsFrom | pandas.py:41 | building the rows succeeds exactly when every row can be built; each row then holds its cells, and a failure is one of the rows' failures |
| Frames.RowsFromFirstRow | pandas.py:41 | the rows are built in order, so a failure is that of the first row that cannot be built, every earlier row building |
| Frames.RowsFromFirstFailure | pandas.py:41 | a failed row build raises the error of the first unreadable cell in row-major order |
| Frames.NewFrame | pandas.py:29-43 | construction from records always succeeds and keeps the records; explicit columns are kept as given, a dict without them gives its key order, a dict-built frame has the first value's length as row count, and only a dict can fail, with IndexError or KeyError |
| Frames.FromColumns | pandas.py:29-41 | from a dict: columns are the key order, the row count is the first value's length, row i holds each column's i-th value, every row has one value per column, and a shorter value is an IndexError |
| Frames.FromColumnsError | pandas.py:39-41 | a failing dict-built frame raises for the first unreadable cell in row-major order: KeyError for a missing name, IndexError for a list too short |
| Frames.FromColumnsNamed | pandas.py:39-41 | from a dict with explicit columns: no rows, and no lookup, when the first value is empty; otherwise a missing name makes row 0 fail, with the error of row 0's first unreadable cell; a successful frame holds the named columns' values |
| Frames.FromColumnsColumn | pandas.py:39-51 | a column read back from a frame built from equally long columns is that column's list |
| Frames.FromRecords | pandas.py:33-43 | from records: rows kept as given, columns named `col_0` … after the first record's length, none for no records |
| Frames.DataFrame.Select | pandas.py:45-49 | `df[names]` succeeds exactly when every name exists and every row is long enough; a missing name raises for the first missing one, and IndexError only when every name exists; on success `columns == names`, the same row count, and `out[i][j] == row[columns.index(names[j])]` |
| Frames.DataFrame.Column | pandas.py:50-51 | `df[name]` succeeds exactly when the name exists and every row reaches its position; otherwise the error is the missing name's, or IndexError for a short row; on success its data holds the column's value from every row, in row order |
| Frames.SelectThenColumn | pandas.py:45-51 | a column of a projection equals that column of the original frame |
| Frames.TiedWithFlip | pandas.py:55 | reversing the comparison does not change which records tie |
| Frames.DataFrame.SortValues | pandas.py:53-56 | `sort_values` on an unknown column raises for that name; a sorted frame keeps the columns and the row count |
| Frames.SortValuesCorrect | pandas.py:53-56 | `sort_values`: an unknown column or a short row is an error; otherwise the columns stay and the rows are a permutation, non-decreasing when ascending and non-increasing otherwise, with tied rows in their original order in both directions |
| Frames.DataFrame.Head | pandas.py:58-59 | `head(n)` keeps the columns and returns a prefix of the rows: `min(n, len)` rows for `n >= 0`, and all but the last `-n` (or none) for `n < 0` |
| Frames.HeadBounds | pandas.py:58-59 | `head(0)` has no rows, and `head(n)` for `n >= len` is the whole frame |
| Frames.DataFrame.Length | pandas.py:61-62 | `len(df)` is 0 exactly for no rows, and the first `len(df)` rows are the whole frame |

## Left out

- `set_option` and the module-global `_options` dict (pandas.py:4-8) are left out: they are written and never read.
- Both `__repr__` methods are left out. They only format text for display.
- `transformers.py` is not part of this model. Its tokenizer, model and trainer stand-ins set fields. `Trainer.train` calls the model's `fit` and returns a fixed status. `predict` is a regular-expression stub: for a question naming "Country N" it answers "City N" when the context contains that text, and the empty string otherwise. `pipeline` wraps `predict` in a closure and raises ValueError for every task but "question-answering". None of them touches the table engines.
- Sharing of row dicts is not modelled. The constructor copies the list but not the dicts (datasets.py:8), and `row.pop` (datasets.py:40) mutates whatever dict the transform returned, which may be a row of the original dataset. The model is value-based, so the removal shows only on the output. In the code, after `ds.map(lambda r: r, remove_columns=["id"])`, the rows of `ds` itself lose "id" while `ds.column_names` still lists it, so a later batched `map` on `ds` raises KeyError("id"); in the model `ds` is unchanged and that `map` succeeds.
- A string passed as `remove_columns` is not modelled: Python's `set("id")` is a set of characters. The model takes a list of names.
- Datasets.Dataset.Map: it does not model exceptions raised inside the caller's transform or predicate. Transforms are total functions.
- Frames.Sum: it models only integer cells. Python's `sum` over floats, strings or mixed types (and its TypeError) is not modelled.
- Frames.SortValuesCorrect: it requires the caller's comparison to be a strict weak order. Python's TypeError for incomparable cells, and orders that are not strict weak orders (such as NaN), are not modelled.
- Non-dict transform results in batched `map` (a list, or `None`) are not modelled. The result is always a dict of lists.
- Some behaviours that could have been required away are modelled as the code runs them:
  - unequal result lengths in batched `map`;
  - unequal or short value lists in the dict constructor;
  - a negative `n` in `head` (Python slice semantics).

  Each one is an error outcome or its exact slice result.
