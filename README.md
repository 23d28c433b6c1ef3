# Table cleaning and row documents, in Dafny

This project models the two pieces of logic in a small spreadsheet
question-answering app that are more than glue code:

* `clean_data` (data_cleaning.py). It copies a pandas DataFrame and drops
  exact duplicate rows, keeping the first occurrence. Each numeric column
  then has its missing cells filled with the column median. Each object
  (string) column has them filled with `mode()[0]`, its most frequent
  string. Both the median and the mode are computed on the deduplicated
  table.
* The document builder at the start of `create_embeddings_from_df`
  (embeddings_utils.py). Every row becomes one `Document`. Its text is
  `"<column>: <value>"` for each non-missing cell, in column order, joined
  by `", "`. Its `row_index` metadata is the row's index label.

A DataFrame is a value: `Frames.Table(columns, index, rows)`.

* Each column carries a name and a kind: `Numeric` for `np.number`,
  `Textual` for `object`, `Other` for the rest.
* `index` holds the row labels. `drop_duplicates` keeps them, and
  `iterrows` yields them.
* Each row holds one `Cell` per column: `Missing | Num(real) | Text(string)`.
  `Missing` is whatever `pd.notna` rejects.
* Medians are exact `real` arithmetic.

The modules are:

* `Frames`: the table, its columns and the numbers or strings a column holds.
* `Dedup`: `drop_duplicates` on a sequence.
* `Median`: `Series.median()` via an insertion sort.
* `Mode`: `Series.mode()[0]`, with Python's string order.
* `Cleaning`: `clean_data`.
* `CleaningScenarios`: three concrete tables.
* `Documents`: the row renderer and the document loop.
* `Results`: the `Option` and `Result` types.

`clean_data` rebinds a local table step by step, so it is modelled as the
method `Cleaning.CleanData`. It uses value semantics and `df.copy()`:
* the working copy is deduplicated first;
* `FillNumericColumns` then fills it one numeric column at a time, in column
  order;
* `FillTextColumns` does the same for object columns, one `FillTextColumn`
  pass each.

`CleanData` is proved equal to the function `Cleaning.Clean`. What cleaning
promises is proved about `Clean`. The document loop is the method
`Documents.BuildDocuments`. Its loop invariant ties the documents built so
far to the rows visited, and its postcondition gives every document from
`RowText`.

Four behaviours of the code are easy to miss:

* An object column that is entirely missing after deduplication makes
  `clean_data` raise. `mode()` is then empty and `[0]` does not exist. The
  column is not left missing. The model returns `Failure(NoModeValue)`, which
  is `Clean` failing exactly then (`CleanFailsIff`). A table with no rows and
  at least one object column fails the same way.
* The cleaned table can still hold duplicate rows. Filling can make two
  deduplicated rows equal, so cleaning is not idempotent
  (`CleanNotIdempotent`).
* `drop_duplicates` returns an empty frame as it is. A frame with rows but no
  columns therefore keeps all its rows, although they all compare equal
  (`NoColumnsKeepsRows`).
* When several strings tie for the mode, the one used is the least of them
  in Python's code-point string order. pandas returns the modes sorted.

## Model

| member | source | states |
|---|---|---|
| Frames.NumbersIn | data_cleaning.py:25 | the numbers a column holds, missing cells skipped: a number is listed exactly when the column has a cell with it |
| Frames.TextsIn | data_cleaning.py:30 | the strings an object column holds, missing cells skipped: a string is listed exactly when the column has a cell with it |
| Frames.NoNumbers | data_cleaning.py:25 | a column yields no numbers exactly when none of its cells is a number |
| Frames.NoTexts | data_cleaning.py:30 | a column yields no strings exactly when none of its cells is a string |
| Frames.ColumnOfRows | data_cleaning.py:19 | whether a column holds a value depends only on which rows occur, not on their order or how often |
| Dedup.Survivors | data_cleaning.py:19 | the kept positions of `drop_duplicates` are exactly the first occurrences, in ascending (input) order |
| Dedup.SurvivorsUnique | data_cleaning.py:19 | any ascending list of exactly the first-occurrence positions is the kept list: which rows survive, and their order, are fully determined |
| Dedup.DropDuplicates | data_cleaning.py:19 | something is kept exactly when there is something, and the first row always is; which rows are kept is fixed by `Survivors` and `SurvivorsUnique`, and what is kept by the three lemmas below |
| Dedup.DropDuplicatesDistinct | data_cleaning.py:19 | after dropping duplicates no two rows are equal (a missing cell equals a missing cell) |
| Dedup.DropDuplicatesSameValues | data_cleaning.py:19 | dropping duplicates keeps every row value that occurs and invents none |
| Dedup.DropDuplicatesCount | data_cleaning.py:19 | the number of rows kept is the number of distinct rows |
| Dedup.FirstOccurrence | data_cleaning.py:19 | every value of a sequence has a first occurrence |
| Median.Insert | data_cleaning.py:25 | inserting a value adds exactly that value (multiset) |
| Median.InsertSorted | data_cleaning.py:25 | insertion into a sorted sequence keeps it sorted |
| Median.Sort | data_cleaning.py:25 | the sorted numbers are a sorted permutation of the input |
| Median.SortedUnique | data_cleaning.py:25 | two sorted permutations of the same values are equal |
| Median.Middle | data_cleaning.py:25 | the middle of a sorted sequence lies between its least and its greatest element, and is one of its elements when the count is odd; for an even count it is the mean of the two middle values |
| Median.Median | data_cleaning.py:25 | the median exists exactly when there is at least one number |
| Median.MedianSplits | data_cleaning.py:25 | at least half the numbers lie at or below the median and at least half at or above it; with an odd count the median is one of them |
| Median.MedianPermutation | data_cleaning.py:25 | the median depends on the multiset of numbers only, not on row order |
| Median.SortCounts | data_cleaning.py:25 | sorting keeps how many values lie on either side of any bound |
| Mode.LexTotal | data_cleaning.py:30 | Python string order is total |
| Mode.LexAntisymmetric | data_cleaning.py:30 | Python string order is antisymmetric, so the least tied mode is unique |
| Mode.LexTransitive | data_cleaning.py:30 | Python string order is transitive |
| Mode.Count | data_cleaning.py:30 | a string occurs a positive number of times exactly when it is in the column |
| Mode.MostFrequent | data_cleaning.py:30 | the chosen candidate is one of the candidates and precedes all of them: at least as frequent, least in string order among the equally frequent |
| Mode.Mode | data_cleaning.py:30 | no mode exactly when there are no strings; otherwise a string of the column whose count is maximal, least in string order among ties (`mode()[0]`) |
| Mode.ModeUnique | data_cleaning.py:30 | any most frequent string that is least among ties is the one `Mode` returns |
| Cleaning.SelectKind | data_cleaning.py:23 | the positions `select_dtypes` selects for a kind are exactly the columns of that kind, in column order |
| Cleaning.DedupTable | data_cleaning.py:19 | deduplicating keeps the shape and the columns; an empty frame (no columns or no rows) comes back as it is, as pandas returns it; any other frame keeps `DropDuplicates` of its rows |
| Cleaning.MedianFill | data_cleaning.py:25 | `median()` is NaN (missing) exactly when the column holds no number; otherwise it is a number with at least half the column's numbers at or below it and at least half at or above it |
| Cleaning.ModeFill | data_cleaning.py:30 | `mode()[0]` has no value exactly when the column holds no string; otherwise it is a string of the column with maximal count, least in string order among ties |
| Cleaning.Clean | data_cleaning.py:4-32 | a success keeps the input's columns and a well-formed shape; a failure needs an object column; a frame without columns comes back unchanged. The lemmas `CleanShape` to `CleanNoMissing` below pin down the rest |
| Cleaning.FillColumn | data_cleaning.py:25 | `fillna` on one column changes only that column, and only its missing cells, into the fill value; row and column counts stay |
| Cleaning.FillNumericColumns | data_cleaning.py:23-25 | after the numeric loop every numeric column is filled with its median and no other column has changed |
| Cleaning.FillTextColumn | data_cleaning.py:30 | one object-column pass fails exactly when its column is an object column holding no string (`mode()[0]` raises); otherwise it fills exactly that column and nothing else |
| Cleaning.FillTextColumns | data_cleaning.py:28-30 | the object loop fails exactly when some object column holds no string, and otherwise yields the fully cleaned rows |
| Cleaning.CleanData | data_cleaning.py:4-32 | the method's result is `Clean` of its input, which the lemmas below characterise; the input is a value and stays unchanged |
| Cleaning.DedupKeepsColumnValues | data_cleaning.py:19 | deduplication keeps exactly the set of values of every column (not their counts: the median and the mode can differ from those of the input, see `RepeatedPriceCleaned`) |
| Cleaning.NoTextMeansAllMissing | data_cleaning.py:30 | in a well-typed table an object column holds no string exactly when all its cells are missing |
| Cleaning.CleanShape | data_cleaning.py:19-30 | the result has the same columns in the same order; a table with columns has one row per distinct input row, with the index label of its first occurrence, and every present cell unchanged (a table without columns comes back whole, `Clean`) |
| Cleaning.CleanFailsIff | data_cleaning.py:28-30 | cleaning fails exactly when some object column is entirely missing |
| Cleaning.CleanNumericColumn | data_cleaning.py:23-25 | in a numeric column a present cell stays; a missing one becomes the median of the deduplicated column's numbers, which splits them in halves, or stays missing when there are none |
| Cleaning.CleanTextColumn | data_cleaning.py:28-30 | in an object column a present cell stays; a missing one becomes a string of the deduplicated column with maximal count, least in string order among ties |
| Cleaning.CleanNumericAllMissing | data_cleaning.py:25 | an entirely missing numeric column stays entirely missing (median NaN) |
| Cleaning.CleanOtherUntouched | data_cleaning.py:23-28 | a column that is neither numeric nor object comes back exactly as deduplicated, missing cells included |
| Cleaning.CleanNoMissing | data_cleaning.py:23-30 | after cleaning, object columns and numeric columns with a number have no missing cell |
| CleaningScenarios.StoreTableDeduplicated | data_cleaning.py:19 | of two equal rows followed by a third, the second is dropped and the labels 0 and 2 remain |
| CleaningScenarios.StoreTableCleaned | data_cleaning.py:16-32 | on that table, cleaning also fills the missing price with the median 10 of the remaining price |
| CleaningScenarios.PriceRowsFilled | data_cleaning.py:25 | in a numeric column of two ascending prices and a missing cell, the missing cell becomes their mean and the prices stay |
| CleaningScenarios.RepeatedPriceDeduplicated | data_cleaning.py:19 | of the prices 1, 1, 5 and a missing price, the second 1 is dropped and the labels 0, 2 and 3 remain |
| CleaningScenarios.RepeatedPriceCleaned | data_cleaning.py:19-25 | on that table the missing price becomes 3, the median of the deduplicated prices 1 and 5 |
| CleaningScenarios.RepeatedPriceInputMedian | data_cleaning.py:25 | the median of the input's prices 1, 1 and 5 is 1: the fill is not the median of the input |
| CleaningScenarios.NoColumnsKeepsRows | data_cleaning.py:19 | a frame with two rows and no columns keeps both rows, although they compare equal, and is returned unchanged |
| CleaningScenarios.CleanNotIdempotent | data_cleaning.py:19-30 | a table whose cleaned form has two equal rows, so cleaning again removes one: cleaning is not idempotent |
| Documents.Join | embeddings_utils.py:29 | joining no parts gives the empty string and one part gives that part |
| Documents.JoinLength | embeddings_utils.py:29 | a join is as long as its parts plus exactly one separator between neighbours |
| Documents.JoinEnds | embeddings_utils.py:29 | a join starts with its first part and ends with its last: no leading or trailing separator |
| Documents.JoinEmpty | embeddings_utils.py:29 | a join of non-empty parts is empty exactly when there are no parts |
| Documents.Pair | embeddings_utils.py:29 | a pair reads back as the column name, then `": "`, then the rendered value |
| Documents.PresentUpTo | embeddings_utils.py:29 | the positions `pd.notna` keeps are exactly the non-missing cells, in column order |
| Documents.PairsArePresent | embeddings_utils.py:29 | the row's pairs are exactly `"<column>: <value>"` for each present cell, one each, in column order |
| Documents.RowText | embeddings_utils.py:29 | a row's text starts with the pair of its first present cell and ends with the pair of its last one |
| Documents.RowTextEmpty | embeddings_utils.py:29 | a row's text is empty exactly when all its cells are missing |
| Documents.MissingColumnIgnored | embeddings_utils.py:29 | adding a column that is missing in a row, anywhere, leaves the row's text unchanged: missing cells contribute nothing |
| Documents.BuildDocuments | embeddings_utils.py:24-30 | one document per row, in row order, without a row cap; document i has row i's text and row i's index label |

## Left out

- app.py is not part of this model. It holds the user interface, Excel reading, CSV export, environment loading, the Azure OpenAI client and the chat history.
- The text splitter, the Azure embeddings client and the FAISS index (embeddings_utils.py:33-57) are left out. They are third-party code and network calls.
- `query_data` (embeddings_utils.py:59-72) is left out. It is a one-line wrapper over FAISS search.
- `str(val)` is the parameter `render`. Python's number formatting is not modelled, nor is the `str` of a column label: labels are modelled as strings.
- Floating point is not modelled. Numbers are exact reals and NaN is `Missing`. The median is therefore exact, and the float rounding of pandas' mean of the two middle values is not reproduced.
- Cleaning.CleanData: it fills the columns of each kind by visiting every column position in order and testing its kind. It does not first collect the `select_dtypes` list. `SelectKind` shows that the list is exactly those positions, in the same order.
- Cleaning.CleanData: columns are addressed by position. Duplicate column names, where `df[col]` selects several columns, are not modelled.
- Cleaning.CleanFailsIff: it and `NoTextMeansAllMissing` assume a well-typed table, that is, no number in an object column. `Clean` itself accepts any table, and its mode counts only the strings of an object column. So an object column that holds numbers but no string makes `Clean` return `Failure(NoModeValue)`, whereas pandas fills its missing cells with the most frequent of those numbers.
- Cleaning.CleanTextColumn: pandas' `mode()` on an object column is modelled over its strings only.
- Documents.BuildDocuments: the document metadata is reduced to its one key, `row_index`.
