# Duplicate-aware spreadsheet import and duplicated-phrase finder, in Dafny

This project models two small pieces of a Python code base and proves
properties of them.

**`gimport.py`: `DataImporter`.** It reads a spreadsheet into a pandas
frame and cleans the column headers (strip, spaces to underscores, drop
everything outside `[A-Za-z0-9_]`, lower-case). It then fills missing
cells (`0` in numeric columns, `''` elsewhere) and stamps every row with
`source_file` (the last `/`-separated part of the path) and
`import_date`. Finally it appends the rows to a SQLite table through
`my_insert`. For each row in order, `my_insert` counts the stored rows
that agree with it on the five key columns `source_file`, `import_date`,
`smith_a`, `smith_b` and `smith_c`, and inserts the whole row only when
that count is zero. Rows inserted earlier in the same batch count as
stored.

**`duplicate.py`: `find_duplicated_phrases`.** It splits a text into
words and counts, in a `defaultdict(int)`, every window of `k`
consecutive words joined by single spaces, for every `k` from the
minimum to the maximum phrase length. It returns the phrases counted
more than once, in the dictionary's key order.

Layout, one module per file:

- `strings.dfy` (`Strings`): the Python string operations used: the `str.isspace` character set, `str.strip`, `str.split()`, `str.join`, and character counting.
- `headers.dfy` (`Headers`): `clean_column_headers`, one header at a time and for the whole header row.
- `frame.dfy` (`Frame`):
  - the cell values and a `DataFrame` class whose header row and cells are updated in place;
  - `df[name] = scalar`;
  - missing-value imputation;
  - the file-name extraction.
- `keyed_insert.dfy` (`KeyedInsert`):
  - the key comparison with SQL `=` semantics, where NULL never matches;
  - the `Table` class whose `MyInsert` method is the check-then-insert loop;
  - the specification function `InsertAll`, with its invariants;
  - `_build_condition_query`.
- `importer.dfy` (`Importer`): the whole `import_data_into_database` pipeline, run against a `Table`.
- `duplicate.dfy` (`Duplicate`):
  - the phrase counter as a method with the two nested counting loops and the read-out loop;
  - the specification functions they are proved against;
  - soundness, completeness, distinctness, count and order lemmas.

## Model

| member | source | states |
|---|---|---|
| Strings.IsSpace | gimport.py:14 | defines the whitespace set of `str.isspace` that `strip` and `split()` use: space, `\t`–`\r`, `\x1c`–`\x1f`, `\x85`, `\xa0`, U+1680, U+2000–U+200A, U+202F, U+205F and U+3000 (the Unicode space separators), and U+2028 and U+2029 (the line and paragraph separators) |
| Strings.SkipSpace | gimport.py:14 | the index where `lstrip` starts keeping: everything skipped is whitespace and the character there is not |
| Strings.SkipSpaceBack | gimport.py:14 | the index where `rstrip` stops keeping: everything dropped at the end is whitespace and the last kept character is not |
| Strings.Strip | gimport.py:14 | `str.strip` keeps one slice `s[i..j]` of its input; everything before and after it is whitespace, and it neither starts nor ends with whitespace |
| Strings.StripNoSpace | gimport.py:14 | a string without whitespace is left unchanged by strip |
| Strings.WordLength | duplicate.py:4 | the leading run of non-whitespace characters is maximal: it has no whitespace and is followed by whitespace or the end |
| Strings.SplitWords | duplicate.py:4 | `str.split()` never yields an empty word or a word containing whitespace; it yields no word at all exactly when the text is empty or all whitespace |
| Strings.WordLengthUnique | duplicate.py:4 | the leading word ends exactly at the first whitespace character, or at the end of the text |
| Strings.SplitWordsOfWord | duplicate.py:4 | a non-empty text without whitespace splits into one word, itself |
| Strings.SplitWordsLeading | duplicate.py:4 | a leading run of non-whitespace ended by whitespace or the end of the text is the first word, and the rest is split after it |
| Strings.SplitWordsAtSpace | duplicate.py:4 | a whitespace character is a word boundary: splitting `a + [c] + b` gives the words of `a` followed by those of `b` |
| Strings.SplitWordsKeepsText | duplicate.py:4 | the words, concatenated, are exactly the non-whitespace characters of the text, in order |
| Strings.Join | duplicate.py:10 | defines `sep.join(ws)` from the front; its behaviour at the end is stated by `JoinSnoc` |
| Strings.JoinSnoc | duplicate.py:10 | joining one more element adds the separator and that element at the end |
| Headers.ReplaceSpaces | gimport.py:15 | same length, no space left; each space becomes `_` and every other character stays in place |
| Headers.Lower | gimport.py:17 | same length, no upper-case ASCII letter left; each `A`–`Z` becomes the letter 32 code points higher, every other character stays |
| Headers.KeepWordChars | gimport.py:16 | the removal step keeps only `[A-Za-z0-9_]` and never lengthens the header |
| Headers.KeepWordCharsOne | gimport.py:16 | one character is kept exactly when it is in `[A-Za-z0-9_]` |
| Headers.KeepWordCharsAppend | gimport.py:16 | the removal works character by character: removing from `a + b` is removing from `a`, then from `b`, and concatenating |
| Headers.KeepWordCharsOfWord | gimport.py:16 | a header made only of `[A-Za-z0-9_]` loses nothing |
| Headers.CleanHeader | gimport.py:12-19 | a cleaned header consists only of lower-case letters, digits and `_` and is no longer than the original |
| Headers.CleanHeaderSmithA | gimport.py:12-19 | the header `Smith A` is cleaned to the key column name `smith_a`, and so is `smith_a` itself, so the two collide |
| Headers.CleanHeaders | gimport.py:13-18 | the header row keeps its length and order; position `i` holds the cleaned header `i` |
| Headers.CleanHeaderHasNoSpace | gimport.py:12-19 | a cleaned header holds no whitespace, so it has none at either end and strip leaves it unchanged |
| Headers.CleanHeaderFixesClean | gimport.py:13-18 | a header already made of `[a-z0-9_]` passes through all four steps unchanged |
| Headers.CleanHeaderIdempotent | gimport.py:13-18 | cleaning a header twice gives the same result as cleaning it once |
| Headers.CleanHeadersIdempotent | gimport.py:12-19 | cleaning the whole header row twice gives the same result as cleaning it once |
| Frame.DataFrame.CleanColumnHeaders | gimport.py:12-19 | the frame's header row becomes its cleaned form in place; the cells are untouched and the frame stays rectangular |
| Frame.DataFrame.Assign | gimport.py:37-38 | `df[name] = v` in place: the new header row and cells are those of `AssignedColumns`/`AssignedRows`, and the frame stays rectangular |
| Frame.AssignedColumns | gimport.py:37-38 | after `df[name] = v` the header row holds `name` and keeps the old header row as a prefix; it is unchanged when `name` is already a column and is `columns + [name]` otherwise |
| Frame.AssignedRows | gimport.py:37-38 | assignment keeps the row count, and every row has one cell per column of the new header row |
| Frame.AssignSpec | gimport.py:37-38 | after `df[name] = v`: `name` is a column; the old header row is a prefix of the new one; every cell of a column called `name` is `v`; every other cell is as before |
| Frame.AssignTwice | gimport.py:37-38 | after assigning two different names in turn, every row holds the first value in the first column and the second value in the second |
| Frame.AssignKeepsNoMissing | gimport.py:37-38 | assigning a present value keeps a frame free of missing cells |
| Frame.FillValue | gimport.py:23 | the fill value is never missing |
| Frame.FillCell | gimport.py:23 | defines `fillna` on one cell: a missing cell becomes the column's fill value, a present one stays; `FillMissing` states it for the whole frame |
| Frame.FillMissing | gimport.py:21-24 | rows and columns are kept and no cell is missing afterwards; a present cell is unchanged; a missing cell becomes `0` in a numeric column and `''` in any other |
| Frame.BaseName | gimport.py:37 | the file name contains no `/`; it is a suffix of the path; it is the whole path or is preceded by a `/` |
| KeyedInsert.Table.MyInsert | gimport.py:44-61 | the table becomes `InsertAll` of the batch; when a row lacks a key column, the loop stops at the first such row, with the rows before it already processed; distinct keys stay distinct |
| KeyedInsert.SqlEquals | gimport.py:49-51 | defines SQL `=` on one key cell: true only when both cells are present and equal, so NULL never matches, not even NULL; on present cells it is equality, as `KeyMatchIsKeyEquality` states |
| KeyedInsert.KeyMatch | gimport.py:49-57 | defines the duplicate query's `WHERE` clause bound to one batch row: every key column `SqlEquals` its parameter; `KeyMatchIsKeyEquality` states it is key-tuple equality on complete keys |
| KeyedInsert.HasKeyColumns | gimport.py:57 | defines when `row[key]` succeeds for every key column; `MyInsert` stops at the first row where it fails |
| KeyedInsert.KeyOf | gimport.py:57 | defines `tuple(row[key] for key in key_columns)`, the parameters bound to the query, in key-column order; `KeyMatchIsKeyEquality` relates it to the clause |
| KeyedInsert.IsDuplicate | gimport.py:57 | defines `is_duplicate` as `COUNT(*) > 0`; `CountMatchesPositive` states it holds exactly when some stored row matches |
| KeyedInsert.CountMatches | gimport.py:49-57 | `SELECT COUNT(*)` under the key clause never exceeds the number of stored rows |
| KeyedInsert.InsertOne | gimport.py:57-61 | one pass of the loop body: the stored rows stay in place, and the table grows by exactly one row, which is the batch row, exactly when the count is zero |
| KeyedInsert.InsertAll | gimport.py:55-61 | the loop over the batch: the stored rows stay in place and at most one row per batch row is added |
| KeyedInsert.CountMatchesPositive | gimport.py:49-57 | `COUNT(*) > 0` exactly when some stored row satisfies the key clause |
| KeyedInsert.KeyMatchIsKeyEquality | gimport.py:46-57 | on rows whose key cells are all present, the key clause holds exactly when the key tuples are equal |
| KeyedInsert.DistinctKeysIsDistinctTuples | gimport.py:46-57 | on a table whose rows all have complete keys, no two rows matching each other is the same as all key tuples being pairwise different |
| KeyedInsert.InsertAllStep | gimport.py:55-61 | a batch row is appended, as a whole, exactly when no row already in the table matches its key; that includes rows appended earlier in the batch |
| KeyedInsert.InsertAllAppendsOnly | gimport.py:55-61 | the table only grows, stored rows stay unchanged and in place, and each added row is a row of the batch |
| KeyedInsert.InsertAllKeepsDistinct | gimport.py:46-61 | if no two stored rows match each other's key, that still holds after the loop |
| KeyedInsert.DuplicateStaysDuplicate | gimport.py:57 | a row matched in a table is still matched once the table has grown |
| KeyedInsert.InsertAllCovers | gimport.py:55-61 | after the loop, every batch row with a complete key is matched by some row of the table |
| KeyedInsert.InsertAllOfCovered | gimport.py:55-61 | a batch whose rows are all matched already appends nothing |
| KeyedInsert.InsertAllIdempotent | gimport.py:46-61 | processing the same batch of complete-key rows a second time appends nothing |
| KeyedInsert.Clause | gimport.py:67 | defines `f'{col} = ?'`; `ConditionQueryInOrder` states the query built from it |
| KeyedInsert.Clauses | gimport.py:67 | one clause per column |
| KeyedInsert.BuildConditionQuery | gimport.py:66-67 | defines `' AND '.join(f'{col} = ?' ...)`; its shape is stated by `ConditionQueryInOrder` and `ConditionQueryPlaceholders` |
| KeyedInsert.ConditionQueryInOrder | gimport.py:66-67 | no columns give `""`; one column gives `col = ?`; each further column adds ` AND col = ?` at the end, so the clauses are in column order |
| KeyedInsert.ConditionQueryPlaceholders | gimport.py:66-67 | when no column name contains `?`, the clause has exactly one `?` per column |
| Importer.RowOf | gimport.py:55-57 | a record has exactly the frame's column names as keys, and each key holds that column's cell |
| Importer.Records | gimport.py:64 | one record per frame row |
| Importer.PreparedColumns | gimport.py:31-38 | the header row reaching `to_sql` starts with the cleaned workbook headers, holds `source_file` and `import_date`, and has at most two columns more |
| Importer.PreparedRows | gimport.py:31-38 | the cells reaching `to_sql`: one row per workbook row, each as wide as the prepared header row |
| Importer.PrepareFrame | gimport.py:28-38 | the frame that reaches `to_sql` is the cleaned, filled and stamped frame |
| Importer.ImportDataIntoDatabase | gimport.py:26-64 | the possible outcomes, each stated as an if-and-only-if: colliding cleaned headers, a missing key column (first row, table unchanged), or a completed import (the table is `InsertAll` of the prepared records); distinct keys are preserved |
| Importer.RecordsHaveKeys | gimport.py:57 | `row[key]` succeeds on a record exactly when the key is a column of the frame |
| Importer.PreparedRowsNoMissing | gimport.py:34-38 | the prepared frame is rectangular, keeps the row count and has no missing cell |
| Importer.PreparedRowsStamped | gimport.py:37-38 | every prepared row carries the file name in `source_file` and the given date in `import_date` |
| Importer.RecordsSpec | gimport.py:64 | each record holds the frame's cell under that column's name |
| Importer.RecordsKeyComplete | gimport.py:46-57 | records of a frame that has every key column and no missing cell have complete keys |
| Importer.PreparedRecordsKeyComplete | gimport.py:34-46 | once imputation and stamping have run, every prepared record has a complete key when the key columns are present |
| Importer.ImportIsIdempotent | gimport.py:26-64 | running the same import again, with the same path and date, leaves the table as it was after the first run |
| Duplicate.Window | duplicate.py:10 | defines the phrase `' '.join(words[i:i+k])`; `AllWindowsAreWindows` states which phrases are enumerated |
| Duplicate.AllWindows | duplicate.py:8-10 | defines the phrases the nested loops visit, by length then by start; their counts are stated by `AllWindowsCount` |
| Duplicate.Tally | duplicate.py:5-11 | defines the counter after a list of phrases; its keys and values are stated by `TallyCount` |
| Duplicate.Repeated | duplicate.py:14 | the read-out returns only keys of the counter whose count is above one |
| Duplicate.WindowsOfLength | duplicate.py:9-10 | there are `n - k + 1` windows of length `k` when `k <= n`, and none otherwise |
| Duplicate.Dedup | duplicate.py:5-11 | the dictionary's keys are exactly the phrases met, each once |
| Duplicate.TallyCount | duplicate.py:5-11 | the counter holds a key exactly for each phrase met, and its value is the number of times that phrase was met |
| Duplicate.DuplicatedPhrases | duplicate.py:3-16 | defines the function's result on the word list: the counter's keys, in first-seen order, whose count is above one; `DuplicatedPhrasesExact`, `DuplicatedPhrasesDistinct` and `DuplicatedPhrasesOrder` state what it holds |
| Duplicate.FindDuplicatedPhrases | duplicate.py:3-16 | the result is `DuplicatedPhrases` of the split text; a phrase is in it exactly when at least two (length, start) pairs give it |
| Duplicate.CountPhrases | duplicate.py:8-11 | after the nested loops, the counter and its key order are those filled from all windows, by length then by start |
| Duplicate.CountWindowsOfLength | duplicate.py:9-11 | the inner loop adds the windows of one length to the counter, in start order |
| Duplicate.CountsStep | duplicate.py:11 | `phrases[phrase] += 1` keeps the counter in step with the windows seen, and adds a new key at the end of the key order |
| Duplicate.WindowsOfLengthCount | duplicate.py:9-10 | the count of a phrase among the first `n` windows of one length is the number of those start positions that give it |
| Duplicate.AllWindowsCount | duplicate.py:8-11 | after the loops, the count of `p` equals the number of (length, start) pairs whose window is `p` |
| Duplicate.RepeatedMembership | duplicate.py:14 | the read-out keeps a key exactly when its count is above one |
| Duplicate.DuplicatedPhrasesExact | duplicate.py:8-14 | soundness and completeness: `p` is returned exactly when at least two (length, start) pairs in range give `p` |
| Duplicate.AllWindowsAreWindows | duplicate.py:8-10 | the enumerated phrases are exactly the space-joins of `k` consecutive words, for a length `k` in range |
| Duplicate.DuplicatedPhrasesAreWindows | duplicate.py:8-14 | every returned phrase is the space-join of `k` consecutive words of the text, with `k` in range |
| Duplicate.RepeatedNoDuplicates | duplicate.py:14 | reading out a duplicate-free key order gives a duplicate-free list of its keys |
| Duplicate.DuplicatedPhrasesDistinct | duplicate.py:5-14 | no phrase is returned twice |
| Duplicate.AllWindowsEmpty | duplicate.py:8-9 | an empty length range, or a text shorter than the minimum length, has no windows |
| Duplicate.DuplicatedPhrasesEmpty | duplicate.py:8-9 | an empty length range, or a text shorter than the minimum length, gives an empty result |
| Duplicate.FirstIndex | duplicate.py:5-11 | the first occurrence of a phrase: it is there and not earlier |
| Duplicate.DedupOrder | duplicate.py:5-11 | the dictionary's keys are in the order of their first occurrences |
| Duplicate.RepeatedOrder | duplicate.py:14 | the read-out keeps the key order |
| Duplicate.DuplicatedPhrasesOrder | duplicate.py:8-14 | returned phrases come in first-occurrence order: by window length, then by start position |

## Left out

- Reading the workbook (`pd.read_excel`, gimport.py:28) is not modelled. The parsed header row, the cells, and each column's numeric kind are parameters.
- pandas' dtype inference (gimport.py:23) is not modelled. Numbers are opaque values, and no arithmetic is done on them.
- The SQLAlchemy engine, `to_sql` and SQLite (gimport.py:41, 64) are replaced by an in-memory `Table` appended in place. Persistence, transactions, rollback after an error, and races between concurrent imports are not modelled.
- A stored table whose schema differs from the frame is not modelled. Columns a stored row lacks read as NULL.
- `datetime.now().date()` (gimport.py:38) is not modelled. The import date is a parameter, a day number.
- `Importer.ImportDataIntoDatabase` has an extra outcome, `DuplicateColumns`, that the code does not have. When two cleaned headers coincide, rows cannot be keyed by column name, so the model stops before inserting. The code does not check for this case. The code raises no error for an empty cleaned header either, and neither does the model.
- Header cleaning treats the removal at gimport.py:16 as a regular-expression character class. That was the pandas behaviour the code was written for; pandas 2 treats the pattern literally.
- Lower-casing is ASCII only. Only ASCII letters, digits and `_` remain when it runs, so this equals Python's `str.lower`.
- Rows are modelled as name-indexed records, as `row[key]` at gimport.py:57 requires. The positional tuples pandas hands to a `to_sql` method are not modelled.
- SQL `=` is modelled as never true on NULL. `KeyedInsert.InsertAllIdempotent` therefore needs complete keys, which imputation and stamping guarantee (`Importer.PreparedRecordsKeyComplete`).
- `Duplicate.FindDuplicatedPhrases` only accepts a minimum phrase length of zero or more. Python slices with negative indexes count from the end, and that case is not modelled.
- `__main__` blocks and prints (gimport.py:69-77, duplicate.py:18-23) are not modelled.
- The test module `gimport_test.py` is not modelled. Its expectation of 3 stored rows (gimport_test.py:64, 104) does not follow from the code: the fill rule gives its sample data 4 distinct key tuples. The expected output in the comment at duplicate.py:23 is wrong in four of its seven phrases. `'a test test'`, `'test test to'` and `'is a test to'` occur only once in that text. `'a test to test'` never occurs, because the text ends in `test.` with its period. The code returns `['This is a', 'is a test', 'This is a test']` for that call.
