# GRT dashboard grabber: the year-keyed upsert

This project models the reconciliation core of `scrape.py`. The script reads
the rows of a table rendered in an embedded analytics dashboard and upserts them
into the `PowerBIData` table, keyed by `Year`.

- **Row shaping** (`Extract`). A rendered row becomes `[year] + cells` only if it
  has a row header. Grid cells are kept in document order. The cell rule is
  modelled as written: a cell is NULL only when its stripped text is a lone
  U+00A0. Python's `strip()` removes U+00A0 itself, so the model proves that this
  branch is dead. Every cell keeps its raw, unstripped text.
- **Fill-only merge** (`Merge`). A stored column keeps its value unless it is
  NULL or whitespace only and the scraped value is not NULL. A NULL scraped value
  never overwrites anything, not even a blank column.
- **The table** (`Store`). An in-memory map from year to thirteen nullable
  columns (Jan..Dec, Total). `Table.Upsert` inserts a row whose year is absent
  exactly as extracted, and merges any other row into the stored one.
  `Table.ProcessRows` upserts the extracted rows in order, one commit per row.
- **Whitespace** (`PyStr`). Python's `str.isspace()` and `str.strip()`, including
  U+0085, U+00A0 and the other Unicode separators.

Beyond the per-call contracts, the model proves these:
- A set column is never replaced by later upserts.
- Repeating a whole run on the same page changes nothing.
- A later row whose year appeared earlier in the same run is merged into the stored row, not inserted again.
- When every header parses and every headed row has thirteen cells, every extracted year is present after the run.

Failure paths are modelled as results, not preconditions. Some rows have the
wrong number of cells. The `execute` call, or indexing in `update_data`, then
raises. The run stops at that row, and the rows already committed stay. A row
header that does not parse as an integer makes `int()` raise during extraction.
The run then ends before the table is touched. `Table.Scrape` reports either
failure by returning `false`, which stands for the exception leaving
`scrape_powerbi_table`.

Two consequences of the code as written:
- Only rows without a row header are dropped. A header that `int()` cannot
  parse aborts the run before the table is touched.
- The cell rule's NULL branch can never fire. A lone U+00A0 cell is stored as
  its raw text, and the merge treats that text as unset, because it strips to
  the empty string.

## Model

| member | source | states |
|---|---|---|
| PyStr.IsSpace | scrape.py:90 | the whitespace set of Python's `str.isspace()`: it contains the ASCII blanks and U+00A0, and no digit or ASCII letter |
| PyStr.Strip | scrape.py:90 | `strip()` yields the slice of the text with only whitespace before and after it; the slice is empty exactly when the text is all Python whitespace, and otherwise it has no whitespace at either end |
| PyStr.TrimFacts | scrape.py:90 | cutting leading and then trailing whitespace leaves a slice with only whitespace around it, empty exactly when the text is whitespace only |
| PyStr.StripIsNeverNbsp | scrape.py:151 | no text strips to a lone U+00A0, since U+00A0 is itself whitespace to `strip()` |
| Merge.IsUnset | scrape.py:90 | a stored column is unset exactly when it is NULL or its text is whitespace only |
| Merge.MergeField | scrape.py:90-93 | the merged column is the stored one or the new one; a set stored value is kept; a NULL new value never overwrites; a non-NULL new value fills an unset column |
| Merge.MergeFields | scrape.py:88-93 | the merged row has one entry per column, in order, and each column follows the per-column rule |
| Merge.BuildUpdatedData | scrape.py:88-93 | the loop that appends to `updated_data` produces exactly the merged row |
| Merge.MergeSetIff | scrape.py:90-93 | after a merge a column is set if and only if the stored or the new value was set |
| Merge.MergeIdempotent | scrape.py:90-93 | merging the same new row twice gives the same row as merging it once |
| Merge.MergeSelf | scrape.py:90-93 | merging a row into an identical stored row changes nothing |
| Merge.MergeIntoNulls | scrape.py:98-102 | merging into an all-NULL row gives the new row exactly, which is what an insert stores |
| Merge.MergeComplete | scrape.py:90-93 | a row whose columns are all set is a fixed point of the merge |
| Merge.FoldField | scrape.py:166-176 | over any series of merges, a set column keeps its value, and the result is the start value or one of the scraped values |
| Merge.FoldFieldAppend | scrape.py:166-176 | merging with one series, then another, is merging with their concatenation |
| Merge.FoldFieldIdempotent | scrape.py:166-176 | replaying the same series of merges on a column leaves it as the first pass left it |
| Merge.BlankIsFilled | scrape.py:90-91 | a stored column whose text is whitespace only is filled by any non-NULL scraped value |
| Merge.NbspIsBlank | scrape.py:90 | a stored column holding only the U+00A0 placeholder counts as unset |
| Merge.MergeExample | scrape.py:89-93 | stored (NULL, "10") merged with new ("3", "99") gives ("3", "10") |
| Extract.NormalizeCell | scrape.py:151 | the cell rule as written always keeps the raw cell text |
| Extract.NormalizeCells | scrape.py:151 | one value per grid cell, in order, each the raw text |
| Extract.Headed | scrape.py:146-148 | the rows kept are the DOM rows with a row header, and every such row is kept |
| Extract.HeadedAppend | scrape.py:146-155 | the kept rows keep document order and multiplicity: filtering a concatenation filters each part in turn |
| Extract.HeadedSingle | scrape.py:147-148 | a single DOM row is kept exactly when it has a row header |
| Extract.ShapeRows | scrape.py:146-155 | extraction succeeds exactly when every row header parses; it then yields one row per headed DOM row, in order, each the parsed year followed by the raw cell texts |
| Extract.AbortPersists | scrape.py:149 | once a row header fails to parse, the whole extraction fails whatever follows |
| Extract.ExtractRows | scrape.py:146-155 | the extraction loop computes the shaped rows, or fails as `int()` does |
| Store.Upserted | scrape.py:166-176 | one upsert adds the row's year, leaves other years alone, stores the row as extracted when the year was absent, and otherwise stores the merge |
| Store.UpsertAll | scrape.py:166-176 | after upserting a series of rows, the years stored are the old years plus every year extracted, each row with thirteen columns |
| Store.WellFormedPrefix | scrape.py:96 | the rows before the first one of the wrong width are all accepted by the SQL statements |
| Store.RunResult | scrape.py:146-176 | a run never removes a year from the table |
| Store.RunStoresEveryYear | scrape.py:146-176 | when every header parses and every headed row has thirteen cells, the run stores a row for the year of every headed DOM row |
| Store.UpsertCell | scrape.py:168-175 | an upsert acts on each column of its own year as one merge step (absent counts as NULL) and on nothing else |
| Store.UpsertAllCell | scrape.py:166-176 | after a run each column holds the merge rule folded over the values scraped for that year and column |
| Store.CellsDetermineTable | scrape.py:41-56 | two tables with the same years and the same column values are the same table |
| Store.RerunIdempotent | scrape.py:166-176 | upserting the same rows again after a run changes nothing |
| Store.SetFieldsStable | scrape.py:166-176 | a stored column that is set keeps its value through any later series of upserts |
| Store.LaterRowIsMerged | scrape.py:166-176 | a row whose year an earlier row of the same run had is merged into the stored row, never inserted twice |
| Store.UpsertIdempotent | scrape.py:168-175 | upserting the same row twice leaves the table as one upsert does |
| Store.RunIdempotent | scrape.py:132-176 | repeating a whole run on the same page changes nothing |
| Store.Table.constructor | scrape.py:39-59 | a freshly created table is empty |
| Store.Table.DataExists | scrape.py:63-66 | returns the stored row for the year exactly when one exists |
| Store.Table.InsertData | scrape.py:98-102 | stores the row as extracted under its year; fails, changing nothing, on a duplicate year or a wrong number of values |
| Store.Table.UpdateData | scrape.py:68-96 | writes the merge of the stored and new columns under the new row's year; nothing else changes; a row of the wrong width fails before anything is written |
| Store.Table.Upsert | scrape.py:167-175 | the table becomes the upsert of the row, or stays as it was when the row has the wrong width |
| Store.Table.ProcessRows | scrape.py:166-176 | the table becomes the in-order upsert of the rows before the first malformed one; it succeeds exactly when there is none |
| Store.Table.Scrape | scrape.py:132-176 | the table becomes the result of the whole run on the parsed page; the run reports failure exactly when a row header does not parse or an extracted row has the wrong width, and an empty page returns normally |

## Left out

- Browser automation: driver setup, page loading, the 30-second wait for the table, and `driver.quit`. This is browser I/O.
- HTML parsing and CSS selection. These are calls into a foreign library. Their output is the input `seq<DomRow>`: the optional row-header text and the grid-cell texts of each `role='row'` element.
- `int(row_header.text)`: Python's parsing rules are library behaviour. It is the parameter `parse`, and a `None` result is the raised `ValueError`.
- MySQL connection handling, its error codes, `CREATE TABLE` and `commit`. These are database I/O. The table is the in-memory map, and each upsert takes effect at once, as the per-row commit does.
- The `Year INT` and `VARCHAR(255)` column limits: the model does not reject an out-of-range year or an over-long cell text, which the database might refuse.
- The connection failure path: it returns before anything is written, so it is the same as not running.
- `timestamped_print`, `load_dotenv` and environment variables. These are logging and configuration.
- Concurrent runs against the same table. The script has no locking, and the model is single-threaded.
