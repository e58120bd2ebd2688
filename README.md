# Treasury yield-curve store: a Dafny model

`update_yield_data.py` keeps a local CSV of daily U.S. Treasury par
yield-curve rates. One run fetches the Treasury's table for the year,
normalises its column headers (surrounding whitespace stripped, then a fixed
rename table applied, which only turns `1.5 Month` into `1.5 Mo`), keeps the
fifteen canonical columns (`Date`, `1 Mo` … `30 Yr`) in canonical order,
parses the dates, and selects the latest fetched row. It then loads the
stored table (or starts an empty one when no file exists) and, when the
latest row's date is not already stored, prepends it, sorts the table by
date newest first and rewrites the file; otherwise nothing changes.

This project models that run:

- `wrappers.dfy` — `Option` and `Result`.
- `headers.dfy` (module `Headers`) — Python's `str.strip()` over the
  `isspace` characters, the rename table, header normalisation and the
  projection `df[relevant_cols]`, including pandas' behaviour on a missing
  label (the error lists every missing label) and on a duplicated one (every
  column carrying the label is kept).
- `table.dfy` (module `Table`) — rows keyed by a `Date` that is a parsed day
  or `NaT`, and `sort_values('Date')` in both directions with `NaT` placed
  last either way. pandas' default sort is not stable, so the model's sort is
  specified only as "ordered and a permutation of its input", and every
  property of the script is proved from that specification.
- `reconcile.dfy` (module `Reconciliation`) — the latest-row selection of
  line 49 as written, the corrected selection (see Findings), and the
  membership-guarded prepend-and-sort of lines 59-66, stated on values.
- `store.dfy` (module `YieldStore`) — the whole pipeline from the fetched
  frame to the latest row, and a `Store` class holding the file and the
  in-memory table (`df_all`) that one run updates in place.

The script appends only the single latest fetched row: it does not backfill
earlier missing dates and does not de-duplicate the stored table, and an
empty fetch stops it at line 60. The run itself (`YieldStore.Run`) selects
the latest row with the correction described under "Findings", which sets
undated rows aside; line 49 as written is modelled separately
(`Reconciliation.Latest`) together with the behaviour it causes.

## Model

| member | source | states |
|---|---|---|
| Headers.IsSpace | update_yield_data.py:21 | the whitespace set of Python's `str.isspace()`; on ASCII it is exactly tab, line feed, vertical tab, form feed, carriage return, the four separators U+001C-U+001F and space |
| Headers.Strip | update_yield_data.py:21 | the stripped header is no longer than the header and has no whitespace at either end |
| Headers.StripCorrect | update_yield_data.py:21 | stripping removes exactly the leading and trailing whitespace: the result is a contiguous piece of the header, bracketed by whitespace only, whose own first and last characters are not whitespace |
| Headers.StripUnique | update_yield_data.py:21 | any string with that property is the stripped header, so stripping is specified independently of its implementation |
| Headers.StripIdempotent | update_yield_data.py:21 | stripping an already stripped header changes nothing |
| Headers.StripOfClean | update_yield_data.py:21 | a header with no whitespace at either end is left unchanged by stripping |
| Headers.Rename | update_yield_data.py:22-39 | the rename table changes only `1.5 Month`, into `1.5 Mo`; every other header is left as it is |
| Headers.NormaliseHeader | update_yield_data.py:21-39 | a normalised header is the stripped header, except that a header stripping to `1.5 Month` becomes `1.5 Mo` |
| Headers.NormaliseHeaderIdempotent | update_yield_data.py:21-39 | normalising twice is normalising once |
| Headers.CanonicalNamesAreFixed | update_yield_data.py:22-42 | every canonical column name is left unchanged by normalisation, so a canonical stored header survives it |
| Headers.Normalise | update_yield_data.py:21-39 | the frame keeps its rows and column count, and column `i` is labelled by the normalised header `i` |
| Headers.Occurrences | update_yield_data.py:43 | the columns a label selects are exactly the columns carrying it, in increasing column order |
| Headers.MissingNames | update_yield_data.py:43 | the reported missing labels are exactly the requested labels no column carries |
| Headers.Project | update_yield_data.py:43 | the projection fails exactly when a requested label is missing, reporting exactly the missing labels; otherwise it keeps every row and only requested labels |
| Headers.SelectionLength | update_yield_data.py:43 | when every requested label is present, at least one column is selected per label, and exactly one per label only when each label labels a single column |
| Headers.SelectionOfUnique | update_yield_data.py:43 | when each requested label labels a single column, the selection is that column for each label, in the requested order |
| Headers.ProjectExactly | update_yield_data.py:42-43 | the projected columns are exactly the canonical list if and only if every canonical label labels exactly one column, and then every cell is the cell of the column carrying that label |
| Table.Insert | update_yield_data.py:62 | inserting a row into a date-sorted table keeps it sorted and adds exactly that row |
| Table.SortValues | update_yield_data.py:49-62 | the sorted table is ordered by date in the requested direction with undated rows last, and is a permutation of its input |
| Table.NoDuplicatesCount | update_yield_data.py:60-62 | a date column has no repeated date exactly when no date occurs more than once in its multiset |
| Table.DatesOfPermutation | update_yield_data.py:62 | reordering rows reorders their dates, so sorting keeps the multiset of dates |
| Table.DistinctDatesOfPermutation | update_yield_data.py:62 | sorting neither creates nor removes a repeated date |
| Reconciliation.LastIsMaximal | update_yield_data.py:49 | the last row of an ascending date sort is a row of the table at or after every row |
| Reconciliation.Latest | update_yield_data.py:49 | as written: no row exactly when the fetch is empty; otherwise a fetched row at or after every fetched row in ascending date order, undated rows counting as latest |
| Reconciliation.LatestWhenAllParsed | update_yield_data.py:46-49 | when every fetched date parsed, the selected row has the greatest fetched date |
| Reconciliation.LatestPrefersUnparsed | update_yield_data.py:46-49 | as written, one unparseable fetched date is enough for the selected row to be undated |
| Reconciliation.Parsed | update_yield_data.py:46 | the rows set aside by the corrected selection are exactly the undated ones |
| Reconciliation.LatestParsed | update_yield_data.py:46-49 | corrected selection: nothing exactly when no fetched date parsed; otherwise a dated fetched row whose date is at least every parsed fetched date |
| Reconciliation.LatestParsedAgrees | update_yield_data.py:46-49 | when every fetched date parsed, the corrected selection is the selection line 49 makes |
| Reconciliation.Present | update_yield_data.py:60 | a date is stored exactly when it is a parsed date equal to some stored row's date; an undated row is never stored |
| Reconciliation.Reconcile | update_yield_data.py:59-62 | nothing changes if and only if the latest date is a stored date (an undated row never is); otherwise the table is sorted newest first, holds exactly the stored rows plus the latest one, and is one row longer |
| Reconciliation.Reconciled | update_yield_data.py:59-62 | the table after the run: the stored table when the latest date is stored, otherwise a table sorted newest first holding exactly the stored rows plus the latest one |
| Reconciliation.FirstRun | update_yield_data.py:53-62 | on an empty store the table becomes exactly the latest row |
| Reconciliation.PrependKeepsRows | update_yield_data.py:60-62 | after a prepend every stored row and the latest row are in the table |
| Reconciliation.Idempotent | update_yield_data.py:59-66 | reconciling the same dated row a second time changes nothing |
| Reconciliation.UnparsedLatestRepeats | update_yield_data.py:46-62 | an undated latest row is prepended on every run, growing the table by one each time |
| Reconciliation.KeepsDatesDistinct | update_yield_data.py:59-62 | a store whose dates are distinct keeps them distinct when a dated row is reconciled |
| Reconciliation.KeepsConformance | update_yield_data.py:42-62 | when the stored and latest rows have one cell per canonical maturity, so does every row of the reconciled table |
| Reconciliation.UnparsedDateSelected | update_yield_data.py:46-49 | concrete case: from rows dated 2025-01-06 and unparseable, line 49 selects the undated row |
| Reconciliation.UnparsedRowAppendedTwice | update_yield_data.py:46-62 | concrete case: two runs with the undated row leave it stored twice |
| Reconciliation.ParsedDateFix | update_yield_data.py:46-62 | concrete case: the corrected selection picks the 2025-01-06 row, and a second run stores it once |
| YieldStore.ToRows | update_yield_data.py:43-46 | one row per row of the canonical frame: its date is the parse of the frame's `Date` cell and its rate cells are the frame's remaining cells in canonical maturity order |
| YieldStore.ProjectedDates | update_yield_data.py:43-46 | each row's date is the parse of that fetched row's cell under the normalised `Date` header |
| YieldStore.ProjectedRates | update_yield_data.py:42-46 | on a frame whose canonical headers each label one column, every rate cell of a row is the cell under that maturity's header |
| YieldStore.FetchedRows | update_yield_data.py:21-46 | the fetch is rejected as missing columns exactly when a canonical name is absent after normalisation (listing exactly those names), as duplicate columns exactly when all are present but one labels several columns; otherwise every fetched row is kept, its date parsed from its `Date` cell and each rate cell taken from the fetched cell under that maturity's normalised header |
| YieldStore.LatestFetched | update_yield_data.py:46-60 | a rejected fetch is passed on unchanged; otherwise the empty-selection error exactly when no fetched date parsed, and else a dated fetched row whose date is at least every parsed fetched date |
| YieldStore.Store.Open | update_yield_data.py:53-57 | the table is the stored rows, or empty when there is no file |
| YieldStore.Store.AppendLatest | update_yield_data.py:59-66 | writes if and only if the latest date is not stored; after a write the file holds the new table, sorted newest first, with exactly the old rows plus the latest; without one neither table nor file changes; row shape and distinct dates are preserved |
| YieldStore.Run | update_yield_data.py:21-66 | a rejected fetch leaves the store untouched; otherwise the table becomes the reconciliation of the latest fetched row, and the file is rewritten exactly when that row was new |
| YieldStore.RunTwice | update_yield_data.py:21-66 | a second run on the same fetch writes nothing and leaves the store as the first run left it; when the first run rejects the fetch, so does the second and the store is untouched |

## Left out

- The HTTP fetch and its status check (lines 11-12): the fetched table is a parameter of `YieldStore.Run`.
- CSV reading and writing (lines 15, 54, 63): the file is an `Option` of parsed rows, `None` when it does not exist, so the existence check of line 53 is the `Option`; a write stores the table's rows.
- Date parsing (line 46): `pd.to_datetime(..., errors='coerce')` is the `parse` parameter, returning `NaT` for a string it cannot parse; dates are whole days, which the Treasury's dates are.
- Date format inference (line 46): `parse` reads each cell on its own, whereas `pd.to_datetime` infers one format from the first non-null date and turns cells of another format into `NaT`, so in pandas one row's date can depend on the other rows.
- The stored file's date parsing (line 55), which raises on an unparseable stored date: stored rows are taken as already parsed.
- The stored file's header: it is taken to be the canonical column list, so the concatenation of line 61 lines the two tables up column by column.
- Rate values are opaque cells: the script never computes on them.
- The printed messages (lines 18, 64, 66, 68), including the maximum date printed at the end.
- YieldStore.FetchedRows: a canonical name that labels two columns after normalisation stops the model with `DuplicateColumns`; pandas fails later (at line 46 for `Date`) or carries the extra column into the concatenation of line 61.
- Headers.Project: requires rows as long as the header, which `read_csv` guarantees by padding short rows.
- YieldStore.LatestFetched: uses the corrected selection of the finding below, not line 49 as written, so undated rows are set aside; a fetch whose dates all fail to parse stops with `NoDatedRows`, where the script selects an undated row and prepends it. Line 49 as written is `Reconciliation.Latest`, and `Reconciliation.LatestParsedAgrees` shows the two agree whenever every date parses.
- YieldStore.Run: runs through `YieldStore.LatestFetched`, so it inherits the corrected selection and the `NoDatedRows` stop described on the line above.
- Reconciliation.Reconcile: fixes one of the orders pandas' unstable sort may give rows with equal dates; every property is proved from the sort's specification and holds for any of them.

## Findings

| source | as written | input that shows it | evidently intended | confidence | as-written member | corrected member |
|---|---|---|---|---|---|---|
| update_yield_data.py:46-60 | line 46 turns an unparseable date into `NaT`, line 49's ascending sort places `NaT` last so the undated row is selected, and `NaT in values` is always false, so line 61 prepends that row on every run and the newest real date is never stored | a fetch with one row dated 2025-01-06 and one row whose date does not parse, run twice on an empty store | select the row with the greatest parsed date, so that a second run changes nothing | medium, not executed | Reconciliation.UnparsedRowAppendedTwice | Reconciliation.LatestParsed |
