# WISE file catalog and overlap store — verified model

`sql_funcs.py` is a layer of helpers around a single-file SQLite database. The database catalogs WISE image files in a `files(id, prefix, band)` table and records pairwise overlaps between them in `overlaps(overlap_id, file1_id, file2_id, background1, background2)`. This project models the parts of that layer that do not depend on the database engine, and proves what they do:

- **Catalog ingest** (`create_file_database`). The listing is filtered to lines containing `int`. Each kept line is cut to its last `/` segment. Each segment becomes the row `(segment[:9], segment[11])`, and the rows are inserted one by one, in listing order (module `Catalog`; the `files` table is the class `Catalog.FilesTable`, a sequence of rows).
- **Database path resolution**, by the two rules of `create_file_database` and `create_overlaps_table` (module `Paths`).
- **The INSERT statement of `create_entry`**, with its `?,?,…,?` parameter list (module `Sql`).
- **Column removal** (`remove_column`). The first column whose stripped name is the one to drop is popped, and the table is rebuilt with the surviving columns and their values (module `Schema`; the table is the class `Schema.Table`).
- **Overlap deduplication** (`remove_duplicates`). A row is deleted when another row has the same ordered `(file1_id, file2_id)` pair and a smaller `overlap_id` (module `Overlaps`).

Module `Text` gives Python 2's string operations on byte strings the same meaning: `t in s`, `s.split(c)`, `sep.join(parts)`, `s.split(c)[-1]` and `s.strip()`. `Wrappers` holds an `Option` type.

`remove_column` creates the new table from the same comma-joined list of surviving names it uses for the copy (sql_funcs.py:178-186), so the rebuilt columns have no types or constraints.

Errors the code raises are modelled as results:

- A kept file name shorter than 12 characters makes `item[11]` raise. The ingest then stops, and the rows inserted before it stay, because every `create_entry` commits on its own. The model returns `IndexError(k)`, and the table holds the rows of the first `k` kept names.
- A column that is absent makes `np.where(...)[0][0]` raise before anything changes. `RemoveColumn` returns `NoSuchColumn` and leaves the table as it was.
- Removing a table's only column leaves no names for the rebuild script's `CREATE TABLE`, which SQLite rejects. The script raises before its `COMMIT`, so the rename is never committed and the table stays as it was. `RemoveColumn` returns `NoColumnLeft` and leaves the table as it was.

## Model

| member | source | states |
|---|---|---|
| Text.Contains | sql_funcs.py:107 | `'int' in x` is true exactly when `int` occurs at some position of the line |
| Text.Split | sql_funcs.py:89 | `split("/")` gives at least one piece, and no piece contains the separator |
| Text.SplitCount | sql_funcs.py:89 | there is one more piece than there are separators |
| Text.Join | sql_funcs.py:68 | `sep.join(parts)` starts with the first piece and is at least as long as the separators between the pieces (`SplitJoin` and `JoinSplit` tie it to `split`) |
| Text.LastSegment | sql_funcs.py:107 | `split("/")[-1]` never contains `/`, and a name without `/` is its own last segment |
| Text.JoinSplit | sql_funcs.py:89 | joining the pieces of a split with the separator gives back the original string |
| Text.SplitJoin | sql_funcs.py:68 | splitting a join of separator-free pieces gives back the pieces |
| Text.LastSegmentIsSuffix | sql_funcs.py:107 | `split("/")[-1]` is the suffix after the last `/`: it contains no `/`, is all of the string when there is no `/`, and is preceded by a `/` otherwise |
| Text.LastSegmentAfterSeparator | sql_funcs.py:91 | the last segment of a directory ending in `/` followed by a slash-free name is that name |
| Text.LastSegmentIdempotent | sql_funcs.py:89 | taking the last segment twice gives the same result as taking it once |
| Text.StripLeft | sql_funcs.py:173 | `lstrip` leaves a suffix of the string; everything it removed is whitespace; what is left does not start with whitespace |
| Text.StripRight | sql_funcs.py:173 | `rstrip` leaves a prefix of the string; everything it removed is whitespace; what is left does not end with whitespace |
| Text.Strip | sql_funcs.py:173 | `strip` leaves no whitespace at either end, and leaves nothing exactly when the name is all whitespace |
| Text.StripIsPiece | sql_funcs.py:173 | what `strip` leaves is the piece of the name that starts right after its leading whitespace |
| Text.StripRemovesOnlyEnds | sql_funcs.py:173 | everything after that piece is whitespace; with `StripLeft`'s contract for everything before it, `strip` removes only leading and trailing whitespace |
| Text.StripTrimmed | sql_funcs.py:173 | a name with no whitespace at either end is left unchanged by `strip`, so stripping an already stripped name changes nothing |
| Paths.StorageDirShape | sql_funcs.py:91 | the storage directory is non-empty, ends with `/` and contains no `.` |
| Paths.FileDbPath | sql_funcs.py:89-91 | the resolved path is the storage directory followed by a slash-free suffix of the name: all of the name when it has no `/`, and otherwise the text after a `/` of the name |
| Paths.FileDbPathIdempotent | sql_funcs.py:89-91 | resolving twice gives the same path as resolving once |
| Paths.OverlapsDbPath | sql_funcs.py:119-122 | the overlaps rule always gives a path containing `/`, and that path is either the name as given or the path `create_file_database` would use for it |
| Paths.StoredPathHasNoDotSlash | sql_funcs.py:119-122 | a storage-directory path to a slash-free file name never contains `./` |
| Paths.OverlapsDbPathIdempotent | sql_funcs.py:119-122 | applying the overlaps rule twice gives the same path as applying it once |
| Paths.PathRulesAgreement | sql_funcs.py:119-122 | the two rules give the same path for a bare name and for a name containing `./`; any other name containing `/` is used by the overlaps rule as given, the one case where the rules can differ |
| Sql.Placeholders | sql_funcs.py:68 | the parameter list is empty exactly when the entry is, and otherwise starts with `?` |
| Sql.PlaceholdersShape | sql_funcs.py:68 | the parameter list alternates `?` and `,`, starting with `?`, and has `2n-1` characters for `n >= 1` (none for `n = 0`) |
| Sql.PlaceholdersCount | sql_funcs.py:68 | the list has exactly `n` `?` markers and `n-1` commas |
| Sql.PlaceholdersSplit | sql_funcs.py:68 | splitting the list at its commas gives exactly `n` single `?` pieces |
| Sql.InsertStatement | sql_funcs.py:67-68 | the INSERT text holds the `n` parameter markers and the `?` characters of the table name and column list, and no others; so a statement whose names have no `?` binds exactly one parameter per value |
| Catalog.KeptSegments | sql_funcs.py:107 | the filter gives at most one file name per line, and no kept file name contains `/` |
| Catalog.KeptIndices | sql_funcs.py:107 | the positions of the lines containing `int`: strictly increasing, each such a line, and every such line included |
| Catalog.KeptSegmentsSpec | sql_funcs.py:107 | the filter keeps one file name per line containing `int`, in listing order, and each is that line's last `/` segment |
| Catalog.KeptSegmentsAppend | sql_funcs.py:107 | filtering a concatenated listing gives the concatenation of the filtered parts |
| Catalog.ParseEntry | sql_funcs.py:111 | a name of at least 12 characters gives a 9-character prefix and a 1-character band, which together with characters 9-10 and the tail rebuild the name; a shorter name is the index error |
| Catalog.ParseWiseFrameName | sql_funcs.py:86-111 | for a WISE frame name made from a 9-character prefix and a band digit, parsing recovers that prefix and band, and the name passes the `int` filter |
| Catalog.FirstShort | sql_funcs.py:108-111 | gives the first kept name too short to index at 11, or nothing when every name is long enough |
| Catalog.FilesTable.CreateEntry | sql_funcs.py:67-73 | the table gains exactly the given row at its end; the statement executed is the INSERT for `files (prefix, band)` with two parameters |
| Catalog.FilesInsertParameters | sql_funcs.py:67-68 | the INSERT the ingest executes for `files (prefix, band)` binds exactly two parameters |
| Catalog.IngestResult | sql_funcs.py:108-113 | the ingest ends normally exactly when every kept name has at least 12 characters, with one row per name; otherwise it stops with `IndexError` at the first short name, with one row per name before it; each row is the parse of the name at its position |
| Catalog.CreateFileDatabase | sql_funcs.py:105-113 | the existing rows are kept; one row per kept name is appended in order; at the first name too short to parse, the ingest stops with `IndexError` at that position and keeps the rows before it |
| Catalog.InsertAll | sql_funcs.py:108-113 | the insert loop appends the rows given by `IngestResult` for the kept names, and ends as `IngestResult` says |
| Catalog.IngestAllRows | sql_funcs.py:108-113 | when every kept name is long enough, the table grows by one row per line containing `int`, the old rows are unchanged, and the row for the `j`th such line is parsed from that line's last segment |
| Catalog.IngestExample | sql_funcs.py:105-113 | listing `/a/xxxxxxxxxintYband.fits`, `/a/skip_this_one.fits` keeps one name and ingests the single row `("xxxxxxxxx", "t")` |
| Schema.FirstIndexOf | sql_funcs.py:173 | finds the first position holding the name, or nothing exactly when the name is absent |
| Schema.FirstMatch | sql_funcs.py:172-173 | finds the first column whose stripped name equals the one to drop, or nothing exactly when there is none |
| Schema.RemoveAt | sql_funcs.py:173 | `pop(k)` leaves one element fewer, the elements before `k` in place and those after it moved down by one |
| Schema.RemoveAtSpec | sql_funcs.py:173 | `pop(k)` removes exactly one copy of the element at `k` and nothing else |
| Schema.SurvivingColumns | sql_funcs.py:172-173 | an absent column is an error, not a no-op; otherwise exactly the first name that strips to the dropped column is removed, the others keep their order, and no survivor matches when the removed name was the only match |
| Schema.Table.RemoveColumn | sql_funcs.py:165-188 | with no match, or when the match is the only column, the table is unchanged and the outcome names the error; otherwise the columns are the survivors, each row loses exactly the dropped column's value (so every surviving cell keeps the value it had under that column), and every row still has one value per column |
| Overlaps.KeepUnsuperseded | sql_funcs.py:205-212 | a row is kept exactly when it is in the table and no row has the same pair with a smaller `overlap_id` |
| Overlaps.RemoveDuplicates | sql_funcs.py:205-212 | the delete keeps only rows of the table, never more of them, and no row left has a same-pair row left with a smaller `overlap_id` |
| Overlaps.RemoveDuplicatesKeepsMinimum | sql_funcs.py:205-212 | a row survives exactly when its `overlap_id` is the minimum of its pair |
| Overlaps.MinimumOfPair | sql_funcs.py:205-212 | every pair present has a row with the minimum `overlap_id` of that pair |
| Overlaps.RemoveDuplicatesKeepsPairs | sql_funcs.py:205-212 | every pair present before the delete is still present after it, by a row with an id no larger |
| Overlaps.RemoveDuplicatesOnePerPair | sql_funcs.py:205-212 | when `overlap_id` values are distinct (the primary key), exactly one row per pair survives |
| Overlaps.KeepUnsupersededAll | sql_funcs.py:205-212 | a table in which no row is superseded is left exactly as it is |
| Overlaps.RemoveDuplicatesIdempotent | sql_funcs.py:205-212 | running the delete a second time deletes nothing |
| Overlaps.KeepUnsupersededAppend | sql_funcs.py:205-212 | the survivors keep their table order |

## Left out

- Everything that talks to SQLite is left out: `create_connection`, `create_table`, cursors, `executescript`, transactions, `PRAGMA foreign_keys` and the commit behaviour of `with conn`. The library's behaviour is not visible here. Each table is represented by the object passed to the operation instead of a table looked up by path and name.
- Connection failure handling is left out, because it depends on the SQLite library. This covers the `None` from `create_connection`, the printed messages, and the crash when a later call uses `None`.
- `add_column`, `remove_table` and `update_entry` are left out. They pass caller-supplied SQL fragments through `format` and have no logic of their own.
- Reading the listing file and `splitlines()` are left out. They are file input, so the ingest takes the listing as a sequence of lines.
- The progress report after each insert (`pah_mapping.print_progress`) is left out: it calls a module that is not part of this model, and it only prints.
- The `__main__` block is left out: argument handling, the `file1_id` query, the numpy array and the histogram are I/O and plotting.
- How SQLite assigns row ids is left out: `Catalog.FileEntry` has no `id`, `Overlaps.Overlap` takes `overlap_id` as given, and `create_entry`'s `cursor.lastrowid` is not modelled.
- SQLite's type affinity is left out. The band is stored as the one-character string the code passes; converting it to the `integer` column type is the engine's work.
- Catalog.FilesTable.CreateEntry: models only the call the ingest makes, with table `files` and columns `(prefix, band)`. The general statement text for any table, column list and entry size is `Sql.InsertStatement`.
- Schema.Table.RemoveColumn is modelled by its effect, not its script text. The columns of the rebuilt table are names only, so the model does not show that their types and constraints (`PRIMARY KEY`, `NOT NULL`) are lost. The `_temp_table` step is not modelled either, so neither is its failure when a table of that name already exists. Of the ways the script can fail, only the empty column list is modelled.
- The DDL text of `create_overlaps_table` and of the `files` table is not modelled.
- Each `char` of a Dafny string stands for one byte of a Python 2 byte string. `item[:9]` and `item[11]` count bytes, so the model matches the code only for file names in ASCII.
- `Text.Strip` uses the ASCII whitespace set that Python 2's `str.strip()` removes from byte strings. Unicode whitespace is not considered.
