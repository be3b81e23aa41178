# Schema loader model (arkatechture-journey, main.py)

This project models the core of a one-shot batch loader, `main.py`. The
loader reads a schema description, `INFORMATION_SCHEMA.csv`, and creates
one PostgreSQL table for each table the schema names. It then loads the
other `.csv` files of the data directory, in listing order, each into the
table named after it, until a load raises an error.
The comprehension that builds column clauses puts `'\"'` inside an
f-string expression (main.py:54). Python accepts that only from version
3.12 on, so the model describes the program as Python 3.12 or later runs
it. The model covers the parts of the program that compute something:

- **Schema parser** (`parse_schema`), in `schema.dfy`. The header is
  normalised: a one-field header is re-split on commas, and every token
  loses surrounding whitespace and then surrounding double quotes. Every
  data field is trimmed. A row longer than the header keeps up to four fields
  plus the remaining fields re-joined by commas. A row whose repaired
  length differs from the header's stops the parse. The accepted rows are
  grouped by lower-cased `TABLE_NAME` into an insertion-ordered dictionary
  of `(column, data type)` pairs. The method `ParseSchema` is the whole
  function, proved equal to the function `Parse`. It calls `CheckRows`, the
  first loop (trim, repair, check), proved equal to `RepairRows`, and
  `GroupRows`, the second loop (grouping), proved equal to `Group`. The
  lemmas state what those functions promise.
- **Table creation** (`create_tables`), in `ddl.dfy`. This builds one
  `CREATE TABLE IF NOT EXISTS` statement per table, in catalog order, with
  one `"<column> <type>"` clause per stored column. The outcome of
  executing a statement is a parameter.
- **File selection and row insertion** (`main` and `insert_csv_to_table`),
  in `loader.dfy`. The loop over the directory listing skips the schema
  file and names that do not end in `.csv`. Each other file goes to the
  table named by removing `.csv` from its name. An insert is attempted for
  every row of a data file, with the lower-cased column names, one
  placeholder per column and the row's cells as bound values.
- `text.dfy` models the Python string methods involved: `str.strip`,
  `str.strip('"')`, `str.lower`, `str.split`, `str.join`, `str.endswith`
  and `str.replace(pat, '')`.
- `wrappers.dfy` holds the `Option` and `Result` types.

The dictionary `parse_schema` returns is a `Catalog`: its keys in
insertion order, and a map from key to column list. The CSV reader's
output is the parser's input (a sequence of tokenised rows). The pandas
frame of a data file is the loader's input (column names and rows of
optional cells). Errors the source raises are `Err` values:

- an empty schema file (`next(reader)` raises StopIteration);
- a malformed row;
- a `TABLE_NAME`, `COLUMN_NAME` or `DATA_TYPE` header that is missing
  (a pandas KeyError) or repeated (an ambiguous lookup);
- frame column names that become equal when lower-cased (pandas already
  renames exact duplicates).

## Model

| member | source | states |
|---|---|---|
| Text.StripChars | main.py:26 | `s.strip(cs)` is no longer than `s`, and a non-empty result neither starts nor ends with a character of `cs` |
| Text.StripCharsUnique | main.py:26 | `s.strip(cs)` is the unique infix of `s` whose ends are not in `cs` and outside which every character is in `cs` |
| Text.StripCharsIdempotent | main.py:26 | stripping twice with the same characters removes nothing more |
| Text.StripIsBare | main.py:31 | `strip()` leaves no surrounding whitespace and is idempotent |
| Text.StripBare | main.py:31 | a string without surrounding whitespace is unchanged by `strip()` |
| Text.StripLeadingSpace | main.py:31 | `strip()` of a string that is bare after one leading whitespace character drops exactly that character |
| Text.StripAroundSeparator | main.py:31-34 | stripping two pieces, joining them with a non-whitespace separator and stripping again keeps a bare first piece and drops the one leading whitespace character of the second |
| Text.Unquote | main.py:26 | `h.strip().strip('"')` is no longer than `h` and neither starts nor ends with `"` |
| Text.Lower | main.py:43-44 | `lower()` keeps the length of its argument |
| Text.LowerIsLower | main.py:43-44 | `lower()` leaves no ASCII capital and is idempotent |
| Text.LowerKeepsBare | main.py:43-44 | lowering a string without surrounding whitespace gives one without surrounding whitespace |
| Text.Split | main.py:26 | no piece of `s.split(sep)` contains `sep`, and joining the pieces with `sep` gives `s` back |
| Text.SplitCount | main.py:26 | `s.split(sep)` has one more piece than `s` has separators |
| Text.SplitJoin | main.py:26 | splitting a join of separator-free pieces gives those pieces back |
| Text.SplitAfterPrefix | main.py:26 | a separator after a separator-free prefix ends the first piece |
| Text.SplitOnce | main.py:26 | a string with exactly one separator splits into the two sides |
| Text.SplitAtSeparator | main.py:26 | a leading separator gives an empty first piece followed by the pieces of the rest |
| Text.SplitAtOther | main.py:26 | any other leading character starts the first piece of the rest |
| Text.JoinBare | main.py:34 | joining pieces without surrounding whitespace, using a non-whitespace separator, gives a string without surrounding whitespace |
| Text.RemoveAll | main.py:96 | `s.replace(pat, '')` is no longer than `s` and leaves a string without `pat` unchanged |
| Text.RemoveAllAtMatch | main.py:96 | `s.replace(pat, '')` removes a leading `pat` |
| Text.RemoveAllAtMismatch | main.py:96 | `s.replace(pat, '')` keeps the first character of a string that does not start with `pat` |
| Text.NoMatchBeforePat | main.py:96 | when the first character of `pat` occurs in it only at its start, a non-empty prefix without `pat` followed by `pat` does not start with `pat` |
| Text.RemoveAfterPlain | main.py:96 | a prefix without `pat` survives `replace(pat, '')` and the `pat` after it is removed, when `pat`'s first character occurs in it only at its start |
| Schema.HeaderTokensShape | main.py:24-28 | a one-field header gives one token more than it has commas; any other header gives one token per field; no token starts or ends with `"` |
| Schema.UnquoteAllSpec | main.py:26-28 | token `i` is raw token `i` with whitespace and then quotes stripped |
| Schema.HeaderRoundTrip | main.py:25-26 | for a one-field header whose comma-separated pieces are already clean, joining the tokens with commas gives the field back |
| Schema.TrimFieldsAt | main.py:31 | field `i` of the trimmed row is field `i` of the row, stripped |
| Schema.TrimFieldsAppend | main.py:31 | trimming a row is trimming each of its parts |
| Schema.Repair | main.py:32-35 | a row no longer than the header is unchanged; a longer one becomes its first fields, up to four, plus exactly one more field |
| Schema.Repaired | main.py:31-35 | the repaired row's length: up to four kept fields plus one when the row is longer than the header, else the row's own length |
| Schema.RepairedFieldsTrimmed | main.py:31-35 | every field of a repaired row is free of surrounding whitespace, the re-joined field included |
| Schema.OverlongRowFits | main.py:32-36 | a row longer than the header is accepted exactly when the header has five fields |
| Schema.RepairJoinsTail | main.py:32-35 | under a five-field header, four fields followed by two or more pieces repair to the four fields and the stripped comma-join of the pieces |
| Schema.RepairRejoinsSplitType | main.py:32-35 | a data type that the reader split at its commas comes back whole as the fifth field, when no piece of it has surrounding whitespace |
| Schema.RepairedTwoPieces | main.py:31-35 | under a five-field header, a six-field row's fifth field becomes its last two fields, each stripped, joined by a comma and stripped again |
| Schema.SplitTypeLosesSpace | main.py:31-35 | a data type `a,b` whose second piece starts with one whitespace character splits into `a` and `b`, and comes back as the fifth field without that character, so not as written |
| Schema.DecimalTypeLosesSpace | main.py:31-35 | `DECIMAL(10, 2)` splits into `DECIMAL(10` and ` 2)` and is stored as `DECIMAL(10,2)` |
| Schema.RepairRowsOk | main.py:30-38 | the row loop accepts exactly when every row fits the header after repair |
| Schema.RepairRowsValues | main.py:30-38 | once accepted, the rows are the repaired data rows, one for each, in order |
| Schema.RepairRowsError | main.py:36-37 | a rejection reports the first row that does not fit, as repaired |
| Schema.RepairRowsSpec | main.py:30-38 | accepted iff every row fits; then the repaired rows in order, otherwise the first misfit |
| Schema.RepairRowsErrExtends | main.py:36-37 | rows after a rejected row do not change the outcome |
| Schema.RepairedRowsWidth | main.py:36-38 | every accepted row has the header's width |
| Schema.CheckRows | main.py:30-38 | the first loop of `parse_schema` returns what `RepairRows` specifies |
| Text.IndexOf | main.py:43-45 | the first position of a name, or none exactly when the name is absent |
| Schema.HeaderIndex | main.py:43-45 | a looked-up header is found only when it occurs exactly once; it is missing exactly when absent and a duplicate exactly when it occurs twice |
| Schema.FirstSeen | main.py:46-48 | the dictionary's keys are distinct and are exactly the tables of the rows |
| Schema.FirstIndex | main.py:46-47 | the position where a table first occurs |
| Schema.FirstSeenOrder | main.py:46-48 | tables are listed in the order in which they first occur in the rows |
| Schema.ColumnsOf | main.py:46-48 | a table has a non-empty column list exactly when some row names it |
| Schema.Group | main.py:41-48 | the grouped catalog is a well-formed dictionary: distinct keys, order and map agree |
| Schema.RowsOfSpec | main.py:42-48 | the positions recorded for a table are increasing and are exactly the rows naming that table |
| Schema.ColumnsInRowOrder | main.py:46-48 | the m-th pair stored under a table is the pair of the m-th row naming it |
| Schema.GroupedPairs | main.py:42-48 | each table's pairs come from its rows, in row order: the column name lower-cased and the data type copied unchanged |
| Schema.GroupedTables | main.py:42-47 | the catalog has a key for every lower-cased `TABLE_NAME` field and no other |
| Schema.GroupedFrom | main.py:46-48 | every stored pair comes from a row of that table |
| Schema.GroupedNamesLower | main.py:44 | every stored column name is lower-case |
| Schema.GroupedNamesTrimmed | main.py:43-44 | table and column names without surrounding whitespace in the rows are stored without it, after lowering |
| Schema.GroupedTypesTrimmed | main.py:45 | stored data types keep the trimmed form of the rows |
| Schema.ColumnMapSnoc | main.py:46-48 | one more row appends its pair to its own table's list, creating the list when the table is new, and leaves the other tables alone |
| Schema.OrderSnoc | main.py:46-47 | a new table goes to the end of the key order; a known one leaves the order alone |
| Schema.GroupStep | main.py:46-48 | one iteration of the grouping loop, stated on the loop's dictionary |
| Schema.GroupCountsEveryEntry | main.py:46-48 | the catalog holds exactly one pair per row |
| Schema.GroupRows | main.py:41-48 | the second loop of `parse_schema` builds the catalog `Group` specifies |
| Schema.ParseRejectsFirstMisfit | main.py:36-37 | the parse fails with the first misfitting row, whatever the rows before it were |
| Schema.ParseMalformedIff | main.py:36-37 | the parse fails with a malformed row exactly when some data row does not fit |
| Schema.ParseOkIff | main.py:20-49 | the parse succeeds exactly when every data row fits the header after repair and, when there is a data row, `TABLE_NAME`, `COLUMN_NAME` and `DATA_TYPE` each occur once in the header |
| Schema.BuildNeverMalformed | main.py:40-48 | grouping fails only on a header lookup |
| Schema.ParseOkShape | main.py:20-49 | an accepted parse has a header, every row fits, and with data rows the three headers are found and the catalog groups the repaired rows |
| Schema.ParsedCatalog | main.py:31-48 | a returned catalog is a well-formed dictionary holding exactly one pair per data row; its column names are lower-case; its table names, column names and data types have no surrounding whitespace |
| Schema.GroupedCatalog | main.py:31-48 | the same facts about the grouping of the accepted rows |
| Schema.AcceptedRows | main.py:30-38 | the accepted rows are the repaired rows after the header |
| Schema.ShiftedTable | main.py:42-43 | tables named by the accepted rows are tables named by the data rows |
| Schema.ShiftedTables | main.py:42-43 | the same, for every table at once |
| Schema.ParsedRows | main.py:30-47 | in an accepted parse, the keys are exactly the lower-cased table fields of the accepted rows |
| Schema.ParsedTables | main.py:41-48 | the returned catalog's keys are exactly the lower-cased `TABLE_NAME` fields of the repaired data rows |
| Schema.ParseSchema | main.py:20-49 | `parse_schema` returns what `Parse` specifies, errors included |
| Ddl.ColumnClauses | main.py:54 | one clause per stored column |
| Ddl.CreateTables | main.py:51-66 | every table is attempted, in catalog order, with its statement; a failure does not stop the tables after it |
| Ddl.ClauseSplitsBack | main.py:54 | a clause splits at its first space into the column name and the stripped type |
| Ddl.CleanTypeCopied | main.py:54 | a type without surrounding whitespace or quotes is copied into its clause verbatim |
| Ddl.StatementsForPrefix | main.py:53-54 | the statements for a prefix of the tables are a prefix of the statements |
| Ddl.ClauseCountIsSumLengths | main.py:53-54 | the statements hold as many clauses as the tables hold columns |
| Ddl.CatalogStatements | main.py:53-54 | one statement per table, in catalog order, no table twice, and one clause per stored column |
| Ddl.ParsedStatements | main.py:53-54 | for a parsed catalog, the statements hold one clause per schema data row |
| Loader.TableNameOf | main.py:96 | the table name is no longer than the file name |
| Loader.SelectDataFiles | main.py:93-96 | the directory loop selects exactly what `DataJobs` specifies, in listing order |
| Loader.DataJobsSound | main.py:94-96 | every selected entry is a data file of the listing, paired with the table named after it |
| Loader.DataJobsComplete | main.py:94-95 | every data file of the listing is selected |
| Loader.SkippedIff | main.py:94-95 | an entry is skipped exactly when it is the schema file or does not end in `.csv` |
| Loader.RemoveAfterPlainPrefix | main.py:96 | a name part without `.csv` survives the renaming, and the `.csv` after it is removed |
| Loader.TableOfPlainFile | main.py:96 | `stem.csv` loads into table `stem` when the stem holds no `.csv` |
| Loader.TableDropsEveryOccurrence | main.py:96 | `a.csvb.csv` loads into table `ab`: every occurrence is removed, not just the suffix |
| Loader.LowerAll | main.py:70 | one lower-cased name per column |
| Loader.LowerAllIsLower | main.py:70 | no lowered column name holds an ASCII capital |
| Loader.CellForSpec | main.py:74 | `row[col]` gives the cell under the column when its name is unique, and fails otherwise |
| Loader.ValuesFromSpec | main.py:74 | the looked-up values from column `k` on are the row's cells exactly when none of those names repeats |
| Loader.RowValuesSpec | main.py:74 | the value list is the row's cells in column order (missing ones `None`) exactly when the lower-cased names are distinct |
| Loader.InsertCsvToTable | main.py:68-84 | an insert is attempted for every row, in order, into the lower-cased table with the lower-cased columns and the row's own cells as values; every attempt has one placeholder per bound value and per column, and no capital in its table or column names; a failed insert does not stop later attempts; repeated lower-cased column names stop the load at the first row |

## Left out

- Database access is not modelled: the connection, `cursor`, `execute`,
  `commit`, `rollback` and `close`. Whether a statement succeeds is a
  parameter. As a consequence, two transaction effects are not captured.
  In `create_tables`, `conn.rollback()` after a failed statement also
  discards the tables created earlier in the same uncommitted transaction.
  In `insert_csv_to_table`, no rollback follows a failed insert, so
  PostgreSQL rejects every later statement of that transaction, and the
  closing `conn.commit()` then acts as a rollback: the rows inserted
  before the failure are discarded too. `Loader.InsertCsvToTable` records
  an attempt for every row; whether a row ends up stored is not modelled.
- SQL identifier quoting by `sql.Identifier` and the rendering of
  statements to text. Statements are data: table, clauses or columns, and
  placeholders.
- `csv.reader` quoting rules and file opening. The tokenised rows are the
  input, so a quoted data type holding commas arrives whole.
- `pd.read_csv`: type inference, empty-file errors and how cells become
  NaN. Cells are `Option` values, and a missing cell is `None`. Its
  renaming of exact duplicate headers (`id`, `id` becomes `id`, `id.1`) is
  also left out: the frame's column names are an input, so only names
  that differ in case, such as `id` and `ID`, collide in the model.
- `os.listdir` ordering and file paths: the listing is an input sequence.
- Loader.SelectDataFiles lists the files the loop in `main` visits when no
  load raises. `main` wraps that loop only in `try/finally`
  (main.py:89-102). So an `Err` from `Loader.InsertCsvToTable` (names
  that become equal when lower-cased), or a `pd.read_csv` error, ends the
  run: the files listed after it are never loaded, and rows committed for
  earlier files stay. The model states each file's load on its own and
  does not chain the loads.
- `config.py`, `connect_db` and every `print`.
- Case mapping beyond ASCII. `Text.Lower` maps only `A`-`Z`, while
  Python's `str.lower` maps every Unicode capital.
- Schema.HeaderIndex: a repeated `DATA_TYPE` header is reported when it is
  looked up. In the source, `row['DATA_TYPE']` returns a Series that is
  stored and fails only later, in `create_tables`.
- Column reconciliation, per-file insert counts and aggregate queries:
  `main.py` has none of them. It inserts every file column as it is and
  runs no queries.
- The table name is the file name with every occurrence of `.csv` removed
  (`Loader.TableDropsEveryOccurrence`), not its base name. It is
  lower-cased only inside the insert statement (`Loader.InsertCsvToTable`).
