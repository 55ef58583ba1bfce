# sql-server-to-postgre-sql in Dafny

A model of the migrator that copies a SQL Server database into PostgreSQL, limited to the parts that hold real logic:

- **The resumable row copy** (`CopyRowsTask`) — module `CopyRows`, with lemmas in `CopyRowsLemmas` and `Resume`:
  - The copy of one table counts the destination's rows.
  - From that count it computes a resume cursor (`GetStartOffsetLimit`).
  - It then pages through the source table in `offset … fetch next …` windows, in primary-key order (`GetOrderBy`).
  - It flushes each page as multi-row insert statements of at most `InsertPageSize` rows (`PutTableRows`).
  - Each cell value becomes a PostgreSQL literal (`From`, module `LiteralEncoder`).
- **Index DDL** (`SqlServerTableIndex.ToSql`), module `IndexDdl`: drop, then create, one index under a name synthesised from the table and its columns.
- **Constraint DDL** (`SqlServerTableConstraint.ToSql`), module `ConstraintDdl`: drop, then add, one primary-key, unique or foreign-key constraint.
- **The table-name filter** of `WorkerTaskService.GetTableNames`, module `TableFilter`: keep the names on the include list, then drop those on the exclude list, both ignoring case.

The constants live in module `Props`:
- `BatchSize = 10000`: rows per fetch when the configuration sets none.
- `InsertPageSize = 1000`: rows per insert statement.

The batch size in force is configurable, so the copy takes it as a parameter `b > 0`.

Supporting modules:
- `Strings`: `String.Join`, `Split(',', RemoveEmptyEntries)`, `Trim`, `Replace` and `ToLower`, written out over `seq<char>`.
- `Seqs`: slicing and concatenation facts.
- `Models`: the descriptor records and `StartOffsetLimit`.

Modelling choices:
- The source table is the sequence of its rows in ORDER BY order.
- A fetch of window (offset, limit) is the slice `src[min(offset, n) .. min(offset + limit, n)]`.
- The destination is the sequence of rows it held, with each fetched page appended.
- The copy returns:
  - the windows it fetched;
  - the destination after the copy;
  - the insert statements in the order they are sent.

`CopyRows.CopyPages` keeps the source's loop with its `pageIndex` and cursor variables. It is proved equal to the specification function `CopyRows.CopyWindows`, and the properties of the copy are proved about that function.

## Model

| member | source | states |
|---|---|---|
| CopyRows.GetStartOffsetLimit | src/SqlServerToPostgreSql/WorkerTasks/CopyRowsTask.cs:187-200 | There is no cursor exactly when the destination is empty. Otherwise the cursor has `Offset = d` and `NextPageIndex = d / b + 1`. Its `Limit` is `b - d % b`, which lies in `1..b` and equals `b` exactly when `d` is a multiple of `b`. |
| CopyRows.CeilDivIsQuotientRoundedUp | src/SqlServerToPostgreSql/WorkerTasks/CopyRowsTask.cs:195 | The integer ceiling that replaces `Math.Ceiling(offset / (double)b)` is the quotient, plus one when there is a remainder. |
| CopyRows.PageOffsetIsProduct | src/SqlServerToPostgreSql/WorkerTasks/CopyRowsTask.cs:70 | In `CopyRows.TableRowsWindow`, page `pageIndex` starts at offset `(pageIndex - 1) * b`. |
| CopyRows.FetchShape | src/SqlServerToPostgreSql/WorkerTasks/CopyRowsTask.cs:85-93 | A window `CopyRows.Fetch` returns exactly `limit` rows from `offset` when the table reaches that far. Otherwise it returns the rows left, and that is fewer than `limit`. |
| CopyRows.Chunks | src/SqlServerToPostgreSql/WorkerTasks/CopyRowsTask.cs:123-124 | Every chunk taken from a page has between 1 and `InsertPageSize` rows. |
| CopyRows.PutTableRows | src/SqlServerToPostgreSql/WorkerTasks/CopyRowsTask.cs:105-136 | The Skip/Take loop sends exactly `InsertStatements(rows)`. That is nothing for an empty page, and otherwise one insert per chunk of `InsertPageSize` rows, in order. |
| CopyRows.InsertStatementsStep | src/SqlServerToPostgreSql/WorkerTasks/CopyRowsTask.cs:123-128 | The take at `skip` yields one insert of those rows, followed by the inserts for the rows after them. |
| CopyRows.CopyTableRows | src/SqlServerToPostgreSql/WorkerTasks/CopyRowsTask.cs:43-65 | The windows fetched are `CopyWindows` of the cursor computed from the destination's count. The new destination is the old one plus the rows of those windows, and the statements sent are those of each page in turn. |
| CopyRows.CopyPages | src/SqlServerToPostgreSql/WorkerTasks/CopyRowsTask.cs:48-64 | The page loop, started from any cursor: the cursor's window first, then page `NextPageIndex` on, stopping after the first page shorter than `b`. Its windows, rows and statements are those of `CopyWindows`. |
| CopyRows.CopyStep | src/SqlServerToPostgreSql/WorkerTasks/CopyRowsTask.cs:52-63 | One turn of the loop keeps the loop invariant, with the page index moved to `NextPageIndex` after the cursor's window, or ends with the whole copy done. |
| CopyRows.WindowsStep | src/SqlServerToPostgreSql/WorkerTasks/CopyRowsTask.cs:52-63 | After one window, the windows still to come are the pages from the next page's offset, unless that window was short. |
| CopyRows.GetOrderBy | src/SqlServerToPostgreSql/WorkerTasks/CopyRowsTask.cs:167-174 | The list is `"1"` exactly when the table has no primary-key column. A one-column key gives exactly `t."<column>"`, and a longer key starts with `t."<first key column>"`. With `CopyRowsLemmas.OrderByAppend` this fixes the whole list. |
| CopyRowsLemmas.ChunksFlatten | src/SqlServerToPostgreSql/WorkerTasks/CopyRowsTask.cs:119-133 | The chunks laid end to end are the page: no row is lost, repeated or moved. |
| CopyRowsLemmas.ChunkCount | src/SqlServerToPostgreSql/WorkerTasks/CopyRowsTask.cs:119-133 | A page of `n` rows gives `ceil(n / InsertPageSize)` chunks, and every chunk but the last is full. |
| CopyRowsLemmas.InsertStatementsPerChunk | src/SqlServerToPostgreSql/WorkerTasks/CopyRowsTask.cs:123-130 | There is one statement per chunk, and statement `i` is built from chunk `i` alone. |
| CopyRowsLemmas.ValueTuplesAppend | src/SqlServerToPostgreSql/WorkerTasks/CopyRowsTask.cs:127 | One more row adds its value tuple at the end of the tuple list. |
| CopyRowsLemmas.InsertSqlOneRow | src/SqlServerToPostgreSql/WorkerTasks/CopyRowsTask.cs:126-128 | A one-row insert built by `CopyRows.InsertSql` is `insert into "<scheme>"."<table>" (<its quoted columns>) values (<its literals>)`. |
| CopyRowsLemmas.InsertSqlAppend | src/SqlServerToPostgreSql/WorkerTasks/CopyRowsTask.cs:126-128 | One more row appends `, (<its literals>)`. The column list stays that of the batch's first row. |
| CopyRowsLemmas.OrderByAppend | src/SqlServerToPostgreSql/WorkerTasks/CopyRowsTask.cs:174 | One more key column appends `, t."<column>"`, so the key order is kept. |
| CopyRowsLemmas.CursorWindowEndsAtPageBoundary | src/SqlServerToPostgreSql/WorkerTasks/CopyRowsTask.cs:195-196 | The cursor's window starts at `d` and ends where page `NextPageIndex + 1` starts. Page `NextPageIndex` starts at `d - d % b`, at or before the cursor's offset. |
| CopyRowsLemmas.PagesAtCopiesRest | src/SqlServerToPostgreSql/WorkerTasks/CopyRowsTask.cs:50-64 | From any offset on, the plain pages fetch every remaining source row exactly once, in order. |
| CopyRowsLemmas.PagesAtCount | src/SqlServerToPostgreSql/WorkerTasks/CopyRowsTask.cs:50-64 | From `offset`, the loop sends `(n - offset) / b + 1` queries. The last query is empty when the rows end on a page boundary. |
| CopyRowsLemmas.FreshCopyCopiesAll | src/SqlServerToPostgreSql/WorkerTasks/CopyRowsTask.cs:43-64 | Into an empty destination there is no cursor, every source row is copied once and in order, and `n / b + 1` queries are sent. |
| Resume.ResumeMidPageStopsAfterCursorWindow | src/SqlServerToPostgreSql/WorkerTasks/CopyRowsTask.cs:62 | Resuming from a count `d` that is not a multiple of `b` fetches the cursor's window `(d, b - d % b)` and nothing else. |
| Resume.ResumeMidPageLosesRows | src/SqlServerToPostgreSql/WorkerTasks/CopyRowsTask.cs:62 | If the destination held the first `d` source rows and `d` is not a multiple of `b`, then after the resumed copy (`CopyWindows` from the cursor) it ends at the next page boundary or at the end of the source. Every later source row is missing. |
| Resume.ResumeOnBoundaryRereadsCursorPage | src/SqlServerToPostgreSql/WorkerTasks/CopyRowsTask.cs:56 | Resuming from a multiple of `b` with a full page left fetches window `(d, b)` twice in a row. |
| Resume.ResumeOnBoundaryDuplicatesRows | src/SqlServerToPostgreSql/WorkerTasks/CopyRowsTask.cs:56 | If the destination held the first `d > 0` source rows, `d` is a multiple of `b` and a full page is left, then after the resumed copy (`CopyWindows` from the cursor) it holds rows `d .. d + b` twice and then the rest of the source. |
| Resume.ResumeMidPageExample | src/SqlServerToPostgreSql/WorkerTasks/CopyRowsTask.cs:62 | With `b = 1000`, 2500 source rows and 1500 already copied, the copy ends with 2000 rows. |
| Resume.ResumeOnBoundaryExample | src/SqlServerToPostgreSql/WorkerTasks/CopyRowsTask.cs:56 | With `b = 1000`, 2500 source rows and 1000 already copied, the copy ends with 3500 rows, rows 1000 .. 2000 twice. |
| Resume.ResumeCorrectedCompletesCopy | src/SqlServerToPostgreSql/WorkerTasks/CopyRowsTask.cs:48-64 | The intended loop goes on after the cursor's window and stops on a window shorter than its own limit. From any copied prefix, it leaves the destination equal to the source. |
| LiteralEncoder.FromNullAndBoolAreKeywords | src/SqlServerToPostgreSql/WorkerTasks/CopyRowsTask.cs:205-206 | Null becomes the keyword `null` and a boolean becomes `true` or `false`, unquoted, so none of them reads back as a string literal. |
| LiteralEncoder.FormatDateTimeRoundTrip | src/SqlServerToPostgreSql/WorkerTasks/CopyRowsTask.cs:207 | `yyyy-MM-dd HH:mm:ss.fff` is 23 characters and reads back to the same date and time to the millisecond. The 100 ns ticks below the millisecond are cut off, not rounded. |
| LiteralEncoder.FromDateTimeIsQuotedFixedFormat | src/SqlServerToPostgreSql/WorkerTasks/CopyRowsTask.cs:207 | A DateTime becomes a single-quoted 25-character literal whose inside reads back to the same instant cut down to the millisecond. |
| LiteralEncoder.FromDateTimeTruncatesTicks | src/SqlServerToPostgreSql/WorkerTasks/CopyRowsTask.cs:207 | Two different DateTimes that differ only below the millisecond, such as a `datetime2` value and the same value with its last four digits cleared, are sent as the same literal. |
| LiteralEncoder.FromFractionalHasNoComma | src/SqlServerToPostgreSql/WorkerTasks/CopyRowsTask.cs:208-210 | A float, decimal or double literal never holds a comma, and it is its invariant-culture text, unquoted, when that has none. |
| LiteralEncoder.QuoteRoundTrip | src/SqlServerToPostgreSql/WorkerTasks/CopyRowsTask.cs:211 | Doubling the single quotes and wrapping in quotes is undone by PostgreSQL's reading of a string literal. |
| LiteralEncoder.FromQuotesTheRest | src/SqlServerToPostgreSql/WorkerTasks/CopyRowsTask.cs:211 | Under `LiteralEncoder.From`, strings, integers and any other type read back as their `ToString()` text. A null `ToString()` reads back as the empty text. |
| LiteralEncoder.FromIntIsQuotedDecimal | src/SqlServerToPostgreSql/WorkerTasks/CopyRowsTask.cs:211 | An integer is sent as its decimal text in single quotes, with nothing escaped. |
| Models.Segments | src/SqlServerToPostgreSql/Models/SqlServerTableIndex.cs:18 | A null list has no segments, and every segment is non-empty and comma-free. |
| IndexDdl.NonEmptyPartsKeeps | src/SqlServerToPostgreSql/Models/SqlServerTableIndex.cs:23-29 | The name's parts are exactly the non-empty candidates, and a non-empty first candidate stays first. |
| IndexDdl.IndexNameStartsWithIX | src/SqlServerToPostgreSql/Models/SqlServerTableIndex.cs:23-29 | Every synthesised index name starts with `IX`. |
| IndexDdl.IndexNameLayout | src/SqlServerToPostgreSql/Models/SqlServerTableIndex.cs:23-29 | The name `IndexDdl.IndexName` is `IX`, then `_` and the part for each of the lower-cased table name, the key segment and the include segment that is not empty, in that order. An empty part leaves no doubled or trailing underscore. |
| IndexDdl.NameSegmentIsPlain | src/SqlServerToPostgreSql/Models/SqlServerTableIndex.cs:27-28 | A column segment of the name holds no double quote and no upper-case letter. |
| IndexDdl.KeySegmentOfColumns | src/SqlServerToPostgreSql/Models/SqlServerTableIndex.cs:17-27 | For a comma-joined column list, the key column list and the key segment are built from those columns, in order and untrimmed. |
| IndexDdl.DescendingKeySameName | src/SqlServerToPostgreSql/Models/SqlServerTableIndex.cs:27 | The index on `c desc` and the index on `c` get the same name. |
| IndexDdl.ToSqlIgnoresName | src/SqlServerToPostgreSql/Models/SqlServerTableIndex.cs:13-34 | The catalog name of the index plays no part in the SQL. |
| IndexDdl.IncludeClausePresent | src/SqlServerToPostgreSql/Models/SqlServerTableIndex.cs:18-21 | The include clause is there exactly when IncludedColumns has a non-empty segment, and a null list gives none. When present, it is `include (<segments joined by ", ">)`. |
| IndexDdl.TrimTemplate | src/SqlServerToPostgreSql/Models/SqlServerTableIndex.cs:31-34 | Trimming the template removes the outer line breaks and the space left for an absent include clause, and nothing else. |
| IndexDdl.ToSqlIsDropThenCreate | src/SqlServerToPostgreSql/Models/SqlServerTableIndex.cs:15-34 | The SQL of `IndexDdl.ToSql` is the drop statement, a line break, then the create statement. The create statement says `unique` exactly for a unique index. |
| ConstraintDdl.QuoteColumns | src/SqlServerToPostgreSql/Models/SqlServerTableConstraint.cs:25 | There is one quoted column per segment, and column `i` is segment `i`, trimmed and double-quoted. |
| ConstraintDdl.ReferenceClause | src/SqlServerToPostgreSql/Models/SqlServerTableConstraint.cs:27-37 | The references clause is there exactly when RefTableName is neither null nor empty. It then starts with `references "<scheme>"."<RefTableName>"`, in the constrained table's own scheme, and ends with ` (<quoted RefColumns>)`. |
| ConstraintDdl.RuleClause | src/SqlServerToPostgreSql/Models/SqlServerTableConstraint.cs:39-45 | The rule clause is empty exactly when neither rule is set. A set update rule opens it with ` on update <rule>`, and a set delete rule closes it with ` on delete <rule>`. |
| ConstraintDdl.RuleClauseIndependent | src/SqlServerToPostgreSql/Models/SqlServerTableConstraint.cs:39-45 | The rules are independent: the clause is the update rule's part followed by the delete rule's part. With only one rule set, the clause is that rule's part alone. |
| ConstraintDdl.ToSqlIsDropThenAdd | src/SqlServerToPostgreSql/Models/SqlServerTableConstraint.cs:21-50 | The SQL of `ConstraintDdl.ToSql` is the drop statement, a line break, then the add statement's head, followed by the reference and rule clauses with their trailing white space removed. |
| ConstraintDdl.AddTailLayout | src/SqlServerToPostgreSql/Models/SqlServerTableConstraint.cs:47-50 | After the head comes nothing, the references clause after one space, or both clauses. |
| ConstraintDdl.ToSqlWithoutReference | src/SqlServerToPostgreSql/Models/SqlServerTableConstraint.cs:47-50 | A constraint with no reference and no rules, such as a primary key, is the drop statement then `alter table … add constraint "<Name>" <Type> (<columns>)`. |
| ConstraintDdl.QuoteColumnPlain | src/SqlServerToPostgreSql/Models/SqlServerTableConstraint.cs:25 | A column name with no white space at either end is quoted as it is. |
| ConstraintDdl.ColumnListOfNames | src/SqlServerToPostgreSql/Models/SqlServerTableConstraint.cs:23-35 | For a comma-joined list of names, the column list quotes those names in order, one per name. A null list gives an empty column list. |
| TableFilter.FilterBy | src/SqlServerToPostgreSql/Services/WorkerTaskService.cs:65-68 | A name is kept exactly when it is among the input names and its presence on the list, ignoring case, is the one asked for. |
| TableFilter.FilterByKeepsPassing | src/SqlServerToPostgreSql/Services/WorkerTaskService.cs:65-68 | Names that all pass the filter come back unchanged. |
| TableFilter.FilterTableNamesMembership | src/SqlServerToPostgreSql/Services/WorkerTaskService.cs:61-68 | A name survives `TableFilter.FilterTableNames` exactly when the catalog returned it, it is on the include list or that list is empty or null, and it is not on the exclude list. So a name on both lists is dropped. |
| TableFilter.FilterTableNamesNoLists | src/SqlServerToPostgreSql/Services/WorkerTaskService.cs:61-68 | With both lists empty or null, the names come back unchanged. |
| TableFilter.FilterTableNamesIsSubsequence | src/SqlServerToPostgreSql/Services/WorkerTaskService.cs:64-68 | The result is the catalog's names with some left out, in the catalog's order. |
| TableFilter.FilterTableNamesIdempotent | src/SqlServerToPostgreSql/Services/WorkerTaskService.cs:64-68 | Filtering the result again changes nothing. |
| TableFilter.IncludeIgnoresCaseExample | src/SqlServerToPostgreSql/Services/WorkerTaskService.cs:65 | With the include list `["USERS"]`, the catalog's `users` is kept and `Orders` is not. |

## Left out

- Database I/O:
  - the count query, the catalog queries, the fetch and insert round trips;
  - connections, command timeouts, `async`/`await` and logging.
  
  The source table is a parameter, the destination's count is the length of a parameter, and statements are returned rather than executed. Failures of those calls (exceptions) are not modelled.
- The `Run` loop over all tables, the other worker tasks, `Worker`, `Program` and the configuration classes. These are sequencing and plumbing around the parts modelled here.
- CopyRows.CopyTableRows: returns the fetched windows, the new destination and the statements at once. In the source each page is inserted right after it is fetched. The order of statements is kept, and the destination's count is read only once, before the loop.
- CopyRows.CopyTableRows: the loop is `CopyPages`, called once the cursor is computed. This matches the source, which computes the cursor before its loop.
- CopyRows.GetStartOffsetLimit: the count and the page arithmetic are C# `int` values, and `nextPageIndex * batchSize` can overflow for tables near 2^31 rows. The model uses unbounded naturals.
- CopyRows.GetStartOffsetLimit: `Math.Ceiling` over a `double` is modelled as integer ceiling division, which is exact for counts below 2^53.
- CopyRows.PageOffset: the offset `(pageIndex - 1) * b` is computed one page at a time. `CopyRows.PageOffsetIsProduct` proves it equal to the product.
- CopyRows.Fetch: the source table is one fixed ordered sequence. ORDER BY `1` on a table without a primary key may order ties differently from one query to the next, and that is not modelled.
- LiteralEncoder.From:
  - The invariant-culture `ToString` of float, decimal and double is carried as text inside the value.
  - Integral types are one `Int` case.
  - Every other type is `Other`, carrying its `ToString()`.
  - `ValidDateTime` bounds each field but does not check the number of days in each month.
- Strings.ToLower, TableFilter.ContainsIgnoreCase: case folding covers the ASCII letters only, where .NET folds all of Unicode.
- IndexDdl.IndexName: `ToLower()` in the source uses the current culture. The model lower-cases A-Z as ASCII does, so it assumes a culture such as the invariant or en-US one. Under tr-TR, `I` would become a dotless `ı`.
- LiteralEncoder.FromIntIsQuotedDecimal: `value.ToString()` in the source uses the current culture. The model assumes a culture whose negative sign is `-`. Under a culture with another sign, such as U+2212 in sv-SE on ICU, negative integers would carry that sign instead.
- Strings.IsWhiteSpace: ASCII white space only.
- IndexDdl.ToSql and ConstraintDdl.ToSql: the verbatim templates' line breaks are taken as `"\n"`. A checkout with CRLF line endings would embed `"\r\n"` instead.
- ConstraintDdl.AddTailLayout: covers rule texts that do not end in white space. The general case, with trailing white space trimmed, is `ConstraintDdl.ToSqlIsDropThenAdd`.
- Catalog SQL text (primary-key columns, constraint and index queries) is not modelled. Its output shapes become the inputs of `GetOrderBy` and `ToSql`: a comma-joined column list, and `" desc"` markers on key columns.
- `StartOffsetLimit.From` is the datatype's constructor.

## Findings

| source | as written | input that shows it | evidently intended | confidence | as-written member | corrected member |
|---|---|---|---|---|---|---|
| src/SqlServerToPostgreSql/WorkerTasks/CopyRowsTask.cs:56 | after the cursor's window the loop goes on at page `NextPageIndex`, which starts at `d - d % b`; when `d % b == 0` that is the cursor's own page | `b = 1000`, 2500 source rows, 1000 already in the destination: rows 1000 .. 2000 are copied twice (3500 rows) | continue at page `NextPageIndex + 1`, where the cursor's window ends | high (not executed) | Resume.ResumeOnBoundaryRereadsCursorPage, Resume.ResumeOnBoundaryExample | Resume.ResumeCorrectedCompletesCopy |
| src/SqlServerToPostgreSql/WorkerTasks/CopyRowsTask.cs:62 | the loop stops after any window shorter than `batchSize`; when `d % b != 0` the cursor's window has `Limit < b`, so the copy always stops after it | `b = 1000`, 2500 source rows, 1500 already in the destination: the copy ends with 2000 rows, rows 2000 .. 2500 never copied | stop only when a window returns fewer rows than its own limit | high (not executed) | Resume.ResumeMidPageStopsAfterCursorWindow, Resume.ResumeMidPageExample | Resume.ResumeCorrectedCompletesCopy |
