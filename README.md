# Conversational tabular query engine, in Dafny

A model of the core of a browser page. The page loads tabular data into an
embedded SQLite store, suggests questions about it, turns a question into SQL
through a text-generation service, shows the result, and charts it. The model
covers four parts of `script.js`, with proofs about each:

- **Ingestion** (modules `Sql`, `Records`, `FileTypes`, `Store`). `DB.upload`
  picks a reader from the file's extension. `DB.uploadDSV` derives a table
  name from the file name. `DB.insertRows` infers column types from the first
  record, creates the table if it is missing, and appends the records in one
  transaction, binding dates as ISO text; a record holding an invalid date
  stops it. `DB.uploadSQLite` drops, recreates and refills each table of an
  uploaded database.
  - The store is a sequence of tables: name, CREATE text, declared columns and
    rows. The `Database` class holds it and changes it in place.
  - Table names are matched ignoring ASCII case, as the engine does, so
    `Sales.csv` appends to an existing `sales` table.
  - Re-uploading a CSV appends to the table of the same name
    (`LoadAppendsToExisting`). Importing a database replaces each same-named
    table wholesale (`ImportReplaces`).
- **Question cache** (module `Questions`). `DB.questionInfo` is a class whose
  fields `DB.questions()` updates. Questions are requested only when the live
  schema differs from the recorded one. A recorded error is never cleared. A
  demo can pre-seed its own questions.
- **Submit handler and derived actions** (modules `Fence`, `Session`):
  - The SQL is taken from the first fenced block of the reply, or the whole
    reply when there is none. Both regular expressions are proved equal to
    their leftmost, lazy match.
  - `generatedSql`, `latestQueryResult` and `tableHtml` are updated exactly as
    the handler does.
  - Each derived action (CSV, SQL, output, chart form) is available only while
    the latest result is non-empty.
- **Chart step** (module `Session`). The code comes from a non-empty `js`
  block. The previous chart is destroyed once the code has compiled, and then
  what the code returns replaces it. At most one chart is ever live. A
  returned value that is truthy but not a chart cannot be destroyed, so every
  later draw fails.

Everything outside the page is a function-typed parameter:

- the text-generation service, `Prompt -> Reply`;
- the JSON parser restricted to the requested shape;
- the delimited-text parser, the records it yields per separator;
- the uploaded database, as its tables;
- the query engine, `string -> ExecOutcome`;
- the evaluation of chart code, `(string, seq<Record>) -> EvalOutcome`.

Behaviours of the code that the model keeps:

- A reply that is an error object makes `result.match` throw before any state
  is touched. The model returns `Unanswered`/`NoReply` and changes nothing.
- After a failed or empty query, `latestQueryResult` and `tableHtml` keep the
  previous result while `generatedSql` already holds the new text. The page
  hides this because it re-renders the action buttons away.
- `DB.questions()` does not clear an earlier error when a later request
  succeeds, so the error keeps taking precedence (`ErrorNeverCleared`).
- An invalid date throws inside the insert loop. The rows bound before it stay
  in the store, because the transaction is never committed or rolled back.

## Model

| member | source | states |
|---|---|---|
| Sql.Sanitize | script.js:212 | every character outside `[A-Za-z0-9_]` becomes `_` and every other character is kept; same length |
| Sql.SanitizeIdempotent | script.js:212 | rewriting an already rewritten name changes nothing |
| Sql.Stem | script.js:212 | `slice(0, -4)`: a prefix of the file name four characters shorter, or empty when the name is shorter than four |
| Sql.TableName | script.js:212 | the table name has the file name's length minus four; it holds only word characters; each position keeps the file name's character exactly when that is a word character, else `_` |
| Records.InferType | script.js:219-228 | INTEGER iff the sample is an integral number or a boolean; REAL iff a non-integral number; TEXT for dates (valid or not), strings, null and everything else |
| Records.Coerce | script.js:239-242 | defined only for values that are not invalid dates (`toISOString` throws on those); no date is ever bound to the engine |
| Records.Keys | script.js:218 | `Object.keys` lists the record's field names in order |
| Records.Lookup | script.js:240 | a key the record lacks reads as NULL |
| Records.LookupAt | script.js:240 | reading a record by one of its own keys gives that field's value |
| Sql.RecordStatementsAgree | script.js:229-233 | the i-th CREATE column definition is the i-th INSERT column followed by the type inferred for the i-th value; the listed names are distinct; the INSERT has one `?` per field |
| Sql.ImportStatementAgrees | script.js:185 | the import INSERT lists the double-quoted column names, distinct, with one `?` per column |
| Sql.PlaceholderCount | script.js:185 | the placeholder list holds exactly n `?` |
| Sql.BracketedInjective | script.js:229 | distinct column names stay distinct once bracketed |
| Sql.DoubleQuotedInjective | script.js:185 | distinct column names stay distinct once double-quoted |
| Sql.FirstUnbindable | script.js:236-243 | the position of the first record holding an invalid date under the first record's keys: every record before it can be bound; none when all can |
| Sql.BindRow | script.js:236-243 | for a record without invalid dates: one bound value per column of the first record, none of them a date |
| Sql.BindRowByOwnKeys | script.js:236-243 | binding a record without invalid dates by its own keys turns each date into its ISO text and leaves every other value as it is |
| Sql.CreateTableSql | script.js:229 | the `CREATE TABLE IF NOT EXISTS` statement: each first-record key bracketed, with its inferred type, comma-separated; its properties are in `Sql.RecordStatementsAgree` |
| Sql.RecordInsertSql | script.js:233 | the INSERT naming the bracketed keys with one `?` each; its properties are in `Sql.RecordStatementsAgree` |
| Sql.ImportInsertSql | script.js:185 | the import INSERT naming the double-quoted columns with one `?` each; its properties are in `Sql.ImportStatementAgrees` |
| FileTypes.Classify | script.js:164-168 | the first matching test picks the reader, and a delimited file is read with `,` or tab; `FileTypes.ClassifyExact` states which names take which path |
| FileTypes.ClassifyExact | script.js:164-169 | database iff the name ends in `.sqlite3/.sqlite/.db/.s3db/.sl3` (any case); comma-separated iff `.csv` and not a database; tab-separated iff `.tsv`; otherwise unsupported |
| Store.IndexOf | script.js:229-230 | the position of the first table whose name equals the given one ignoring ASCII case, if any; none iff no table has that name in any case |
| Store.IndexOfIgnoresCase | script.js:229-230 | two names that differ only in ASCII case find the same table |
| Store.GetAt | script.js:229-230 | in a store with distinct names, looking a table up by its name finds it |
| Store.CreateIfNotExists | script.js:229-230 | `CREATE TABLE IF NOT EXISTS`: the store is unchanged when the name is taken in any case, else the table is appended; its properties are in `Store.CreateIfNotExistsFinds` and `Store.CreateKeepsValid` |
| Store.DropIfExists | script.js:180 | `DROP TABLE IF EXISTS`: the table of that name in any case is removed, if there is one; its properties are in the three `Store.DropIfExists*` lemmas |
| Store.DropIfExistsRemoves | script.js:180 | `DROP TABLE IF EXISTS` leaves no table of that name |
| Store.DropIfExistsKeepsOthers | script.js:180 | dropping one name leaves every other name's table as it was |
| Store.DropIfExistsValid | script.js:180 | dropping keeps table names distinct and every table well formed |
| Store.CreateIfNotExistsFinds | script.js:229-230 | after `CREATE TABLE IF NOT EXISTS` a table of that name exists |
| Store.CreateKeepsValid | script.js:229-230 | creating the table for a first record keeps names distinct and every table well formed |
| Store.UpdateKeepsOthers | script.js:235-246 | changing the rows of one table leaves every other name's lookup as it was |
| Store.AppendKeepsOthers | script.js:229-230 | appending a table under a new name finds it by that name and leaves every other lookup as it was |
| Store.AlignRowIdentity | script.js:188 | binding a row by a table's own column list places each value under its column |
| Store.MissingColumn | script.js:233-234 | names an INSERT column the table lacks, and returns none iff the table has every one |
| Store.LoadRecords | script.js:216-249 | `insertRows` on the store: an empty dataset is an error and nothing else; otherwise at most one table is added, and every existing table keeps its name, CREATE text, columns and rows, its rows only growing |
| Store.LoadRecordsValid | script.js:216-249 | loading records keeps table names distinct and every row as wide as its table |
| Store.StoredRowsExact | script.js:233-243 | an INSERT naming exactly the table's columns, in order, stores each record's bound tuple |
| Store.LoadIntoFreshTable | script.js:216-249 | into a name no table has in any case, with no invalid date: the table is created with the inferred column types and holds one bound row per record; every other table is unchanged |
| Store.LoadAppendsToExisting | script.js:229-246 | into an existing table (found in any case) having every key of the first record as a column, with no invalid date: the creation is a no-op; one row per record is appended after the existing ones, NULL under columns the records do not name, exactly the bound tuple when the keys are the columns; every other table is unchanged |
| Store.LoadRejectsUnknownColumn | script.js:233-234 | when the existing table lacks a column of the first record, the INSERT fails and no row is added |
| Store.LoadStopsAtInvalidDate | script.js:235-246 | when record k is the first with an invalid date, the store is what loading only the records before it gives (only the CREATE when k is 0), and the error names record k unless the INSERT could not be prepared |
| Store.ReplaceTable | script.js:179-192 | one import step: drop the table of that name in any case, then append the file's table with its CREATE text, columns and rows; its properties are in `Store.ReplaceTableLookup` |
| Store.ImportAll | script.js:179-192 | the import: each of the file's tables replaced in turn, in the file's order; its properties are in the `Store.Import*` lemmas |
| Store.ReplaceTableLookup | script.js:179-192 | one replacement keeps names distinct, finds the file's table under its name and leaves every other name's table as it was |
| Store.ImportValid | script.js:178-191 | importing a database keeps the store well formed |
| Store.ImportFinds | script.js:178-191 | each imported table is present afterwards exactly as it is in the file |
| Store.ImportKeepsOthers | script.js:178-191 | a table whose name the file does not use, in any case, is untouched by the import |
| Store.ImportReplaces | script.js:178-191 | after the import the store is well formed, each of the file's tables is present exactly as in the file (whatever a table of the same name in any case held), and every other table is as it was |
| Store.CopyRowExact | script.js:182-188 | a row read as an object and bound back by its column names is the same row |
| Store.BindRows | script.js:235-246 | the insert loop binds and aligns the records in order up to the first invalid date, and reports that record's position |
| Store.CopyRows | script.js:182-190 | the copy loop reproduces the source table's rows exactly |
| Store.ReplaceOne | script.js:180-190 | one import step drops the same-named table and recreates it with the file's text, columns and rows |
| Store.Database.InsertRows | script.js:216-249 | the store afterwards, and the error, are those of the load: an empty dataset changes nothing; an unknown column leaves only the table creation; an invalid date keeps the rows before it; otherwise every row is appended |
| Store.Database.UploadDsv | script.js:201-213 | the file's records are loaded into the table named after the file |
| Store.Database.UploadSQLite | script.js:171-198 | the store afterwards is the old store with each of the file's tables replaced in turn |
| Store.Database.Schema | script.js:132-139 | `DB.schema()`: name, CREATE text and columns of every table, in store order |
| Store.Database.Upload | script.js:164-169 | a database file is imported, a `.csv`/`.tsv` file is loaded with `,`/tab, anything else leaves the store as it was and is reported unknown |
| Llm.SchemaText | script.js:147-149 | the schema text placed in the questions prompt, and built the same way for the query prompt at script.js:424-426: the tables' CREATE texts joined by blank lines |
| Llm.Structured | script.js:517-524 | the request fails iff the service returned an error or the content does not parse; a service error is passed on; success returns exactly what the parser read |
| Questions.Refreshed | script.js:143-161 | the cache after `DB.questions()`: unchanged when the recorded schema is current; otherwise a failed request records its failure and keeps the questions, a parsed reply replaces the questions, and either way the live schema is recorded; its properties are in the `Questions.Refresh*` lemmas |
| Questions.Seeded | script.js:116-120 | a non-empty demo list is recorded with the live schema; an empty one changes nothing; its properties are in `Questions.SeededIsCurrent` |
| Questions.RefreshIdempotent | script.js:143-161 | after a refresh the recorded schema is current, so a second refresh with the same schema changes nothing, whatever it would be answered |
| Questions.RefreshDisplay | script.js:157-158 | a failed refresh shows its error and keeps the previous questions; a successful one shows its questions unless an older error is recorded |
| Questions.RefreshShowsSomething | script.js:380-388 | after any refresh the page has an error or a list to show |
| Questions.SeededIsCurrent | script.js:116-120 | a demo's non-empty question list is current for the live schema, so no request follows, and it is shown unless an error is recorded |
| Questions.ErrorNeverCleared | script.js:157 | once an error is recorded, no sequence of refreshes and demo seedings removes it, and the page keeps showing an error |
| Questions.QuestionCache.Refresh | script.js:143-162 | exactly one request when the live schema differs from the recorded one and none otherwise; the cache afterwards is the refreshed snapshot |
| Questions.SeedDemo | script.js:116-121 | the demo's questions are seeded against the live schema and the dataset description is set; the tables are untouched |
| Fence.SqlFence | script.js:442 | the capture of `/```.*?\n(.*?)```/s`, if it matches; its properties are in `Fence.SqlFenceIsRegexMatch` |
| Fence.ExtractSql | script.js:442 | the capture, or the whole reply when there is none (`?.[1] ?? result`); see `Fence.UnfencedReplyIsQuery` and `Fence.SqlFenceRoundTrip` |
| Fence.SqlFenceIsRegexMatch | script.js:442 | the fenced-SQL extraction returns nothing iff `/```.*?\n(.*?)```/s` has no match, and otherwise the capture of its leftmost, laziest match |
| Fence.SqlFenceAt | script.js:442 | the extraction stops at the first opening ticks, the first newline after them and the first closing ticks after that |
| Fence.SqlFenceRoundTrip | script.js:442 | a reply with one fenced block and nothing fence-like before it yields exactly the block's body |
| Fence.UnfencedReplyIsQuery | script.js:442 | a reply without backticks is used whole as the query |
| Fence.ChartCapture | script.js:627 | the capture of `/```js\n(.*?)\n```/s`, if it matches; its properties are in `Fence.ChartCaptureIsRegexMatch` |
| Fence.ChartCaptureIsRegexMatch | script.js:627 | the chart-code extraction returns nothing iff `/```js\n(.*?)\n```/s` has no match, and otherwise the capture of its leftmost, laziest match |
| Fence.ChartCaptureAt | script.js:627 | the chart extraction stops at the first `js` opening and the first closing after it |
| Fence.ChartCode | script.js:627-633 | chart code, when there is some, is never empty |
| Fence.ChartCodeRoundTrip | script.js:627-633 | a reply with one `js` block and nothing fence-like before it or inside it yields that code, or none when the block is empty |
| Session.Prefix | script.js:481 | `slice(0, n)`: at most n elements, each equal to the source's element at that position |
| Session.Session.Submit | script.js:411-490 | a refused reply changes nothing; otherwise the fenced SQL is stored and run; a non-empty result replaces the latest result and its 100-row preview; an empty result or an engine error leaves them as they were; the chart is untouched |
| Session.Session.Perform | script.js:568-589 | an action yields a view iff the latest result is non-empty: the CSV of the whole result, the generated SQL, the first 100 rows, or the chart form |
| Session.Session.Draw | script.js:591-649 | no result means no request; a refused reply, missing code or a syntax error leave the chart as it was; a held value that is not a chart makes `destroy` throw, so the draw fails and nothing changes; otherwise the previous chart is destroyed, and what the code returns is held: a new chart, nothing for a falsy value, or the non-chart value; at most one chart stays live |
| Session.AtMostOneLiveChart | script.js:640-642 | two live charts of a session are the same chart |

## Left out

- The DOM, rendering, toasts, the CSV download and the demo list fetch are not modelled. The action buttons disappearing on re-render is also page layout, so it is not modelled either.
- The network call to the text-generation service is an oracle. The fixed instruction text of each prompt is not modelled; only the live values placed in it are: context, schema text, question, a 3-row sample and the charting intent.
- A reply whose content is missing (no `choices`) is not modelled. A structured reply that parses but lacks the `questions` field is not modelled either.
- The SQLite engine is abstracted as a store of named tables. Left out with it:
  - SQL parsing, and errors from identifiers that need quoting;
  - case-insensitive column-name matching;
  - constraints and DEFAULT values (a missing column reads NULL);
  - the reserved `sqlite_` tables a database file may contain;
  - quotes inside identifiers.
- Generated SQL that writes to the store is not modelled. Query execution is an oracle that only returns rows or an error.
- The delimited-text parser with automatic typing (`dsvFormat(...).parse(..., autoType)`) is not modelled. Its records are an input.
- `completeData`, the `data` global and the column statistics (`calculateStats`, `toFixed`) are not modelled. The core never reads them back.
- Store.Database.InsertRows: an empty dataset throws on `result[0]` in the page. Here it is the `EmptyDataset` error, which changes nothing. A failing INSERT preparation and an invalid date are likewise error values rather than exceptions.
- Store.Database.InsertRows: after an invalid date the transaction is left open. The model keeps the rows inserted before it, as the connection sees them. It does not model that a later `BEGIN TRANSACTION`, in this or the import path, then fails.
- Store.StoredRows: the engine does not store a bound value unchanged. It binds booleans as 1 and 0, and converts values by column affinity: a number bound to a TEXT column is stored as text, numeric text in an INTEGER or REAL column becomes a number, and a column whose first value was null is TEXT. The model stores the bound value as it is.
- Store.LoadIntoFreshTable and Store.LoadAppendsToExisting: the rows they state are the bound tuples, before the engine's boolean and affinity conversions.
- Records.IsIntegral: numbers are reals, so NaN and the infinities are not modelled.
- Sql.Sanitize: characters are treated as single UTF-16 code units, with no surrogate-pair handling.
- Session.Session.Draw: compiling and running chart code is an oracle. A returned value that is truthy but not a chart is assumed to have no `destroy` method; one that has one is not modelled. A chart the code creates without returning it is not tracked.
- Asynchrony and interleaving of handlers are not modelled. Every handler runs to completion, and the schema is read once per call.
