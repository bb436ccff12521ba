# DB-Migration-Lambda: SQL text building and batch transfer, in Dafny

The script `lambda_function.py` copies tables from PostgreSQL to SQL Server.
For each table it drops and recreates the destination table. It then reads
the source rows in batches with `fetchmany`. Each non-empty batch becomes one
multi-row `INSERT` text, built by string concatenation, and is executed. The
destination is committed once, after the last batch.

This project models that core:

- `sql_text.dfy`, module `SqlText`, holds the text-level pieces:
  - quote doubling (`str(value).replace("'", "''")`), with its inverse;
  - a reader for character string literals, following the rule of
    ISO/IEC 9075-2, subclause 5.3 `<literal>`, under which `''` inside a
    literal stands for one quote;
  - Python's `", ".join` and a splitter that undoes it;
  - the `?` placeholder list;
  - the SELECT text of the batch transfer;
  - the unused helper `add_single_quotes_if_needed`.
- `insert_statement.dfy`, module `InsertStatement`, holds `format_insert_values`.
  - The method keeps the source's loop: it accumulates `tuple + ",\n"`,
    then applies `rstrip(',\n')` and appends `;`.
  - It is proved equal to a declarative statement text: tuples joined by
    `,\n`, then `;`.
  - A reader for the VALUES part shows that the text holds exactly the rows,
    in order.
- `transfer.dfy`, module `Transfer`, holds the rest:
  - `create_sql_server_table`, as appends to a log of destination operations;
  - a source cursor class with `execute` and `fetchmany`;
  - the batch transfer loop, proved against a `Batches` specification whose
    properties are lemmas: coverage, order, sizes, count, boundaries and a
    single final commit.

A row is a sequence of strings. Each string is the `str(value)` of one source
value, so Python's conversion of other types is taken as already done. The
rows the source database returns for the SELECT are a parameter (`answer`):
the model does not evaluate queries. A statement's text is modelled; what the
destination server does with it is not. Each `ensures` in the table below is
stated in those terms.

The SELECT is built as `"SELECT " + cols + " FROM " + table + " " + where + ";"`.
With the default empty filter, the text therefore ends in ` ;`. The model
keeps that space, as the code does.

## Model

| member | source | states |
|---|---|---|
| `SqlText.EscapeLength` | lambda_function.py:94 | Doubling quotes never shortens a value. It leaves quote-free values unchanged, strictly lengthens values that hold a quote, and the result holds a quote exactly when the input does |
| `SqlText.EscapeRoundTrip` | lambda_function.py:94 | An escaped value has no lone quote, and replacing `''` by `'` gives back exactly the original value |
| `SqlText.UndoubleRoundTrip` | lambda_function.py:94 | Conversely, any text without a lone quote is the escape of its un-doubling. So the escaped texts are exactly the texts without a lone quote |
| `SqlText.ReadEscaped` | lambda_function.py:94 | Read as a SQL literal body, an escaped value followed by its closing quote gives back the original value. The text after the closing quote is left untouched |
| `SqlText.ReadLiteralBodySound` | lambda_function.py:94 | Whatever the literal reader accepts is an escaped value, then a closing quote, then text that does not start with a quote |
| `SqlText.AddSingleQuotesFacts` | lambda_function.py:102-105 | `add_single_quotes_if_needed` wraps a string in quotes exactly when it contains a quote, and returns other strings unchanged. Applying it twice wraps again, so it is not idempotent on quoted input. A wrapped string never reads back as the original, because its inner quote is not doubled |
| `SqlText.SplitJoin` | lambda_function.py:90 | When no name holds a comma, joining the names with `", "` and splitting at `", "` gives back the same names, in order |
| `SqlText.PlaceholdersLayout` | lambda_function.py:39 | `", ".join("?" * n)` (also at line 56) is empty for n = 0. Otherwise it is 3n - 2 characters long and splits into exactly n `?` marks |
| `SqlText.SelectListRecoversColumns` | lambda_function.py:67-68 | The text right after `SELECT ` splits back to the selected columns, in order |
| `InsertStatement.RStrip` | lambda_function.py:98 | `rstrip` returns a prefix of its input that does not end in a stripped character, and removes only stripped characters |
| `InsertStatement.AccumulatedSnoc` | lambda_function.py:95-96 | Each loop turn appends one tuple and its `,\n` separator to `final_values` |
| `InsertStatement.AccumulatedIsJoinPlusSeparator` | lambda_function.py:93-96 | Before the strip, the accumulated text is the tuples joined by `,\n`, followed by one `,\n` |
| `InsertStatement.StripRemovesOnlyLastSeparator` | lambda_function.py:98 | Every tuple ends with `)`, so `rstrip(',\n')` removes only the final separator |
| `InsertStatement.FormatInsertValues` | lambda_function.py:89-100 | The statement is `INSERT INTO t (join(cols, ", "))\nVALUES\n`, then the row tuples joined by `,\n`, then `;` |
| `InsertStatement.TupleRoundTrip` | lambda_function.py:94 | A row with at least one value renders as one parenthesised tuple, and that tuple reads back as exactly that row |
| `InsertStatement.ValuesRoundTrip` | lambda_function.py:93-98 | The VALUES part holds one tuple per row, in row order: it reads back as exactly the input rows |
| `InsertStatement.InsertEdgeCases` | lambda_function.py:94-99 | With no rows the statement ends `VALUES\n;`. A row with no values renders as `('')`, which reads back as one empty value |
| `InsertStatement.ColumnOrderMatchesSelect` | lambda_function.py:90 | The INSERT's column list (line 90) is the same text as the SELECT's select list (line 67), so both name the columns in the same order |
| `Transfer.Destination.Execute` | lambda_function.py:81 | Executing a statement appends it to the destination's log |
| `Transfer.Destination.Commit` | lambda_function.py:85 | Committing appends one commit to the log |
| `Transfer.SourceCursor.Execute` | lambda_function.py:68 | Executing the SELECT records the query, loads its result set and rewinds the read position |
| `Transfer.SourceCursor.FetchMany` | lambda_function.py:71 | `fetchmany(k)` returns `rows[pos..min(pos+k, n)]` and advances the position to that end |
| `Transfer.CreateTable` | lambda_function.py:23-28 | Appends exactly `DROP TABLE IF EXISTS t;`, then `CREATE TABLE t (defs);`, then one commit. Nothing else is executed |
| `Transfer.BatchesCoverRows` | lambda_function.py:70-81 | The batches concatenate to exactly the source rows, in cursor order |
| `Transfer.BatchSizes` | lambda_function.py:70-73 | Every batch holds between 1 and `batch_size` rows, and only the last one may be short |
| `Transfer.BatchesAreSlices` | lambda_function.py:70-71 | Batch i is exactly rows `[i*k, min((i+1)*k, n))` |
| `Transfer.BatchCount` | lambda_function.py:70-81 | There are `ceil(n / batch_size)` batches, so zero source rows give zero INSERTs |
| `Transfer.BatchesBoundaries` | lambda_function.py:70-81 | With a batch size of 1 there is one batch per row. When the batch size is at least the row count (and there are rows), one batch holds them all |
| `Transfer.CommitOnceAfterInserts` | lambda_function.py:79-85 | A transfer appends one INSERT per batch, in batch order, then exactly one commit, for any number of batches (zero included) |
| `Transfer.BatchesStep` | lambda_function.py:71 | A non-empty fetch at the read position is the first of the batches that remain |
| `Transfer.TransferStep` | lambda_function.py:70-81 | A loop turn keeps the loop's invariants: the fetched batches concatenate to `rows[..pos]`, and with the remaining batches they make up all the batches |
| `Transfer.CollectRows` | lambda_function.py:75-77 | Copying the rows into `values_list` gives exactly the batch |
| `Transfer.CopyBatch` | lambda_function.py:63-87 | Issues the SELECT. Executes `InsertText` of each batch, in order. Stops at the first empty fetch, with the cursor exhausted when `batch_size >= 1`. Then commits exactly once |
| `Transfer.TransferCopiesEveryRow` | lambda_function.py:70-81 | Each executed INSERT's VALUES part reads back as its batch, and the batches concatenate to the source rows. Taken together, the transfer sends every source row once, in order |

## Left out

- `connect_sql_server` and `connect_postgresql` (lambda_function.py:5-21) wrap the database drivers. The model replaces them with the `SourceCursor` and `Destination` classes.
- `lambda_handler` (lambda_function.py:107-172) is not modelled. It is orchestration only: environment lookups (`os` is never imported, so line 109 would fail), `datetime.now()` timestamps, prints, three hard-coded table manifests, and a constant response.
- `copy_data_postgresql_to_sql_server_all` and `copy_data_postgresql_to_sql_server` (lambda_function.py:30-61) are not modelled beyond their `?` placeholder list (`Placeholders`). They rely on driver-side parameter binding. The second one's `SELECT ... WHERE ;` (line 51) cannot run.
- Python `str()` of non-string values (integers, `None` as `"None"`, timestamps) is foreign behaviour. Rows hold the already-converted strings.
- Database semantics are not modelled: what the servers do with the SQL texts, query evaluation (the result set is the `answer` parameter), rollback on disconnect, and the outcome of running the provisioning twice.
- `cursor.close()` (lambda_function.py:28, 43-44, 60-61, 86-87) and all `print` output are side effects only.
- `Transfer.CopyBatch`: `batch_size` is a natural number. `fetchmany(0)` returns no rows, so a batch size of 0 copies nothing and commits once. Negative batch sizes are driver-defined and not modelled.
- `InsertStatement.ValuesRoundTrip` and `Transfer.TransferCopiesEveryRow` cover only rows with at least one value. A row with no values renders as `('')`, which reads back as one empty value (`InsertStatement.InsertEdgeCases`).
- `SqlText.SplitJoin` and `SqlText.SelectListRecoversColumns` cover only column names without a comma. Names that hold `", "` cannot be recovered from the joined text.
