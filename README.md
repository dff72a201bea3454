# DataTransfer ETL model

A Dafny model of `DataTransfer`, a JDBC program. It copies lottery draw results from a staging table
`lottery` into a small star schema. The schema has a fact table `result_lottery` and two dimension
tables, `dim_province` and `dim_date`. The program also writes one audit row per log record into a
`log` table.

The tables are sequences of rows. Each database step is either a function or a method:

- `Resolver` holds the read-only lookups: `getProvinceId`, `getDateId`, `provinceExists` and
  `dateExists`.
- `JavaText` holds the three Java library behaviours the program depends on:
  - `String.split` with its trimming of trailing empty pieces;
  - `Integer.parseInt`, including its 32-bit range;
  - `Integer.toString`.
- `Dimensions` holds the specification functions for the two dimension loaders:
  - the date split and parse;
  - the positional binding of the `dim_date` insert.
- `Facts` holds the specification of the fact loader.
- `Warehouse.Warehouse` is a class whose fields are the three warehouse tables. Its loaders are loop
  methods proved against those specifications, and `TransferData` runs them in the program's order.
- `AuditSink` holds the audit-row mapping of `DatabaseHandler.publish` and the `log` table as a class.
- `Pipeline.Run` follows `main`. It logs the start, loads the driver, opens both connections,
  transfers, logs the completion and closes the connections. It proves which log records each path
  emits.

The model follows the code as written, which is unusual in three ways:

- **Facts are loaded first.** `transferData` loads the facts, then the provinces, then the dates. Each
  fact is therefore resolved against the dimension tables as they stood *before* the run. On an empty
  warehouse, every fact gets `province_id = -1` and `date_id = -1`.
- **The `dim_date` insert is shifted.** It names five columns and five placeholders but binds only
  parameters 1–4. The date string is bound to `id`, the day to `full_date`, the month to `day` and the
  year to `month`; parameter 5 is never bound. The model binds the parameters position by position. It
  models `executeUpdate` on a statement with an unbound placeholder as an `SQLException` that names
  parameter 5. So the date loader never inserts a row. A run completes only when every source date
  parses and is already stored in `dim_date`.
- **Date parse errors are unchecked.** `ArrayIndexOutOfBoundsException` and `NumberFormatException`
  from the date parse are not caught by `main`. Such a run logs only its start record, and the
  exception propagates out of `main` (`RunResult.Crashed`). Parsing happens before the existence
  check, so a malformed date aborts the run even when that exact string is already in `dim_date`.

Inputs that the program reads from outside become parameters:

- The staging table is `src`.
- Each `SELECT DISTINCT` result is a duplicate-free enumeration of the source's distinct values, in
  whatever order the database returns it.
- `Environment` gives the driver's presence, whether each database can be reached, and the two clock
  readings. The log database is reached once per record, because `publish` opens a new connection each
  time and swallows its own failure, so there is one flag for the start record and one for the closing record.

## Model

| member | source | states |
|---|---|---|
| JavaText.ParseInt | src/a/DataTransfer.java:234-236 | a parsed value lies in the 32-bit range, and the string starts with a sign or a digit |
| JavaText.ParseIntAccepts | src/a/DataTransfer.java:234-236 | a string parses exactly when it is an optional `-` or `+` followed by a non-empty digit string (leading zeros allowed) whose signed value fits in 32 bits; the result is that signed value |
| JavaText.ParseIntExamples | src/a/DataTransfer.java:234-236 | "1a", "-" and "" are rejected; "+007" parses to 7 and "-12" to -12 |
| JavaText.IntToString | src/a/DataTransfer.java:148 | `Integer.toString`: a `-` for negative values, then the decimal digits of the magnitude; its properties are stated by `DecimalDigits` and `ParseIntToString` |
| JavaText.ParseIntToString | src/a/DataTransfer.java:148 | `Integer.parseInt` inverts the decimal text of every 32-bit value, so the label number `i + 1` is rendered as its decimal digits |
| JavaText.DecimalDigits | src/a/DataTransfer.java:148 | the decimal text of a natural number is a non-empty digit string, without a leading zero, whose value is that number |
| JavaText.TrimTrailingEmpty | src/a/DataTransfer.java:233 | the result is a prefix of the pieces that does not end in an empty piece, and every piece it drops is empty |
| JavaText.Split | src/a/DataTransfer.java:233 | no piece of `split("/")` contains the separator; what the pieces are is stated by `SplitJoin` and `SplitOnlySeparators` |
| JavaText.TrimEmpties | src/a/DataTransfer.java:233 | trimming pieces that end in `m` empty pieces after a non-empty one removes exactly those `m` |
| JavaText.JoinHasSeparator | src/a/DataTransfer.java:233 | joining two or more pieces puts the separator into the text |
| JavaText.SplitJoin | src/a/DataTransfer.java:233 | splitting the `/`-join of separator-free parts whose last part is non-empty, followed by `m` trailing separators, gives back exactly those parts (so "05/12/2023/" splits into three parts) |
| JavaText.SplitOnlySeparators | src/a/DataTransfer.java:233 | text made only of separators (such as "/" or "//") splits into no parts at all |
| Schema.Tiers | src/a/DataTransfer.java:133-137 | a source row has exactly nine prize tiers |
| Schema.Unbound | src/a/DataTransfer.java:226-227 | a freshly prepared statement has one unbound slot per placeholder |
| Schema.Bind | src/a/DataTransfer.java:240-243 | `setXxx(k, v)` binds 1-based slot `k` to `v` and leaves every other slot as it was |
| Schema.FirstUnbound | src/a/DataTransfer.java:245 | the lowest-numbered unbound placeholder, which is what `executeUpdate` rejects; none means every slot is bound |
| Resolver.ProvinceId | src/a/DataTransfer.java:163-174 | the id of the first `dim_province` row whose name equals the argument, or -1 when no row matches |
| Resolver.DateId | src/a/DataTransfer.java:176-187 | the id of the first `dim_date` row whose `full_date` equals the argument, or -1 when no row matches |
| Resolver.ProvinceExists | src/a/DataTransfer.java:212-218 | true exactly when some `dim_province` row has that name |
| Resolver.DateExists | src/a/DataTransfer.java:254-260 | true exactly when some `dim_date` row has that `full_date` |
| Resolver.ProvinceExistsIffResolved | src/a/DataTransfer.java:163-218 | with positive ids, `provinceExists` holds exactly when `getProvinceId` is not the sentinel |
| Resolver.DateExistsIffResolved | src/a/DataTransfer.java:176-260 | with positive ids, `dateExists` holds exactly when `getDateId` is not the sentinel |
| Dimensions.DistinctEnumeration | src/a/DataTransfer.java:192 | the `SELECT DISTINCT province` result (and, at line 223, `SELECT DISTINCT date`): every distinct source value exactly once, in an order the database chooses; the loaders take it as a precondition |
| Dimensions.InsertProvince | src/a/DataTransfer.java:202-203 | the `INSERT INTO dim_province`: one row with the next auto-increment id and the name is appended, and the counter advances; `LoadProvincesWellFormed` states the ids it keeps fresh |
| Dimensions.ProvinceStep | src/a/DataTransfer.java:198-205 | one pass of the province loop: insert the name only when `provinceExists` is false; stated by `LoadProvincesAddsOnlyMissing` and `LoadProvincesNoop` |
| Dimensions.LoadProvinces | src/a/DataTransfer.java:197-205 | the province loop over the enumeration, in order; the lemmas below state its properties and `TransferProvinceData` is proved against it |
| Dimensions.ProvinceIdOfUnique | src/a/DataTransfer.java:163-174 | with unique names, `getProvinceId` of a stored name is that row's id, whatever order the rows are read in |
| Dimensions.LoadProvincesKeepsRows | src/a/DataTransfer.java:197-205 | the province loader only appends: existing rows are kept unchanged as a prefix, and the id counter never decreases |
| Dimensions.LoadProvincesCovers | src/a/DataTransfer.java:197-205 | afterwards every enumerated source province is present |
| Dimensions.LoadProvincesAddsOnlyMissing | src/a/DataTransfer.java:201-204 | every added row names an enumerated province that was absent before |
| Dimensions.LoadProvincesNoop | src/a/DataTransfer.java:201 | when every enumerated province is already present, the table is left exactly as it was |
| Dimensions.LoadProvincesIdempotent | src/a/DataTransfer.java:189-210 | a second run adds nothing, even when its enumeration lists the same values (or only some of them) in another order |
| Dimensions.LoadProvincesWellFormed | src/a/DataTransfer.java:202-203 | auto-increment ids stay positive, distinct and below the counter, so each insert gets a fresh id |
| Dimensions.LoadProvincesUniqueNames | src/a/DataTransfer.java:201-204 | if province names were unique before, they stay unique |
| Dimensions.ParseFields | src/a/DataTransfer.java:234-236 | parsing parts 0..n-1 in order, stopping at the first exception, yields n integers on success; what it yields is stated by the next three lemmas |
| Dimensions.ParseFieldsSucceeds | src/a/DataTransfer.java:234-236 | the parse succeeds exactly when there are at least n parts and each of the first n is an integer |
| Dimensions.ParseFieldsValues | src/a/DataTransfer.java:234-236 | a successful parse yields the integers of the first n parts, in order |
| Dimensions.ParseFieldsFailsAt | src/a/DataTransfer.java:234-236 | when parts before `i` are integers and part `i` is missing or not an integer, the error is ArrayIndexOutOfBounds(i) or NumberFormat of part `i` respectively |
| Dimensions.ParseThreeFields | src/a/DataTransfer.java:234-236 | the three-field case: at least three parts, each of parts 0–2 an integer, giving day, month and year |
| Dimensions.ParseDate | src/a/DataTransfer.java:233-236 | `split("/")`, then parts 0, 1 and 2 parsed as day, month and year; stated by `ParseDateSucceeds`, `ParseDateFailsAt` and `ParseFormatDate` |
| Dimensions.ParseDateFailsAt | src/a/DataTransfer.java:233-236 | a date that does not parse raises the error of its first missing or non-integer part among parts 0–2 |
| Dimensions.ParseDateSucceeds | src/a/DataTransfer.java:233-236 | a date parses exactly when its `/`-split has at least three parts whose first three are integers; extra parts are ignored |
| Dimensions.ParseDateOfJoin | src/a/DataTransfer.java:233-236 | joining three or more `/`-free parts, whose first three are integers and whose last is non-empty, with any number of trailing slashes, gives a date that parses to those first three values |
| Dimensions.ParseFormatDate | src/a/DataTransfer.java:232-236 | a `dd/MM/yyyy` string parses back to its day, month and year |
| Dimensions.ParseDateNeedsSlashes | src/a/DataTransfer.java:233-235 | a string without `/` always aborts: with an index error on part 1 when it is an integer, with a number-format error otherwise |
| Dimensions.BindDateInsert | src/a/DataTransfer.java:238-243 | the five-placeholder `dim_date` insert with `setString(1, dateStr)`, `setInt(2, day)`, `setInt(3, month)` and `setInt(4, year)` applied; stated by `DateInsertShifted` and `DateInsertLeavesFifth` |
| Dimensions.DateInsertShifted | src/a/DataTransfer.java:226-243 | after the four `setXxx` calls, `id` holds the date string, `full_date` the day, `day` the month, `month` the year, `year` is unbound, and the first unbound placeholder is 5 |
| Dimensions.DateInsertLeavesFifth | src/a/DataTransfer.java:240-245 | after the four `setXxx` calls, placeholders 1–4 are bound and the first unbound one is 5 |
| Dimensions.DateInsertError | src/a/DataTransfer.java:245 | the `SQLException` that `executeUpdate` throws for the date insert names its first unbound placeholder, which `DateInsertLeavesFifth` shows is 5 |
| Dimensions.DateStep | src/a/DataTransfer.java:233-246 | one pass of the date loop: parse, then on an absent date run the insert whose error is "no value for parameter 5"; stated by `DateStepOutcome` |
| Dimensions.LoadDates | src/a/DataTransfer.java:229-247 | the date loop: the outcome of the first date that does not pass, or normal; stated by `LoadDatesNormal` and `LoadDatesStopsAtFirstFailure` |
| Dimensions.DateStepOutcome | src/a/DataTransfer.java:233-246 | one date: it passes exactly when it parses and is stored; a parse failure raises the unchecked error; a parsed but absent date fails the insert with "no value for parameter 5" |
| Dimensions.LoadDatesNormal | src/a/DataTransfer.java:229-247 | the date loader finishes normally exactly when every enumerated date parses and is already in `dim_date` |
| Dimensions.LoadDatesStopsAtFirstFailure | src/a/DataTransfer.java:229-247 | the loader's outcome is the outcome of the first date that fails to parse or is absent |
| Dimensions.EmptyDateDimensionFails | src/a/DataTransfer.java:233-245 | against an empty `dim_date`, the first enumerated date decides: a parse error propagates, and otherwise the insert fails on parameter 5 |
| Facts.PrizeLabel | src/a/DataTransfer.java:148 | `"prize " + (i + 1)`; stated by `PrizeLabels` and `FirstAndLastLabels` |
| Facts.FactsOf | src/a/DataTransfer.java:130-155 | the fact loop over the staging rows in order, nine tier rows each; stated by `FactFanOut`, `FactAt` and the lemmas after it |
| Facts.FactFanOut | src/a/DataTransfer.java:130-155 | N source rows give exactly 9·N fact rows |
| Facts.FactAt | src/a/DataTransfer.java:147-153 | fact `9k+i` is "prize i+1", carries tier `i` of source row `k`, and the ids resolved for that row's province and date |
| Facts.TierFacts | src/a/DataTransfer.java:147-153 | the first `n` inserts of the tier loop for one staging row; stated entry by entry by `TierFactsAt` |
| Facts.RowFacts | src/a/DataTransfer.java:147-153 | the nine inserts of one staging row, which `LoadRow` is proved to append |
| Facts.TierFactsAt | src/a/DataTransfer.java:147-151 | the tier loop's first `n` inserts are `n` rows, and insert `i` is "prize i+1" with tier `i` and the row's two ids |
| Facts.PrizeLabels | src/a/DataTransfer.java:148 | the label of tier `i` is "prize " followed by the single digit `i+1`, and the nine labels are pairwise distinct |
| Facts.FirstAndLastLabels | src/a/DataTransfer.java:148 | the first tier's label is exactly "prize 1" and the ninth's exactly "prize 9" |
| Facts.TierOrder | src/a/DataTransfer.java:133-151 | "prize 1" carries `prize_eight` and "prize 9" carries `prize_special` |
| Facts.SameIdsPerRow | src/a/DataTransfer.java:147-151 | all nine facts of a source row share its province id and date id |
| Facts.UnresolvedIsSentinel | src/a/DataTransfer.java:141-144 | a fact whose province or date is missing from its dimension carries -1 for that id |
| Facts.SentinelIffAbsentAt | src/a/DataTransfer.java:141-144 | with positive surrogate ids, fact `n` has province id -1 exactly when its row's province is absent, and date id -1 exactly when its row's date is absent |
| Facts.SentinelIffAbsent | src/a/DataTransfer.java:130-155 | with positive surrogate ids, every fact's -1 marks exactly the provinces and dates its staging row misses |
| Facts.FactsAgainstEmptyDimensions | src/a/DataTransfer.java:110-119 | against empty dimension tables every fact has `province_id = -1` and `date_id = -1` |
| Warehouse.Warehouse.constructor | src/a/DataTransfer.java:110-119 | a warehouse holds the given tables; ids that are positive and fresh make it valid |
| Warehouse.Warehouse.LoadRow | src/a/DataTransfer.java:131-154 | one pass of the fact loop resolves the row's province and date ids and appends exactly its nine facts |
| Warehouse.Warehouse.TransferResultLotteryData | src/a/DataTransfer.java:121-161 | the fact loop appends exactly the fact specification of the source, resolved against the current dimensions, which is 9·N rows; only `result_lottery` changes |
| Warehouse.Warehouse.TransferProvinceData | src/a/DataTransfer.java:189-210 | the province loop produces the insert-if-absent specification: existing rows are a prefix, every source province is covered, and well-formedness and unique names are preserved; only `dim_province` changes |
| Warehouse.Warehouse.TransferDateData | src/a/DataTransfer.java:220-252 | the date loop's outcome is the date-loader specification, and no table changes |
| Warehouse.Warehouse.TransferData | src/a/DataTransfer.java:110-119 | facts are resolved against the dimensions from before the run; then provinces are loaded; `dim_date` is unchanged; the outcome is the date loader's; every source province ends up present; the warehouse invariant is preserved; from a valid warehouse, an appended fact carries -1 exactly for a missing province or date |
| AuditSink.AuditRow | src/a/DataTransfer.java:80-86 | `connect_status` is 1 and `result` is "Thành công" exactly when the level is INFO, otherwise 0 and "Thất bại"; the timestamp is the record's, `detail` is its message, and the three labels are fixed |
| AuditSink.AuditRowConsistent | src/a/DataTransfer.java:82-85 | the status flag and the result label always agree |
| AuditSink.DeliveredOne | src/a/DataTransfer.java:71-97 | one `publish`: the record's audit row when the log database is reached, exactly nothing otherwise |
| AuditSink.Delivered | src/a/DataTransfer.java:71-97 | each record is published on its own connection: at most one row per record; when every publish reaches the database, one row per record mapped in order; when none does, nothing |
| AuditSink.DeliveredSingle | src/a/DataTransfer.java:71-97 | publishing one record writes that record's rows, as decided by its own reachability |
| AuditSink.DeliveredOneThenOne | src/a/DataTransfer.java:71-97 | publishing two records appends the rows of the first, then those of the second, each decided by its own reachability |
| AuditSink.AuditLog.Publish | src/a/DataTransfer.java:71-97 | appends the record's audit row when the log database is reachable, and nothing otherwise |
| Pipeline.Outcome | src/a/DataTransfer.java:28-55 | the result of `main`: a failure for a missing driver or an unreachable database, in that order, otherwise the date loader's outcome turned into completed, failed or crashed; stated by `CompletedIff` and `EmptyWarehouseNeverCompletes` |
| Pipeline.StartRecord | src/a/DataTransfer.java:30 | the INFO record "Staging to warehouse start." with the start time and no exception |
| Pipeline.ClosingRecord | src/a/DataTransfer.java:47-55 | the INFO record "Staging to warehouse completed." after completion, or the SEVERE record "Staging to warehouse failed." carrying the caught exception; stated by `RunLogSequence` and `RunAuditRows` |
| Pipeline.RunLog | src/a/DataTransfer.java:29-56 | the start record, then "completed" or "failed" unless an exception escapes; stated by `RunLogSequence` |
| Pipeline.Opened | src/a/DataTransfer.java:33-41 | the connections opened before the `try` block ends or throws: none without the driver or the staging connection, the staging one alone when the warehouse refuses, otherwise both; stated through `LeftOpenOnlyOnFailure` |
| Pipeline.LeftOpen | src/a/DataTransfer.java:36-55 | the connections opened and not closed; stated by `LeftOpenOnlyOnFailure` |
| Pipeline.Execute | src/a/DataTransfer.java:32-44 | the `try` block up to the closing log call gives the run's outcome and the connections opened; a connected run has the transfer's effect, otherwise the warehouse is unchanged |
| Pipeline.Run | src/a/DataTransfer.java:26-57 | the run's result and the connections it leaves open follow the driver/connection/transfer outcome; the log gains the audit rows of only those of the run's records whose own `publish` reaches the log database, in order; a connected run has the transfer's effect; otherwise the warehouse is unchanged |
| Pipeline.RunLogSequence | src/a/DataTransfer.java:29-56 | the start record (INFO) is first; then "completed" (INFO) exactly when completed, "failed" (SEVERE) exactly when a checked exception was caught, and nothing after a crash |
| Pipeline.RunDelivered | src/a/DataTransfer.java:29-97 | the audit rows of a run are the start record's rows followed by the closing record's rows, if there is a closing record |
| Pipeline.RunAuditRows | src/a/DataTransfer.java:29-86 | when both publishes reach the log database, a completed run writes two success rows; a failure writes a success row and then a failure row whose detail is the fixed message |
| Pipeline.RunAuditRowsIndependent | src/a/DataTransfer.java:71-97 | the start row is written exactly when its publish reaches the log database, and the closing row likewise, independently of each other |
| Pipeline.CompletedIff | src/a/DataTransfer.java:29-51 | a run completes exactly when the driver loads, both connections open, and every source date parses and is already stored |
| Pipeline.EmptyWarehouseNeverCompletes | src/a/DataTransfer.java:44-55 | against an empty `dim_date`, a connected run over a non-empty source either crashes on a malformed first date or fails on the date insert |
| Pipeline.LeftOpenOnlyOnFailure | src/a/DataTransfer.java:36-55 | connections are left open exactly when one was opened and the run did not complete, because `close()` is skipped |

## Left out

- Configuration loading (`loadProperties`) is left out. Its file I/O and its printed `IOException` are not modelled; URLs and credentials do not appear.
- JDBC plumbing is reduced to `Environment` booleans: `Class.forName`, `DriverManager.getConnection`, and statement and result-set objects along with their `close()` calls. A connection that fails is `ConnectionFailed(store)`.
- The `java.util.logging` wiring is left out: the static initializer, handler registration, `flush`/`close` and the console handler. Record timestamps are inputs.
- The audit sink's printed stack trace is not modelled; a failed `publish` only loses its own row.
- SQL collation and trimming are left out: lookups compare strings exactly.
- `SELECT DISTINCT` returns its rows in an order the database chooses. In the model that order is a parameter.
- The id lookups have no ORDER BY either. The model reads `dim_province` and `dim_date` in table order and takes the first match. With unique keys, the order makes no difference.
- SQL `NULL` columns are left out: every column holds a value.
- Other SQL failures are not modelled. These include constraint violations, duplicate keys and a failing fact or province insert. The only SQL error inside the transfer is the unbound parameter of the `dim_date` insert.
- What a fully bound `dim_date` insert would store is not modelled, because the code never binds parameter 5.
- Auto-increment ids of `dim_province` come from a counter held with the table. `dim_date` ids are whatever the stored rows hold.
- JavaText.ParseInt: accepts only ASCII digits, while `Integer.parseInt` also accepts other Unicode decimal digits.
- Warehouse.Warehouse.LoadRow: the body of the `while` loop, with its nine-tier `for` loop, is a separate method here. In the source it sits inline in `transferResultLotteryData`.
- Concurrency and timeouts are not modelled because the program has none.
