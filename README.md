# A verified model of the speed-test logger

The program measures the Internet connection and stores each result in an SQLite
table. It does so on demand from a web page, on a ticker, or once from the command
line. It serves the stored results as a trend chart, and it can also list results
and nearby test servers. This project models the deterministic core that is left
once the speedtest library, the network, the database engine and the clock are
treated as inputs. That core is:

- the `speedtest_results` table as an append-only store with an AUTOINCREMENT id;
- the measurement cycle shared by the web handler and the scheduler, and the one-shot cycle;
- the `2006-01-02 15:04:05` timestamp text, its minute label, and the fact
  that sorting that text sorts by time;
- the chart endpoint, which is meant to read the newest rows, splits them into four series and
  reverses each in place;
- server lookup by `-serverid`, the first-target choice, and the 50-line server listing
  with its latency column;
- the choice of mode from the command-line flags;
- the visitor address with its port cut off, and the loopback test.

Modules, one per file:

| file | module | contents |
|---|---|---|
| wrappers.dfy | Wrappers | `Option`, `Result` |
| timestamp.dfy | Timestamp | instants, the fixed-width text, the minute label, byte order of texts |
| decimal.dfy | Decimal | `strconv.Itoa` / `strconv.Atoi` on 64-bit integers |
| store.dfy | Store | rows, `ORDER BY ... DESC LIMIT n`, the `ResultStore` class |
| trend.dfy | Trend | the reverse helpers, the chart data |
| runner.dfy | Runner | the on-demand, scheduled and one-shot cycles, server choice |
| cli.dfy | Cli | flag defaulting, mode dispatch, the server listing |
| visitor.dfy | Visitor | port stripping, loopback test |

How the inputs are modelled:
- Each external call becomes a field of an input value, in call order:
  `Runner.Env` for a measurement cycle and `Trend.Faults` for the chart endpoint.
  The latency and speeds are one of those fields, `Runner.Probe`.
- A cursor error during `rows.Next()` is the `stepFailsAt` field of `Trend.Faults`:
  the loop ends there and the handler, which never checks `rows.Err()`, answers
  with the rows read so far.
- A failure of the latest-record query is the `latestFailsAt` field of `Trend.Faults`:
  the column at which its `Scan` stops (0 also for the query itself failing). The
  columns before it keep the newest row's values; the handler only logs the error.
- Every `log.Fatalf` and every `http.Error` return becomes a `Failure` that
  names the failing step.
- Indexing `targets[0]` on an empty list is the explicit failure `FirstTarget`:
  - in the web handler, net/http recovers the panic, so the request fails and
    nothing is stored;
  - in the scheduler goroutine the panic ends the process, so the schedule stops
    (`Runner.Schedule`).
- Only the web server creates the table at start-up (`initDatabase`). The on-demand
  and scheduled cycles insert without creating it, so an insert into a missing table
  fails. The one-shot run issues its own `CREATE TABLE IF NOT EXISTS`.
- A negative SQLite `LIMIT` means no limit. SQLite leaves the order of equal
  sort keys unspecified. `Store.SortDesc` fixes one such order.

## Model

| member | source | states |
|---|---|---|
| Timestamp.Format | webserver.go:120 | defines `time.Format` with the layout `2006-01-02 15:04:05`, always 19 characters; its layout, order and injectivity are stated by FormatLayout, FormatOrder and FormatInjective |
| Timestamp.MinuteLabel | webserver.go:168 | defines `strftime('%m-%d %H:%M', test_time)`, always 11 characters; LabelIsTextMiddle and SameMinuteSameLabel state what it keeps and loses |
| Timestamp.FormatLayout | webserver.go:120 | the stored text puts every field zero-padded at a fixed offset, between the fixed separators `-`, `-`, ` `, `:`, `:` |
| Timestamp.Pad2Value | webserver.go:120 | a two-digit field reads back as the number it encodes |
| Timestamp.LexLess | main.go:55 | defines SQLite's BINARY collation on text: character by character, with a proper prefix first; comparing code points gives the same order as comparing the UTF-8 bytes SQLite stores; LexLessIrreflexive, LexLessTransitive and LexLessTotal state that it is a strict total order |
| Timestamp.FormatOrder | main.go:55 | for any two instants, the text of one sorts before the other's exactly when that instant is earlier |
| Timestamp.FormatInjective | webserver.go:251 | two instants share a text exactly when they are equal, so the TEXT column loses nothing |
| Timestamp.LabelIsTextMiddle | webserver.go:168 | the `%m-%d %H:%M` label is exactly characters 5 to 15 of the stored text |
| Timestamp.SameMinuteSameLabel | webserver.go:168 | two instants in the same minute share one label but keep distinct texts |
| Decimal.Itoa | main.go:290 | the decimal text is non-empty, starts with `-` exactly for negative numbers, and is digits otherwise |
| Decimal.Atoi | main.go:282 | a parsed value lies in the 64-bit range; accepted text is an optional sign followed by digits only |
| Decimal.AtoiItoa | main.go:282-290 | parsing the decimal text of any 64-bit integer gives that integer back |
| Decimal.ItoaInjective | main.go:290 | two 64-bit integers have the same decimal text exactly when they are equal |
| Decimal.ItoaCanonical | main.go:290 | `strconv.Itoa` never writes a padded number such as `007`, `-07` or `-0`; it writes `0` exactly for zero |
| Decimal.LeadingZerosAreDropped | main.go:282-290 | `-serverid 007` parses to 7 and is compared with the text `7`, not `007` |
| Store.TestTime | webserver.go:251 | defines the `test_time` TEXT column of a stored row: its commit time in the `2006-01-02 15:04:05` layout; TextOrder states that ordering by it is ordering by time |
| Store.SortDesc | main.go:55 | defines `ORDER BY test_time DESC` as an insertion sort on a text key; SortDescCorrect states that it sorts and permutes |
| Store.Query | webserver.go:213 | defines `ORDER BY test_time DESC LIMIT n` on the full column; QueryCorrect and QueryKeepsNewest state its properties |
| Store.Latest | webserver.go:213-217 | defines the `LIMIT 1` query, with `sql.ErrNoRows` as None; LatestIsNewest and LatestAfterInsert state its properties |
| Store.Take | webserver.go:168 | `LIMIT n` keeps the first min(n, count) rows, and everything when n is negative |
| Store.TextOrder | webserver.go:251 | on stored rows, the order of the TEXT column is the order of commit times |
| Store.SortDescCorrect | main.go:55 | `ORDER BY test_time DESC` returns a permutation of the rows with no text below a later one |
| Store.QueryCorrect | webserver.go:213 | the query returns min(limit, count) stored rows, newest first |
| Store.TakeKeepsTop | webserver.go:168 | `LIMIT n` on a sorted result keeps a sub-multiset, and no row it drops has a higher key than a row it keeps |
| Store.QueryKeepsNewest | webserver.go:213 | the query returns stored rows, as a sub-multiset of the table, and no row it leaves out is later than a row it returns |
| Store.LatestIsNewest | webserver.go:213-217 | the `LIMIT 1` query finds a row exactly when the table is non-empty, and no stored row is later than it |
| Store.LatestAfterInsert | webserver.go:213 | a row committed after every other row is the one the `LIMIT 1` query returns |
| Store.ResultStore.CreateTable | webserver.go:241-257 | `CREATE TABLE IF NOT EXISTS`: the table exists afterwards unless the statement fails; rows and counter are untouched, so repeating it is harmless |
| Store.ResultStore.Insert | webserver.go:121-130 | the insert succeeds exactly when the table exists and the engine does not fail; success appends one row under the next id; failure changes nothing |
| Trend.ReversedAt | webserver.go:23-27 | after a reverse, element i is the original element len-1-i |
| Trend.ReversedTwice | webserver.go:23-41 | reversing twice restores the slice |
| Trend.ReversedShort | webserver.go:24 | slices of length 0 or 1 are their own reversal |
| Trend.ReversedPermutes | webserver.go:30-34 | a reverse keeps the same multiset of elements |
| Trend.ReverseInPlace | webserver.go:37-41 | the two-index swap loop leaves the array holding the reversal of its old contents |
| Trend.ReverseSlice | webserver.go:203-206 | reversing a series in place in its backing array yields the reversed series |
| Trend.Column | webserver.go:194-197 | defines a series as one value per row read, in row order; ScanRows proves the append loop builds it and ColumnReversed relates it to the reversal |
| Trend.ChartRows | webserver.go:168-206 | defines the plotted rows as the reversed result of the intended query; ChartRowsAreNewest, ChartRowsChronological and EveryRowIsAPoint state its properties |
| Trend.Series | webserver.go:182-228 | defines the response body from the plotted rows and the latest row, whose display fields are those columns the latest-record Scan assigned before any failing one; ChartData returns it, and the SeriesShape, SeriesPointsAligned, DisplayFieldsFromNewestPoint, EmptyStoreSeries, LatestFailureKeepsSeries and NullDistanceKeepsNames lemmas state its properties |
| Trend.Assigned | webserver.go:213-217 | defines which destinations `Row.Scan` has written when it fails at a column: exactly those before it |
| Trend.ColumnReversed | webserver.go:203-206 | reversing a series equals reading it from the reversed rows, so the four series are reversed by the same permutation |
| Trend.ReversedPrefix | webserver.go:182-206 | reversing the first m rows read gives the last m rows of the full reversal, so a cursor that stops early loses the oldest points, not the newest |
| Trend.ReadCount | webserver.go:182 | the number of rows the `rows.Next()` loop sees, at most all of them, and all of them exactly when stepping does not fail before the last; stepping failing ends the loop like the end of the rows |
| Trend.ScanRows | webserver.go:182-198 | the scan loop fails exactly when the row whose scan fails is among those `rows.Next()` hands out; otherwise it yields the four series of exactly those rows, in order, with no error, since `rows.Err()` is never checked |
| Trend.ChartData | webserver.go:155-228 | open, query and scan failures fail in that order, and a query against a missing table fails; a scan failure happens exactly when the failing row is among those read, and returns the error naming that row; a success yields `Series`, the columns of the rows oldest first plus the newest row's display fields, cut to its newest `ReadCount` points when `rows.Next()` stops early |
| Trend.SeriesShape | webserver.go:168-198 | when the cursor reads every row, the four series have one length, the number of rows returned, which is min(limit, count) or count for a negative limit |
| Trend.NewestPoints | webserver.go:182-228 | defines the response of a cursor that stops after m rows: every series keeps its newest m points; ResponseShape states its properties |
| Trend.ResponseShape | webserver.go:182-228 | a successful response has four series of one length, `ReadCount` of the rows the query returns and so at most that many, with the display fields of the full response |
| Trend.NewestPointsShape | webserver.go:182-228 | cutting four series of one length to their newest m points keeps them of one length, m, each series holding the last m points of the full one in order, and keeps the display fields; with SeriesShape, a response cut short by `rows.Next()` holds the newest points of the full one |
| Trend.SeriesPointsAligned | webserver.go:194-206 | point i of labels, download, upload and latency all come from one stored row |
| Trend.ChartRowsAreNewest | webserver.go:168 | with the intended sort, the plotted rows are stored rows, and no row left off the chart is later than a plotted one |
| Trend.ChartRowsChronological | webserver.go:202-206 | with the intended sort, the plotted rows run from oldest to newest |
| Trend.EveryRowIsAPoint | webserver.go:182-198 | when the limit does not cut, every stored row is a point, rows sharing a minute label included |
| Trend.DisplayFieldsFromNewestPoint | webserver.go:209-217 | with the intended sort, the ISP, server name and distance belong to the last plotted point |
| Trend.DisplayFieldsFromNewestSecond | webserver.go:209-217 | whatever the tie order: the display fields come from a stored row that no row is later than, and the last plotted point has that row's commit time |
| Trend.EmptyStoreSeries | webserver.go:209-228 | an empty table gives four empty series, empty ISP and server name, and distance 0 |
| Trend.LatestFailureKeepsSeries | webserver.go:213-217 | a latest-record Scan failing at column k leaves the four series intact, keeps the newest row's display fields before column k and leaves column k and the later ones at their zero values |
| Trend.NullDistanceKeepsNames | webserver.go:213-217 | a NULL `server_distance` on the newest row, which fails the Scan at its last column, still shows that row's ISP and server name, with distance 0 |
| Trend.ChartQueryAsWritten | webserver.go:168 | defines the chart query as written, sorted by the label alias; ChartRowsAsWrittenByLabel and YearWrapHidesNewest state its properties |
| Trend.ChartRowsAsWritten | webserver.go:168-206 | defines the plotted rows as written, the reversed as-written query; ChartRowsAsWrittenByLabel and YearWrapHidesNewest state its properties |
| Trend.ChartRowsAsWrittenByLabel | webserver.go:168 | as written, the plotted rows ascend by minute label, because ORDER BY names the label alias |
| Trend.YearWrapHidesNewest | webserver.go:168 | as written, rows from 2024-12-31 23:59 and 2025-01-01 00:00 with limit 1 plot the older row, while the intended query gives the newer one |
| Runner.Assemble | webserver.go:125 | defines the values bound to the INSERT placeholders; CommitsWhateverTheProbes states which input each comes from |
| Runner.CycleOutcome | webserver.go:73-130 | defines the outcome of one cycle: the first failing checked step, or the record to commit; MeasureAndStore returns it, and ProbesNeverAbort and CommitsWhateverTheProbes state its properties |
| Runner.MeasureAndStore | webserver.go:73-130 | one cycle returns `CycleOutcome`: the first failing step among user info, server list, filtering, empty targets, database open and insert, or the committed record; a failure leaves the store untouched and a success appends exactly that record under the next id |
| Runner.RunTest | webserver.go:66-142 | the handler fails exactly when the cycle fails, with the same step, leaving the store unchanged; on success exactly the cycle's record is appended under the next id, the counter moves on by one, and the JSON result repeats its download, upload, latency, ISP and server name |
| Runner.ProbesNeverAbort | webserver.go:97-108 | no ping, download or upload result decides whether the cycle succeeds |
| Runner.CommitsWhateverTheProbes | main.go:118-143 | when every checked step succeeds, the record is committed with whatever latency and speeds the probes left, 0 ms included |
| Runner.Schedule | main.go:93-147 | defines the rows a run of ticks appends, up to the first empty-target panic; RunScheduler appends them, and the ScheduleBound, ScheduleIds, ScheduleCommitsSuccesses, ScheduleStopsAtPanic and NoTableNoRows lemmas state their properties |
| Runner.RunScheduler | main.go:89-152 | the ticker loop appends exactly `Schedule(ticks)`, the rows of the successful ticks up to the first empty-target panic; it reports a crash exactly when some tick panics |
| Runner.ScheduleBound | main.go:93-147 | no run of ticks appends more rows than there are ticks |
| Runner.ScheduleIds | main.go:93-147 | the appended rows take consecutive ids after the counter |
| Runner.ScheduleCommitsSuccesses | main.go:97-147 | without a panic, the committed records are exactly those of the successful ticks, in tick order; failed ticks are skipped and later ticks still run |
| Runner.ScheduleStopsAtPanic | main.go:116 | a panic on tick c loses every later tick |
| Runner.NoTableNoRows | main.go:137-147 | the scheduler never creates the table, so against a fresh database it commits nothing |
| Runner.FirstWithId | main.go:288-295 | the index found is the first server in list order with the given ID, or the list length when none has it |
| Runner.FindServerById | main.go:288-299 | the lookup finds nothing exactly when no server's ID is `strconv.Itoa` of the parsed ID, and otherwise returns the first such server |
| Runner.Chosen | main.go:278-316 | defines the one-shot server choice, by ID or the first ranked target; SelectServer computes it and ChosenById states its by-ID properties |
| Runner.SelectServer | main.go:278-316 | the server choice equals `Chosen`: by ID when `-serverid` is given, else the first ranked target |
| Runner.PaddedIdNeverChosen | main.go:280-299 | with `-serverid` set, a chosen server never has a padded ID such as `007`, and when every listed ID is padded no server is chosen, whatever the flag |
| Runner.ChosenById | main.go:280-299 | a non-integer `-serverid` is rejected before any lookup; an integer one succeeds exactly when some server has that ID, and picks the first such server |
| Runner.OneShotOutcome | main.go:264-366 | defines the outcome of the one-shot run: the first failing step among user info, server list, server choice, database open, table creation and insert, or the record to commit; RunOnce returns it |
| Runner.RunOnce | main.go:264-366 | the one-shot run equals `OneShotOutcome`; a failure never touches the rows or the counter; a failure before `CREATE TABLE` leaves the table as it was, and a failed insert leaves the table created; a success leaves the table existing, appends the record under the next id and moves the counter on by one |
| Cli.EffectiveInterval | main.go:166-168 | defines the defaulted interval, 120 minutes for `-web` with `-interval 0`; WebMode and SchedulerIff state its effect |
| Cli.Dispatch | main.go:166-264 | defines the actions main starts for a flag set, as written; the ListThenServersPrecedence, WebMode, SchedulerIff, OneShotIff, NegativeIntervalDoesNothing and SchedulerOnlyExitsAtOnce lemmas state its properties |
| Cli.ListThenServersPrecedence | main.go:171-242 | `-list` overrides every other flag and `-servers` all the later ones; each is the only action |
| Cli.WebMode | main.go:245-255 | under `-web`, serving is the last action; the scheduler starts first exactly when the defaulted interval is positive, 120 minutes for `-interval 0`; there is no one-shot run |
| Cli.SchedulerIff | main.go:166-261 | the scheduler starts exactly when neither `-list` nor `-servers` is set and the defaulted interval is positive |
| Cli.OneShotIff | main.go:257-264 | the one-shot run happens exactly when no `-list`, `-servers`, `-web` or interval is given, as the only action |
| Cli.NegativeIntervalDoesNothing | main.go:257-264 | a negative interval without `-web` starts neither the scheduler nor a one-shot run |
| Cli.SchedulerOnlyExitsAtOnce | main.go:257-264 | as written, every scheduler-only flag set, `-interval 30` alone among them, starts only the scheduler and nothing that keeps the process alive |
| Cli.DispatchIntended | main.go:257-264 | defines the corrected dispatch, which also waits on the scheduler in the scheduler-only mode; IntendedSchedulerTicks states what the correction achieves |
| Cli.IntendedSchedulerTicks | main.go:257-264 | with the correction, every scheduler started is followed by an action that keeps the process alive, and the scheduler starts in the same cases as before |
| Cli.LatencyText | main.go:226-231 | defines the latency column; LatencyTextReadsBack states when it is the number and when the marker |
| Cli.LatencyTextReadsBack | main.go:226-231 | a shown latency is the timeout marker exactly when it is not positive, and reads back as the number exactly when it is positive |
| Cli.ListServerTable | main.go:177-241 | fails at user info or the server list; otherwise prints min(50, count) lines, line i being server i with its latency text, plus the notice exactly when more than 50 servers exist |
| Visitor.LastIndex | webserver.go:303 | -1 exactly when the character is absent, otherwise the position of its last occurrence |
| Visitor.StripPort | webserver.go:303-311 | defines the port stripping with both branches and the repeated search as written; ElseBranchIsDead, StripPortShape and StripPortOfHostPort state its properties |
| Visitor.ElseBranchIsDead | webserver.go:303-311 | the else branch's repeated search finds nothing, so for every address the stripping is a single cut before the last `:`, or no change when there is none |
| Visitor.StripPortShape | webserver.go:303-311 | the result is the whole address when there is no `:`, otherwise the prefix before the last `:` |
| Visitor.StripPortOfHostPort | webserver.go:303-305 | `host:port` becomes exactly `host` for any host, bracketed IPv6 included, and any port without `:` |
| Visitor.IsLoopback | webserver.go:316 | defines the local-visitor test on three literal strings; LoopbackVisitors and OnlyThreeSpellings state its properties |
| Visitor.LoopbackVisitors | webserver.go:316 | `[::1]`, `127.0.0.1` and `localhost` with any port count as local |
| Visitor.OnlyThreeSpellings | webserver.go:316 | other loopback spellings such as `127.0.0.2` or an unbracketed `::1` do not count |

## Left out

- HTTP serving, routing, status codes, `http.Error` texts, templates and the `index` handler: I/O. Each error response is a `Failure` naming the step.
- JSON encoding, including Go encoding a nil slice as `null` rather than `[]`: the model returns sequences.
- The speedtest library (`FetchUserInfo`, `FetchServers`, the `FindServer` ranking, `PingTest`, `DownloadTest`, `UploadTest`): foreign calls whose results are inputs (`Runner.Env`, `Runner.Probe`).
- The Mbps conversion `x * 8 / 1e6`: floating point. Speeds and distance are opaque `real` values.
- The SQLite engine beyond appending a row under the next id, sorting by text and `LIMIT`. `strftime` is modelled as the text projection `Timestamp.MinuteLabel`; a query against a missing table is a query failure.
- `Store.SortDesc`: the order of rows with equal sort keys is one fixed choice, whereas SQLite leaves it unspecified.
- `Trend.DisplayFieldsFromNewestPoint`: holds as stated only when one row has the newest commit second, because the chart query and the latest-record query may break a tie differently in SQLite; `Trend.DisplayFieldsFromNewestSecond` states what holds whatever the tie order.
- The two schemas differ in the declared type of `test_time` (TEXT at web start-up, TIMESTAMP in the one-shot run). Both store the same text, and whichever statement runs first decides the schema.
- The ticker interval, the goroutines, and inserts racing between the web handler and the scheduler: scheduling and concurrency. `Runner.RunScheduler` runs a finite sequence of ticks one after another.
- `openDatabase` folds `sql.Open` and `Ping` into one outcome. The one-shot run's `sql.Open` alone is the same field.
- The `defer db.Close()` inside the scheduler loop, which leaks connections: resource handling, not behaviour.
- Geolocation and public-IP requests and their map decoding, in the `-servers` mode and in the IP handler: network I/O. Only the port stripping and the loopback test are modelled.
- The printing of `-list` and `-servers` and the printf column formatting. The `-list` query itself is `Store.SortDesc` on the full `test_time` column.
- `DBPath` initialisation and the location of the database file.
- The wall clock: the commit time is an input `Moment`, a real Gregorian calendar date in years 0 to 9999 with the day bounded by the month's length, with no time zones and no daylight-saving shifts.
- `Runner.FindServerById`, `Decimal.Atoi`: `strconv.Atoi`'s error values (syntax and range errors) are reduced to `None`; the base-10 syntax it accepts, an optional sign followed by decimal digits, is modelled in full.
- `Trend.ReverseInPlace`: one generic method stands for `reverseStringSlice`, `reverseFloat64Slice` and `reverseIntSlice`, whose bodies are identical.
- `Trend.ChartData` uses the intended chronological sort, not the label sort of the code as written (see Findings; the as-written order is `Trend.ChartRowsAsWritten`).

## Findings

| source | as written | input that shows it | evidently intended | confidence | as-written member | corrected member |
|---|---|---|---|---|---|---|
| main.go:257-264 | with `-interval N` (N > 0) and no `-web`, main starts `go autoTest(N)`, skips the one-shot branch and returns, so the process exits before the first tick | `-interval 30` | the scheduler-only mode keeps running, so the ticks it announces happen | high, not executed | Cli.SchedulerOnlyExitsAtOnce | Cli.IntendedSchedulerTicks |
| webserver.go:168 | `ORDER BY test_time` resolves to the `strftime('%m-%d %H:%M', ...) as test_time` alias, so the chart is sorted by a label without a year | rows at 2024-12-31 23:59:00 and 2025-01-01 00:00:00 with limit 1: the chart shows the 2024 row | the newest `limit` rows, oldest to newest, as the reversal's comment says | medium, not executed | Trend.YearWrapHidesNewest | Trend.ChartRowsAreNewest |
