/**
 * The chart-data endpoint: read the newest `limit` rows, split them into four
 * parallel series by appending row by row, then reverse each series in place
 * so that the chart reads oldest to newest; the newest row also supplies the
 * ISP, server name and distance shown beside the chart.
 */
module Trend {
  import opened Wrappers
  import opened Timestamp
  import opened Store

  // ---------------------------------------------------------------------------
  // The reverse helpers (one generic method stands for the string, float64
  // and int versions, whose bodies are identical)

  function Reversed<T>(s: seq<T>): (r: seq<T>)
    ensures |r| == |s|
  {
    if s == [] then [] else [s[|s| - 1]] + Reversed(s[..|s| - 1])
  }

  /** Element k of the reversal is element |s| - 1 - k of the original. */
  lemma {:induction false} ReversedAt<T>(s: seq<T>, k: int)
    requires 0 <= k < |s|
    ensures Reversed(s)[k] == s[|s| - 1 - k]
    decreases |s|
  {
    if k > 0 {
      ReversedAt(s[..|s| - 1], k - 1);
    }
  }

  /** Reversing twice gives the original back. */
  lemma ReversedTwice<T>(s: seq<T>)
    ensures Reversed(Reversed(s)) == s
  {
    forall k | 0 <= k < |s| ensures Reversed(Reversed(s))[k] == s[k] {
      ReversedAt(Reversed(s), k);
      ReversedAt(s, |s| - 1 - k);
    }
  }

  /** A slice of length 0 or 1 is its own reversal. */
  lemma ReversedShort<T>(s: seq<T>)
    requires |s| <= 1
    ensures Reversed(s) == s
  {
    if |s| == 1 {
      ReversedAt(s, 0);
    }
  }

  lemma ReversedPermutes<T>(s: seq<T>)
    ensures multiset(Reversed(s)) == multiset(s)
  {
    if s != [] {
      ReversedPermutes(s[..|s| - 1]);
      assert s == s[..|s| - 1] + [s[|s| - 1]];
    }
  }

  /** Two indices start at the ends, swap what they point at and move inwards until they meet. */
  method ReverseInPlace<T>(s: array<T>)
    modifies s
    ensures s[..] == Reversed(old(s[..]))
  {
    var i, j := 0, s.Length - 1;
    while i < j
      invariant 0 <= i <= j + 1 <= s.Length
      invariant i + j == s.Length - 1
      invariant forall k :: 0 <= k < i ==> s[k] == old(s[s.Length - 1 - k]) && s[s.Length - 1 - k] == old(s[k])
      invariant forall k :: i <= k <= j ==> s[k] == old(s[k])
    {
      s[i], s[j] := s[j], s[i];
      i, j := i + 1, j - 1;
    }
    forall k | 0 <= k < s.Length ensures s[k] == Reversed(old(s[..]))[k] {
      ReversedAt(old(s[..]), k);
    }
  }

  /** A Go slice handed to a reverse helper: its backing array, reversed in place. */
  method ReverseSlice<T>(data: seq<T>) returns (out: seq<T>)
    ensures out == Reversed(data)
  {
    var backing := new T[|data|](k requires 0 <= k < |data| => data[k]);
    assert backing[..] == data;
    ReverseInPlace(backing);
    out := backing[..];
  }

  // ---------------------------------------------------------------------------
  // The chart data

  /** The JSON object {labels, downloadData, uploadData, latencyData, isp, serverName, distance}. */
  datatype TrendSeries = TrendSeries(
    labels: seq<string>,
    downloadData: seq<real>,
    uploadData: seq<real>,
    latencyData: seq<int>,
    isp: string,
    serverName: string,
    distance: real)

  /** Where the handler gives up: database open, the query, or the scan of one row. */
  datatype ChartError = OpenFailed | QueryFailed | ScanFailed(row: nat)

  /**
   * Failures of the database calls, which are I/O: openDatabase, db.Query, the
   * row whose rows.Scan fails (if any), the row at which rows.Next() stops on
   * an error (if any), and the column of the latest-record QueryRow whose
   * Scan fails with an error other than sql.ErrNoRows (if any): 0 for isp,
   * which also stands for the query itself failing, 1 for server_name and 2
   * for server_distance (a NULL distance, for one).
   */
  datatype Faults = Faults(
    openFails: bool,
    queryFails: bool,
    scanFailsAt: Option<nat>,
    stepFailsAt: Option<nat>,
    latestFailsAt: Option<nat>)

  /**
   * Whether column `col` of a Scan failing at `failsAt` was assigned: Row.Scan
   * converts the columns in order and returns at the first that fails, so
   * the columns before it keep their values.
   */
  predicate Assigned(failsAt: Option<nat>, col: nat) {
    failsAt.None? || col < failsAt.value
  }

  /**
   * How many of n rows the cursor hands out when stepping fails before row
   * `stepFailsAt`: rows.Next() then reports false, as at the end of the rows,
   * and the handler never asks rows.Err().
   */
  function ReadCount(n: nat, stepFailsAt: Option<nat>): (m: nat)
    ensures m <= n
    ensures m == n <==> stepFailsAt.None? || n <= stepFailsAt.value
  {
    if stepFailsAt.Some? && stepFailsAt.value < n then stepFailsAt.value else n
  }

  /** The rows the chart plots, oldest first. */
  function ChartRows(rows: seq<Row>, limit: int): seq<Row> {
    Reversed(Query(rows, limit))
  }

  /** One value per row, in row order: a series of the response. */
  function Column<U>(q: seq<Row>, f: Row -> U): (c: seq<U>)
    ensures |c| == |q| && forall i :: 0 <= i < |q| ==> c[i] == f(q[i])
  {
    seq(|q|, i requires 0 <= i < |q| => f(q[i]))
  }

  function LabelOf(r: Row): string { MinuteLabel(r.rec.testTime) }
  function DownloadOf(r: Row): real { r.rec.download }
  function UploadOf(r: Row): real { r.rec.upload }
  function LatencyOf(r: Row): int { r.rec.latency }

  /** Reversing a series is reversing the rows it was read from. */
  lemma ColumnReversed<U>(q: seq<Row>, f: Row -> U)
    ensures Reversed(Column(q, f)) == Column(Reversed(q), f)
  {
    forall k | 0 <= k < |q| ensures Reversed(Column(q, f))[k] == Column(Reversed(q), f)[k] {
      ReversedAt(Column(q, f), k);
      ReversedAt(q, k);
    }
  }

  /** The last m elements of s (all of s when it is shorter). */
  function Newest<U>(s: seq<U>, m: nat): (r: seq<U>)
    ensures |r| == if m < |s| then m else |s|
    ensures forall k :: 0 <= k < |r| ==> r[k] == s[|s| - |r| + k]
  {
    if m < |s| then s[|s| - m..] else s
  }

  /** A response whose series keep only their newest m points. */
  function NewestPoints(t: TrendSeries, m: nat): TrendSeries {
    t.(labels := Newest(t.labels, m), downloadData := Newest(t.downloadData, m),
       uploadData := Newest(t.uploadData, m), latencyData := Newest(t.latencyData, m))
  }

  /** The first m rows read, reversed, are the last m rows of the reversal. */
  lemma {:induction false} ReversedPrefix<T>(s: seq<T>, m: nat)
    requires m <= |s|
    ensures Reversed(s[..m]) == Newest(Reversed(s), m)
  {
    if m == |s| {
      assert s[..m] == s;
    } else {
      var whole := Reversed(s);
      var front := Reversed(s[..m]);
      forall k | 0 <= k < m ensures front[k] == whole[|s| - m + k] {
        ReversedAt(s[..m], k);
        ReversedAt(s, |s| - m + k);
      }
      assert front == whole[|s| - m..];
    }
  }

  lemma ColumnNewest<U>(q: seq<Row>, f: Row -> U, m: nat)
    requires m <= |q|
    ensures Column(Newest(q, m), f) == Newest(Column(q, f), m)
  {
  }

  /**
   * The response body when the cursor reads every row; `latestFailsAt` is the
   * column at which the latest-record Scan fails, if any.
   */
  function Series(rows: seq<Row>, limit: int, latestFailsAt: Option<nat>): TrendSeries {
    var q := ChartRows(rows, limit);
    var latest := Latest(rows);
    TrendSeries(
      Column(q, LabelOf), Column(q, DownloadOf), Column(q, UploadOf), Column(q, LatencyOf),
      if latest.Some? && Assigned(latestFailsAt, 0) then latest.value.rec.isp else "",
      if latest.Some? && Assigned(latestFailsAt, 1) then latest.value.rec.serverName else "",
      if latest.Some? && Assigned(latestFailsAt, 2) then latest.value.rec.serverDistance else 0.0)
  }

  /**
   * The rows.Next() loop: scan each row and append its four values. `failAt`
   * is the row whose Scan fails, if any; `stepAt` the row before which
   * rows.Next() fails, which ends the loop as if the rows had run out.
   */
  method ScanRows(read: seq<Row>, failAt: Option<nat>, stepAt: Option<nat>)
    returns (r: Result<(seq<string>, seq<real>, seq<real>, seq<int>), ChartError>)
    ensures var m := ReadCount(|read|, stepAt);
      r.Failure? <==> failAt.Some? && failAt.value < m
    ensures r.Failure? ==> r.error == ScanFailed(failAt.value)
    ensures var got := read[..ReadCount(|read|, stepAt)];
      r.Success? ==> r.value == (Column(got, LabelOf), Column(got, DownloadOf), Column(got, UploadOf), Column(got, LatencyOf))
  {
    var labels: seq<string> := [];
    var downloadData: seq<real> := [];
    var uploadData: seq<real> := [];
    var latencyData: seq<int> := [];
    var n := 0;
    while n < |read| && stepAt != Some(n)
      invariant 0 <= n <= |read|
      invariant stepAt.Some? ==> n <= stepAt.value
      invariant |labels| == n && |downloadData| == n && |uploadData| == n && |latencyData| == n
      invariant forall k :: 0 <= k < n ==> labels[k] == LabelOf(read[k])
      invariant forall k :: 0 <= k < n ==> downloadData[k] == DownloadOf(read[k])
      invariant forall k :: 0 <= k < n ==> uploadData[k] == UploadOf(read[k])
      invariant forall k :: 0 <= k < n ==> latencyData[k] == LatencyOf(read[k])
      invariant failAt.Some? ==> n <= failAt.value
    {
      if failAt == Some(n) {
        return Failure(ScanFailed(n));
      }
      labels := labels + [LabelOf(read[n])];
      downloadData := downloadData + [DownloadOf(read[n])];
      uploadData := uploadData + [UploadOf(read[n])];
      latencyData := latencyData + [LatencyOf(read[n])];
      n := n + 1;
    }
    assert n == ReadCount(|read|, stepAt);
    ghost var got := read[..n];
    assert labels == Column(got, LabelOf) && downloadData == Column(got, DownloadOf);
    assert uploadData == Column(got, UploadOf) && latencyData == Column(got, LatencyOf);
    r := Success((labels, downloadData, uploadData, latencyData));
  }

  /**
   * chartDataHandler(limit) serving one request against the table in `store`.
   * A query against a missing table fails like any other query error. A
   * cursor that stops early still answers with success: the rows read so far.
   */
  method ChartData(store: ResultStore, limit: int, faults: Faults) returns (r: Result<TrendSeries, ChartError>)
    ensures faults.openFails ==> r == Failure(OpenFailed)
    ensures !faults.openFails && (faults.queryFails || !store.tableExists) ==> r == Failure(QueryFailed)
    ensures !faults.openFails && !faults.queryFails && store.tableExists ==>
              var m := ReadCount(|Query(store.rows, limit)|, faults.stepFailsAt);
              (r.Failure? <==> faults.scanFailsAt.Some? && faults.scanFailsAt.value < m)
    ensures !faults.openFails && !faults.queryFails && store.tableExists && r.Failure? ==>
              r.error == ScanFailed(faults.scanFailsAt.value)
    ensures r.Success? ==>
              && store.tableExists
              && r.value == NewestPoints(Series(store.rows, limit, faults.latestFailsAt),
                                      ReadCount(|Query(store.rows, limit)|, faults.stepFailsAt))
  {
    if faults.openFails {
      return Failure(OpenFailed);
    }
    if faults.queryFails || !store.tableExists {
      return Failure(QueryFailed);
    }
    // The cursor of "... ORDER BY test_time DESC LIMIT ?"
    var read := Query(store.rows, limit);
    var scanned := ScanRows(read, faults.scanFailsAt, faults.stepFailsAt);
    ghost var m := ReadCount(|read|, faults.stepFailsAt);
    if scanned.Failure? {
      return Failure(scanned.error);
    }
    var (labels, downloadData, uploadData, latencyData) := scanned.value;

    // reverseStringSlice(labels), reverseFloat64Slice(downloadData), ...
    var labelsOut := ReverseSlice(labels);
    var downloadOut := ReverseSlice(downloadData);
    var uploadOut := ReverseSlice(uploadData);
    var latencyOut := ReverseSlice(latencyData);
    ghost var got := read[..m];
    ColumnReversed(got, LabelOf);
    ColumnReversed(got, DownloadOf);
    ColumnReversed(got, UploadOf);
    ColumnReversed(got, LatencyOf);

    // Scan of the latest record: each column in turn, stopping at the first
    // that fails; sql.ErrNoRows assigns nothing.
    var isp, serverName, distance := "", "", 0.0;
    var latest := Latest(store.rows);
    if latest.Some? && Assigned(faults.latestFailsAt, 0) {
      isp := latest.value.rec.isp;
      if Assigned(faults.latestFailsAt, 1) {
        serverName := latest.value.rec.serverName;
        if Assigned(faults.latestFailsAt, 2) {
          distance := latest.value.rec.serverDistance;
        }
      }
    }
    r := Success(TrendSeries(labelsOut, downloadOut, uploadOut, latencyOut, isp, serverName, distance));

    ghost var q := ChartRows(store.rows, limit);
    assert q == Reversed(read);
    ReversedPrefix(read, m);
    ColumnNewest(q, LabelOf, m);
    ColumnNewest(q, DownloadOf, m);
    ColumnNewest(q, UploadOf, m);
    ColumnNewest(q, LatencyOf, m);
    ghost var want := NewestPoints(Series(store.rows, limit, faults.latestFailsAt), m);
    assert want.labels == Column(Newest(q, m), LabelOf) == labelsOut;
    assert want.downloadData == Column(Newest(q, m), DownloadOf) == downloadOut;
    assert want.uploadData == Column(Newest(q, m), UploadOf) == uploadOut;
    assert want.latencyData == Column(Newest(q, m), LatencyOf) == latencyOut;
    assert want.isp == isp && want.serverName == serverName && want.distance == distance;
  }

  // ---------------------------------------------------------------------------
  // The chart query as written: ORDER BY names the strftime alias

  /**
   * In "SELECT strftime('%m-%d %H:%M', test_time) as test_time ... ORDER BY
   * test_time DESC", SQLite resolves the ORDER BY identifier to the output
   * alias, so the rows are sorted by their minute label, which has no year.
   */
  function ChartQueryAsWritten(rows: seq<Row>, limit: int): seq<Row> {
    Take(SortDesc(rows, LabelOf), limit)
  }

  function ChartRowsAsWritten(rows: seq<Row>, limit: int): seq<Row> {
    Reversed(ChartQueryAsWritten(rows, limit))
  }

  /** As written the plotted rows ascend by label: the sort the SQL text asks for. */
  lemma ChartRowsAsWrittenByLabel(rows: seq<Row>, limit: int)
    ensures var q := ChartRowsAsWritten(rows, limit);
      forall i, j :: 0 <= i < j < |q| ==> !LexLess(LabelOf(q[j]), LabelOf(q[i]))
  {
    var read := ChartQueryAsWritten(rows, limit);
    var q := ChartRowsAsWritten(rows, limit);
    SortDescCorrect(rows, LabelOf);
    forall i, j | 0 <= i < j < |q| ensures !LexLess(LabelOf(q[j]), LabelOf(q[i])) {
      ReversedAt(read, i);
      ReversedAt(read, j);
    }
  }

  /**
   * Across New Year the label order is not the time order: with a row of
   * 2024-12-31 23:59 and one of 2025-01-01 00:00 and a limit of 1, the chart
   * as written shows the older row, the intended query the newer one.
   */
  lemma YearWrapHidesNewest()
    ensures var older := Row(1, Record("isp", "s", "c", 1.0, 10, 1.0, 1.0, DateTime(2024, 12, 31, 23, 59, 0)));
      var newer := Row(2, Record("isp", "s", "c", 1.0, 10, 1.0, 1.0, DateTime(2025, 1, 1, 0, 0, 0)));
      && ChartRowsAsWritten([older, newer], 1) == [older]
      && ChartRows([older, newer], 1) == [newer]
      && Latest([older, newer]) == Some(newer)
  {
    var older := Row(1, Record("isp", "s", "c", 1.0, 10, 1.0, 1.0, DateTime(2024, 12, 31, 23, 59, 0)));
    var newer := Row(2, Record("isp", "s", "c", 1.0, 10, 1.0, 1.0, DateTime(2025, 1, 1, 0, 0, 0)));
    assert LabelOf(newer)[0] == '0' && LabelOf(older)[0] == '1';
    assert LexLess(LabelOf(newer), LabelOf(older));
    assert SortDesc([older], LabelOf) == [older];
    assert SortDesc([older, newer], LabelOf) == [older, newer] by {
      assert [older, newer][..1] == [older];
      assert [older][1..] == [];
      assert InsertDesc(newer, [older], LabelOf) == [older] + InsertDesc(newer, [], LabelOf);
    }
    TextOrder(newer, older);
    assert SortDesc([older], TestTime) == [older];
    assert SortDesc([older, newer], TestTime) == [newer, older] by {
      assert [older, newer][..1] == [older];
    }
    ReversedShort([older]);
    ReversedShort([newer]);
  }

  // ---------------------------------------------------------------------------
  // What the response promises

  /** Four series of one length: the number of rows read, which LIMIT bounds. */
  lemma SeriesShape(rows: seq<Row>, limit: int, latestFailsAt: Option<nat>)
    ensures var t := Series(rows, limit, latestFailsAt);
      && |t.labels| == |t.downloadData| == |t.uploadData| == |t.latencyData| == |Query(rows, limit)|
      && (0 <= limit ==> |t.labels| == (if limit < |rows| then limit else |rows|))
      && (limit < 0 ==> |t.labels| == |rows|)
  {
    QueryCorrect(rows, limit);
  }

  /**
   * Cutting a response whose series have one length (as SeriesShape states of
   * every full response) keeps them aligned: point k of the cut response is
   * point |full| - m + k of the full one, in every series.
   */
  lemma NewestPointsShape(full: TrendSeries, m: nat)
    requires |full.labels| == |full.downloadData| == |full.uploadData| == |full.latencyData|
    requires m <= |full.labels|
    ensures var t := NewestPoints(full, m);
      && |t.labels| == |t.downloadData| == |t.uploadData| == |t.latencyData| == m
      && (forall k :: 0 <= k < m ==> t.labels[k] == full.labels[|full.labels| - m + k])
      && (forall k :: 0 <= k < m ==> t.downloadData[k] == full.downloadData[|full.labels| - m + k])
      && (forall k :: 0 <= k < m ==> t.uploadData[k] == full.uploadData[|full.labels| - m + k])
      && (forall k :: 0 <= k < m ==> t.latencyData[k] == full.latencyData[|full.labels| - m + k])
      && t.isp == full.isp && t.serverName == full.serverName && t.distance == full.distance
  {
  }

  /**
   * What a successful response holds: four series of one length, at most the
   * number of rows the query returns (exactly that many unless rows.Next()
   * failed before the last of them, as ReadCount states), and the display
   * fields of the full response.
   */
  lemma {:induction false} ResponseShape(rows: seq<Row>, limit: int, latestFailsAt: Option<nat>, stepFailsAt: Option<nat>)
    ensures var full := Series(rows, limit, latestFailsAt);
      var n := |Query(rows, limit)|;
      var t := NewestPoints(full, ReadCount(n, stepFailsAt));
      && |t.labels| == |t.downloadData| == |t.uploadData| == |t.latencyData| == ReadCount(n, stepFailsAt) <= n
      && t.isp == full.isp && t.serverName == full.serverName && t.distance == full.distance
  {
    var full := Series(rows, limit, latestFailsAt);
    var n := |Query(rows, limit)|;
    assert |ChartRows(rows, limit)| == n;
    NewestPointsShape(full, ReadCount(n, stepFailsAt));
  }

  /** Point i of every series comes from the same stored row. */
  lemma SeriesPointsAligned(rows: seq<Row>, limit: int, latestFailsAt: Option<nat>, i: int)
    requires 0 <= i < |Series(rows, limit, latestFailsAt).labels|
    ensures var t := Series(rows, limit, latestFailsAt);
      exists row :: row in rows
        && t.labels[i] == MinuteLabel(row.rec.testTime)
        && t.downloadData[i] == row.rec.download
        && t.uploadData[i] == row.rec.upload
        && t.latencyData[i] == row.rec.latency
  {
    var read := Query(rows, limit);
    QueryCorrect(rows, limit);
    ReversedAt(read, i);
    assert ChartRows(rows, limit)[i] == read[|read| - 1 - i];
    assert read[|read| - 1 - i] in rows;
  }

  /** The plotted rows run from oldest to newest. */
  lemma ChartRowsChronological(rows: seq<Row>, limit: int)
    ensures var q := ChartRows(rows, limit);
      forall i, j :: 0 <= i < j < |q| ==> !Before(q[j].rec.testTime, q[i].rec.testTime)
  {
    var read := Query(rows, limit);
    var q := ChartRows(rows, limit);
    QueryCorrect(rows, limit);
    forall i, j | 0 <= i < j < |q| ensures !Before(q[j].rec.testTime, q[i].rec.testTime) {
      ReversedAt(read, i);
      ReversedAt(read, j);
      assert !LexLess(TestTime(read[|read| - 1 - j]), TestTime(read[|read| - 1 - i]));
      TextOrder(q[j], q[i]);
    }
  }

  /**
   * The plotted rows are the newest ones: stored rows, and no row left off the
   * chart is later than a plotted one.
   */
  lemma ChartRowsAreNewest(rows: seq<Row>, limit: int)
    ensures multiset(ChartRows(rows, limit)) <= multiset(rows)
    ensures forall k, x :: 0 <= k < |ChartRows(rows, limit)| && x in multiset(rows) - multiset(ChartRows(rows, limit)) ==>
              !Before(ChartRows(rows, limit)[k].rec.testTime, x.rec.testTime)
  {
    var read := Query(rows, limit);
    var q := ChartRows(rows, limit);
    QueryKeepsNewest(rows, limit);
    ReversedPermutes(read);
    forall k, x | 0 <= k < |q| && x in multiset(rows) - multiset(q)
      ensures !Before(q[k].rec.testTime, x.rec.testTime)
    {
      ReversedAt(read, k);
      assert q[k] == read[|read| - 1 - k];
    }
  }

  /**
   * Nothing is merged: when the limit does not cut, every stored row is a
   * point, including rows that share a minute label.
   */
  lemma EveryRowIsAPoint(rows: seq<Row>, limit: int)
    requires limit < 0 || |rows| <= limit
    ensures multiset(ChartRows(rows, limit)) == multiset(rows)
  {
    SortDescCorrect(rows, TestTime);
    ReversedPermutes(Query(rows, limit));
  }

  /** The ISP, server name and distance belong to the newest plotted point. */
  lemma {:induction false} DisplayFieldsFromNewestPoint(rows: seq<Row>, limit: int)
    requires rows != [] && limit != 0
    ensures var t := Series(rows, limit, None);
      var q := ChartRows(rows, limit);
      && |q| > 0
      && t.isp == q[|q| - 1].rec.isp
      && t.serverName == q[|q| - 1].rec.serverName
      && t.distance == q[|q| - 1].rec.serverDistance
  {
    SortDescCorrect(rows, TestTime);
    var read := Query(rows, limit);
    var q := ChartRows(rows, limit);
    ReversedAt(read, |read| - 1);
    assert Latest(rows) == Some(q[|q| - 1]);
  }

  /**
   * The same fact in a form that does not rest on how ties are broken: the
   * display fields come from a stored row of the latest commit second, and
   * the newest plotted point is of that second too.
   */
  lemma DisplayFieldsFromNewestSecond(rows: seq<Row>, limit: int)
    requires rows != [] && limit != 0
    ensures var t := Series(rows, limit, None);
      var q := ChartRows(rows, limit);
      && |q| > 0
      && (forall x :: x in rows ==> !Before(q[|q| - 1].rec.testTime, x.rec.testTime))
      && exists d :: d in rows
           && d.rec.testTime == q[|q| - 1].rec.testTime
           && (forall x :: x in rows ==> !Before(d.rec.testTime, x.rec.testTime))
           && t.isp == d.rec.isp && t.serverName == d.rec.serverName && t.distance == d.rec.serverDistance
  {
    var q := ChartRows(rows, limit);
    var read := Query(rows, limit);
    SortDescCorrect(rows, TestTime);
    LatestIsNewest(rows);
    ReversedAt(read, |read| - 1);
    var d := Latest(rows).value;
    assert q[|q| - 1] == d;
  }

  /** An empty table is "no data yet": empty series and zero display fields. */
  lemma EmptyStoreSeries(limit: int, latestFailsAt: Option<nat>)
    ensures Series([], limit, latestFailsAt) == TrendSeries([], [], [], [], "", "", 0.0)
  {
  }

  /**
   * A failing latest-record query only touches the display fields: the
   * columns before the failing one keep the newest row's values, the failing
   * one and every later one stay at their zero values.
   */
  lemma LatestFailureKeepsSeries(rows: seq<Row>, limit: int, failsAt: nat)
    ensures var ok := Series(rows, limit, None);
      var bad := Series(rows, limit, Some(failsAt));
      && bad.labels == ok.labels && bad.downloadData == ok.downloadData
      && bad.uploadData == ok.uploadData && bad.latencyData == ok.latencyData
      && (if failsAt > 0 then bad.isp == ok.isp else bad.isp == "")
      && (if failsAt > 1 then bad.serverName == ok.serverName else bad.serverName == "")
      && (if failsAt > 2 then bad.distance == ok.distance else bad.distance == 0.0)
  {
  }

  /**
   * A NULL server_distance on the newest row fails the Scan at its last
   * column: the response keeps that row's ISP and server name, with a zero
   * distance.
   */
  lemma NullDistanceKeepsNames(rows: seq<Row>, limit: int)
    requires rows != []
    ensures var t := Series(rows, limit, Some(2));
      && Latest(rows).Some?
      && t.isp == Latest(rows).value.rec.isp
      && t.serverName == Latest(rows).value.rec.serverName
      && t.distance == 0.0
  {
    LatestIsNewest(rows);
  }
}
