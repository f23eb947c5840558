/**
 * One measurement cycle and its three drivers: the on-demand handler
 * (runTestHandler), the scheduler goroutine (autoTest) and the one-shot
 * command-line run. The provider calls, the database calls and the clock are
 * inputs: an Env holds what each call returned.
 */
module Runner {
  import opened Wrappers
  import opened Timestamp
  import opened Decimal
  import opened Store

  /** A speedtest.Server as the core uses it. */
  datatype Server = Server(id: string, name: string, country: string, distance: real)

  /**
   * What PingTest, DownloadTest and UploadTest leave on the chosen server:
   * Latency in milliseconds and the two speeds already in Mbps. The code never
   * looks at the errors of these calls, so a failed probe is just a value here.
   */
  datatype Probe = Probe(latencyMs: int, downloadMbps: real, uploadMbps: real)

  /** The outcomes of the external calls of one cycle, in call order. */
  datatype Env = Env(
    isp: Option<string>,           // speedtest.FetchUserInfo(): user.Isp, or an error
    servers: Option<seq<Server>>,  // speedtest.FetchServers()
    targets: Option<seq<Server>>,  // servers.FindServer([]int{}): the ranked candidates
    probe: Probe,
    dbOpens: bool,                 // openDatabase() (the one-shot run: sql.Open)
    createFails: bool,             // CREATE TABLE IF NOT EXISTS (one-shot run only)
    insertFails: bool,             // the INSERT failing for a reason other than a missing table
    now: Moment)                   // time.Now() at commit

  /** The step at which a cycle stops. FirstTarget is the index panic of targets[0]. */
  datatype Stage =
    | FetchUser | FetchServers | FilterServers | FirstTarget
    | ParseServerId | FindServerId | OpenDb | CreateTable | InsertRow

  /** The JSON body of POST /api/run-test. */
  datatype TestResult = TestResult(downloadSpeed: real, uploadSpeed: real, latency: int, isp: string, serverName: string)

  /** The values bound to the INSERT's placeholders. */
  function Assemble(isp: string, s: Server, p: Probe, now: Moment): Record {
    Record(isp, s.name, s.country, s.distance, p.latencyMs, p.downloadMbps, p.uploadMbps, now)
  }

  // ---------------------------------------------------------------------------
  // The cycle of runTestHandler and autoTest

  /**
   * The outcome of the cycle the handler and the scheduler share: the first
   * failing step, or the record to commit. The probes are not steps.
   */
  function CycleOutcome(env: Env, tableExists: bool): Result<Record, Stage> {
    if env.isp.None? then Failure(FetchUser)
    else if env.servers.None? then Failure(FetchServers)
    else if env.targets.None? then Failure(FilterServers)
    else if env.targets.value == [] then Failure(FirstTarget)
    else if !env.dbOpens then Failure(OpenDb)
    else if !tableExists || env.insertFails then Failure(InsertRow)
    else Success(Assemble(env.isp.value, env.targets.value[0], env.probe, env.now))
  }

  /** The steps of one cycle against the store; the first failure returns before the insert. */
  method MeasureAndStore(store: ResultStore, env: Env) returns (r: Result<Record, Stage>)
    requires store.Valid()
    modifies store
    ensures store.Valid()
    ensures r == CycleOutcome(env, old(store.tableExists))
    ensures store.tableExists == old(store.tableExists)
    ensures r.Success? ==> store.rows == old(store.rows) + [Row(old(store.seqNo) + 1, r.value)]
    ensures r.Success? ==> store.seqNo == old(store.seqNo) + 1
    ensures r.Failure? ==> store.rows == old(store.rows) && store.seqNo == old(store.seqNo)
  {
    if env.isp.None? {
      return Failure(FetchUser);
    }
    var isp := env.isp.value;
    if env.servers.None? {
      return Failure(FetchServers);
    }
    if env.targets.None? {
      return Failure(FilterServers);
    }
    var targets := env.targets.value;
    if |targets| == 0 {
      return Failure(FirstTarget);
    }
    var server := targets[0];
    // PingTest, DownloadTest, UploadTest: their errors are ignored.
    var probe := env.probe;
    if !env.dbOpens {
      return Failure(OpenDb);
    }
    var rec := Assemble(isp, server, probe, env.now);
    var inserted := store.Insert(rec, env.insertFails);
    if inserted.Failure? {
      return Failure(InsertRow);
    }
    r := Success(rec);
  }

  /** runTestHandler for a POST: one cycle, answered with the committed values. */
  method RunTest(store: ResultStore, env: Env) returns (r: Result<TestResult, Stage>)
    requires store.Valid()
    modifies store
    ensures store.Valid() && store.tableExists == old(store.tableExists)
    ensures r.Failure? <==> CycleOutcome(env, old(store.tableExists)).Failure?
    ensures r.Failure? ==> r.error == CycleOutcome(env, old(store.tableExists)).error
    ensures r.Failure? ==> store.rows == old(store.rows) && store.seqNo == old(store.seqNo)
    ensures r.Success? ==>
              && store.rows == old(store.rows) + [Row(old(store.seqNo) + 1, CycleOutcome(env, old(store.tableExists)).value)]
              && store.seqNo == old(store.seqNo) + 1
    ensures r.Success? ==>
              var row := store.rows[|store.rows| - 1];
              r.value == TestResult(row.rec.download, row.rec.upload, row.rec.latency, row.rec.isp, row.rec.serverName)
  {
    var outcome := MeasureAndStore(store, env);
    if outcome.Failure? {
      return Failure(outcome.error);
    }
    var rec := outcome.value;
    r := Success(TestResult(rec.download, rec.upload, rec.latency, rec.isp, rec.serverName));
  }

  /** No probe result can make the cycle fail or succeed: only the checked steps decide. */
  lemma ProbesNeverAbort(env: Env, p: Probe, tableExists: bool)
    ensures CycleOutcome(env.(probe := p), tableExists).Success? == CycleOutcome(env, tableExists).Success?
  {
  }

  /** When every checked step succeeds the record is committed, whatever the probes left (0 ms included). */
  lemma CommitsWhateverTheProbes(env: Env, tableExists: bool)
    requires env.isp.Some? && env.servers.Some? && env.targets.Some? && env.targets.value != []
    requires env.dbOpens && tableExists && !env.insertFails
    ensures CycleOutcome(env, tableExists).Success?
    ensures var rec := CycleOutcome(env, tableExists).value;
      && rec.latency == env.probe.latencyMs && rec.download == env.probe.downloadMbps
      && rec.upload == env.probe.uploadMbps && rec.isp == env.isp.value
      && rec.serverName == env.targets.value[0].name && rec.testTime == env.now
  {
  }

  // ---------------------------------------------------------------------------
  // The scheduler: on every tick one cycle runs, and a failed cycle only
  // waits for the next tick

  /**
   * The rows the scheduler appends, one tick per element of `ticks`: a failed
   * step skips the tick, a success appends one row under the next id. An
   * empty target list panics, which ends the process and so the schedule.
   */
  function Schedule(ticks: seq<Env>, tableExists: bool, seqNo: nat): seq<Row>
    decreases |ticks|
  {
    if ticks == [] then []
    else
      match CycleOutcome(ticks[0], tableExists)
      case Failure(FirstTarget) => []
      case Failure(_) => Schedule(ticks[1..], tableExists, seqNo)
      case Success(rec) => [Row(seqNo + 1, rec)] + Schedule(ticks[1..], tableExists, seqNo + 1)
  }

  /** autoTest over a finite run of ticks. `crashed` says a targets[0] panic ended it. */
  method RunScheduler(store: ResultStore, ticks: seq<Env>) returns (crashed: bool)
    requires store.Valid()
    modifies store
    ensures store.Valid() && store.tableExists == old(store.tableExists)
    ensures store.rows == old(store.rows) + Schedule(ticks, old(store.tableExists), old(store.seqNo))
    ensures store.seqNo == old(store.seqNo) + |Schedule(ticks, old(store.tableExists), old(store.seqNo))|
    ensures crashed <==> exists i :: 0 <= i < |ticks| && CycleOutcome(ticks[i], old(store.tableExists)) == Failure(FirstTarget)
  {
    ghost var table := store.tableExists;
    ghost var all := Schedule(ticks, table, store.seqNo);
    ghost var before := store.rows;
    ghost var startNo := store.seqNo;
    crashed := false;
    var i := 0;
    while i < |ticks| && !crashed
      invariant 0 <= i <= |ticks|
      invariant store.Valid() && store.tableExists == table
      invariant |before| <= |store.rows| && store.seqNo == startNo + (|store.rows| - |before|)
      invariant crashed ==> 0 < i && CycleOutcome(ticks[i - 1], table) == Failure(FirstTarget)
      invariant !crashed ==> forall k :: 0 <= k < i ==> CycleOutcome(ticks[k], table) != Failure(FirstTarget)
      invariant !crashed ==> before + all == store.rows + Schedule(ticks[i..], table, store.seqNo)
      invariant crashed ==> before + all == store.rows
    {
      assert ticks[i..][1..] == ticks[i + 1..];
      var outcome := MeasureAndStore(store, ticks[i]);
      if outcome == Failure(FirstTarget) {
        crashed := true;
      }
      i := i + 1;
    }
    if !crashed {
      assert ticks[i..] == [];
    }
  }

  /** Every tick, even a failed one, ends with at most one row: the schedule never appends more rows than ticks. */
  lemma {:induction false} ScheduleBound(ticks: seq<Env>, tableExists: bool, seqNo: nat)
    ensures |Schedule(ticks, tableExists, seqNo)| <= |ticks|
    decreases |ticks|
  {
    if ticks != [] {
      ScheduleBound(ticks[1..], tableExists, seqNo);
      ScheduleBound(ticks[1..], tableExists, seqNo + 1);
    }
  }

  /** The appended rows take consecutive ids after the counter. */
  lemma {:induction false} ScheduleIds(ticks: seq<Env>, tableExists: bool, seqNo: nat)
    ensures forall k :: 0 <= k < |Schedule(ticks, tableExists, seqNo)| ==>
              Schedule(ticks, tableExists, seqNo)[k].id == seqNo + 1 + k
    decreases |ticks|
  {
    if ticks != [] {
      match CycleOutcome(ticks[0], tableExists)
      case Failure(FirstTarget) =>
      case Failure(_) =>
        ScheduleIds(ticks[1..], tableExists, seqNo);
        assert Schedule(ticks, tableExists, seqNo) == Schedule(ticks[1..], tableExists, seqNo);
      case Success(rec) =>
        ScheduleIds(ticks[1..], tableExists, seqNo + 1);
        var rest := Schedule(ticks[1..], tableExists, seqNo + 1);
        var rs := Schedule(ticks, tableExists, seqNo);
        assert rs == [Row(seqNo + 1, rec)] + rest;
        forall k | 0 <= k < |rs|
          ensures rs[k].id == seqNo + 1 + k
        {
          if k == 0 {
            assert rs[0] == Row(seqNo + 1, rec);
          } else {
            assert rs[k] == rest[k - 1];
            assert rest[k - 1].id == seqNo + 1 + 1 + (k - 1);
          }
        }
    }
  }

  /** The records a run of ticks commits when no tick panics: the successes, in tick order. */
  function Successes(ticks: seq<Env>, tableExists: bool): seq<Record>
    decreases |ticks|
  {
    if ticks == [] then []
    else
      var rest := Successes(ticks[1..], tableExists);
      match CycleOutcome(ticks[0], tableExists)
      case Success(rec) => [rec] + rest
      case Failure(_) => rest
  }

  function RecordsOf(rows: seq<Row>): seq<Record> {
    seq(|rows|, i requires 0 <= i < |rows| => rows[i].rec)
  }

  /** Failed ticks are skipped and later ticks still run: exactly the successful ticks commit. */
  lemma {:induction false} ScheduleCommitsSuccesses(ticks: seq<Env>, tableExists: bool, seqNo: nat)
    requires forall k :: 0 <= k < |ticks| ==> CycleOutcome(ticks[k], tableExists) != Failure(FirstTarget)
    ensures RecordsOf(Schedule(ticks, tableExists, seqNo)) == Successes(ticks, tableExists)
    decreases |ticks|
  {
    if ticks != [] {
      assert forall k :: 0 <= k < |ticks[1..]| ==> ticks[1..][k] == ticks[k + 1];
      ScheduleCommitsSuccesses(ticks[1..], tableExists, seqNo);
      ScheduleCommitsSuccesses(ticks[1..], tableExists, seqNo + 1);
    }
  }

  /** A panic on tick c loses every later tick. */
  lemma {:induction false} ScheduleStopsAtPanic(ticks: seq<Env>, tableExists: bool, seqNo: nat, c: nat)
    requires c < |ticks| && CycleOutcome(ticks[c], tableExists) == Failure(FirstTarget)
    ensures Schedule(ticks, tableExists, seqNo) == Schedule(ticks[..c], tableExists, seqNo)
    decreases c
  {
    if c > 0 {
      assert ticks[..c][1..] == ticks[1..][..c - 1];
      ScheduleStopsAtPanic(ticks[1..], tableExists, seqNo, c - 1);
      ScheduleStopsAtPanic(ticks[1..], tableExists, seqNo + 1, c - 1);
    }
  }

  /** autoTest never creates the table: against a fresh database every tick fails at the insert. */
  lemma {:induction false} NoTableNoRows(ticks: seq<Env>, seqNo: nat)
    ensures Schedule(ticks, false, seqNo) == []
    decreases |ticks|
  {
    if ticks != [] {
      NoTableNoRows(ticks[1..], seqNo);
    }
  }

  // ---------------------------------------------------------------------------
  // The one-shot run of main

  /** The index of the first server whose ID is `key`, or |servers| when there is none. */
  function FirstWithId(servers: seq<Server>, key: string): (k: nat)
    ensures k <= |servers|
    ensures k < |servers| ==> servers[k].id == key
    ensures forall j :: 0 <= j < k ==> servers[j].id != key
    decreases |servers|
  {
    if servers == [] then 0
    else if servers[0].id == key then 0
    else 1 + FirstWithId(servers[1..], key)
  }

  /**
   * A linear search in list order that stops at the first server whose ID is
   * the decimal text of the parsed ID.
   */
  method FindServerById(servers: seq<Server>, serverId: int) returns (r: Option<Server>)
    ensures r.None? <==> forall j :: 0 <= j < |servers| ==> servers[j].id != Itoa(serverId)
    ensures r.Some? ==> var k := FirstWithId(servers, Itoa(serverId)); k < |servers| && r.value == servers[k]
  {
    var key := Itoa(serverId);
    var found := false;
    var server := Server("", "", "", 0.0);
    var i := 0;
    while i < |servers|
      invariant 0 <= i <= |servers|
      invariant !found
      invariant forall j :: 0 <= j < i ==> servers[j].id != key
    {
      if servers[i].id == key {
        server := servers[i];
        found := true;
        break;
      }
      i := i + 1;
    }
    if found {
      assert i == FirstWithId(servers, key);
      r := Some(server);
    } else {
      r := None;
    }
  }

  /** How the one-shot run chooses its server: by -serverid, else the first ranked target. */
  function Chosen(servers: seq<Server>, targets: Option<seq<Server>>, serverIdFlag: string): Result<Server, Stage> {
    if serverIdFlag != "" then
      match Atoi(serverIdFlag)
      case None => Failure(ParseServerId)
      case Some(id) =>
        var k := FirstWithId(servers, Itoa(id));
        if k == |servers| then Failure(FindServerId) else Success(servers[k])
    else if targets.None? then Failure(FilterServers)
    else if targets.value == [] then Failure(FirstTarget)
    else Success(targets.value[0])
  }

  method SelectServer(servers: seq<Server>, targets: Option<seq<Server>>, serverIdFlag: string) returns (r: Result<Server, Stage>)
    ensures r == Chosen(servers, targets, serverIdFlag)
  {
    if serverIdFlag != "" {
      var id := Atoi(serverIdFlag);
      if id.None? {
        return Failure(ParseServerId);
      }
      var found := FindServerById(servers, id.value);
      if found.None? {
        return Failure(FindServerId);
      }
      return Success(found.value);
    }
    if targets.None? {
      return Failure(FilterServers);
    }
    if |targets.value| == 0 {
      return Failure(FirstTarget);
    }
    r := Success(targets.value[0]);
  }

  /** A -serverid must be an integer; otherwise the run stops before any lookup. */
  lemma ChosenById(servers: seq<Server>, targets: Option<seq<Server>>, flag: string)
    requires flag != ""
    ensures Atoi(flag).None? ==> Chosen(servers, targets, flag) == Failure(ParseServerId)
    ensures Atoi(flag).Some? ==>
              var key := Itoa(Atoi(flag).value);
              && (Chosen(servers, targets, flag).Success? <==> exists j :: 0 <= j < |servers| && servers[j].id == key)
              && (Chosen(servers, targets, flag).Failure? ==> Chosen(servers, targets, flag).error == FindServerId)
              && (Chosen(servers, targets, flag).Success? ==>
                    exists k :: 0 <= k < |servers| && Chosen(servers, targets, flag).value == servers[k]
                      && servers[k].id == key && forall j :: 0 <= j < k ==> servers[j].id != key)
  {
  }

  /**
   * A server whose ID is padded ("007") is never chosen by -serverid: the
   * flag's value is compared in its canonical text, so no flag selects it.
   */
  lemma PaddedIdNeverChosen(servers: seq<Server>, targets: Option<seq<Server>>, flag: string)
    requires flag != ""
    ensures Chosen(servers, targets, flag).Success? ==> !Padded(Chosen(servers, targets, flag).value.id)
    ensures (forall j :: 0 <= j < |servers| ==> Padded(servers[j].id)) ==> Chosen(servers, targets, flag).Failure?
  {
    if Atoi(flag).Some? {
      var key := Itoa(Atoi(flag).value);
      ItoaCanonical(Atoi(flag).value);
      assert Chosen(servers, targets, flag).Success? ==> Chosen(servers, targets, flag).value.id == key;
    }
  }

  /** The outcome of the one-shot run: it creates the table itself before the insert. */
  function OneShotOutcome(env: Env, serverIdFlag: string): Result<Record, Stage> {
    if env.isp.None? then Failure(FetchUser)
    else if env.servers.None? then Failure(FetchServers)
    else
      match Chosen(env.servers.value, env.targets, serverIdFlag)
      case Failure(stage) => Failure(stage)
      case Success(server) =>
        if !env.dbOpens then Failure(OpenDb)
        else if env.createFails then Failure(CreateTable)
        else if env.insertFails then Failure(InsertRow)
        else Success(Assemble(env.isp.value, server, env.probe, env.now))
  }

  /** The one-shot measurement; every log.Fatalf becomes the failing Stage. */
  method RunOnce(store: ResultStore, env: Env, serverIdFlag: string) returns (r: Result<Record, Stage>)
    requires store.Valid()
    modifies store
    ensures store.Valid()
    ensures r == OneShotOutcome(env, serverIdFlag)
    ensures r.Success? ==> store.tableExists && store.rows == old(store.rows) + [Row(old(store.seqNo) + 1, r.value)]
    ensures r.Success? ==> store.seqNo == old(store.seqNo) + 1
    ensures r.Failure? ==> store.rows == old(store.rows) && store.seqNo == old(store.seqNo)
    ensures r.Failure? && r.error != InsertRow ==> store.tableExists == old(store.tableExists)
    ensures r == Failure(InsertRow) ==> store.tableExists
  {
    if env.isp.None? {
      return Failure(FetchUser);
    }
    var isp := env.isp.value;
    if env.servers.None? {
      return Failure(FetchServers);
    }
    var selected := SelectServer(env.servers.value, env.targets, serverIdFlag);
    if selected.Failure? {
      return Failure(selected.error);
    }
    var server := selected.value;
    // PingTest, DownloadTest, UploadTest: their errors are ignored.
    var probe := env.probe;
    if !env.dbOpens {
      return Failure(OpenDb);
    }
    var created := store.CreateTable(env.createFails);
    if !created {
      return Failure(CreateTable);
    }
    var rec := Assemble(isp, server, probe, env.now);
    var inserted := store.Insert(rec, env.insertFails);
    if inserted.Failure? {
      return Failure(InsertRow);
    }
    r := Success(rec);
  }
}
